/** HTTP/1.1 request heads: where one ends, and what it says about the body after it. */
module Http {
  import opened Prelude
  import opened Text

  const HEAD_LEN_MAX: nat := 16 * 1024
  const METADATA_BODY_MAX: nat := 1024 * 1024
  const HEAD_END: seq<byte> := [13, 10, 13, 10]

  datatype Method = Get | Head | Put
  datatype KeepAlive = Keep | Close
  datatype Expectation = Continue | Nothing
  datatype Framing = Empty | Length(length: u64) | Chunked

  datatype Error =
    | Encoding
    | RequestLine
    | BadMethod(name: string)
    | Version(version: string)
    | Header(line: string)
    | BadLength
    | ConflictingFraming

  datatype Request = Request(
    verb: Method,
    target: string,
    framing: Framing,
    keepAlive: KeepAlive,
    expectation: Expectation,
    range: Option<string>,
    authorization: Option<string>)

  // ----- Where a head ends -----

  ghost predicate EndsHead(buffer: seq<byte>, n: nat) {
    4 <= n <= |buffer| && buffer[n - 4..n] == HEAD_END
  }

  ghost predicate FirstEndsAt(buffer: seq<byte>, n: nat) {
    EndsHead(buffer, n) && forall m: nat | m < n :: !EndsHead(buffer, m)
  }

  ghost predicate NeverEnds(buffer: seq<byte>) {
    forall n: nat :: !EndsHead(buffer, n)
  }

  /** Length of the shortest prefix that ends in a blank line. */
  function HeadLen(buffer: seq<byte>): (r: Option<nat>)
    ensures r.Some? ==> FirstEndsAt(buffer, r.value)
    ensures r.None? ==> NeverEnds(buffer)
  {
    EndsOneLater(buffer);
    if |buffer| < 4 then None
    else if buffer[..4] == HEAD_END then Some(4)
    else
      match HeadLen(buffer[1..])
      case None => None
      case Some(n) => Some(n + 1)
  }

  lemma EndsOneLater(buffer: seq<byte>)
    ensures |buffer| < 4 ==> NeverEnds(buffer)
    ensures |buffer| >= 4 && buffer[..4] == HEAD_END ==> FirstEndsAt(buffer, 4)
    ensures |buffer| >= 4 && buffer[..4] != HEAD_END ==>
      && (NeverEnds(buffer[1..]) ==> NeverEnds(buffer))
      && forall n: nat :: FirstEndsAt(buffer[1..], n) ==> FirstEndsAt(buffer, n + 1)
  {
    assert |buffer| >= 4 ==> buffer[0..4] == buffer[..4];
    if |buffer| >= 4 && buffer[..4] != HEAD_END {
      EndsHeadShifts(buffer);
      hide EndsHead;
    }
  }

  lemma EndsHeadShifts(buffer: seq<byte>)
    requires |buffer| >= 4 && buffer[..4] != HEAD_END
    ensures forall n: nat :: EndsHead(buffer, n) <==> n > 4 && EndsHead(buffer[1..], n - 1)
  {
    forall n: nat | 4 < n <= |buffer|
      ensures EndsHead(buffer, n) <==> EndsHead(buffer[1..], n - 1)
    {
      assert buffer[1..][n - 5..n - 1] == buffer[n - 4..n];
    }
  }

  lemma EndsHeadInFront(buffer: seq<byte>, more: seq<byte>, n: nat)
    ensures n <= |buffer| ==> (EndsHead(buffer + more, n) <==> EndsHead(buffer, n))
  {
    assert 4 <= n <= |buffer| ==> (buffer + more)[n - 4..n] == buffer[n - 4..n];
  }

  /** A head that is complete stays the head, whatever arrives after it. */
  lemma HeadLenStable(buffer: seq<byte>, more: seq<byte>)
    requires HeadLen(buffer).Some?
    ensures HeadLen(buffer + more) == HeadLen(buffer)
  {
    hide HeadLen;
    var n := HeadLen(buffer).value;
    EndsHeadInFront(buffer, more, n);
    if HeadLen(buffer + more).Some? {
      EndsHeadInFront(buffer, more, HeadLen(buffer + more).value);
    }
  }

  // ----- Reading a head -----

  predicate Continues(b: byte) {
    0x80 <= b <= 0xBF
  }

  /** Octets of the well-formed UTF-8 character at the front, or 0. */
  function CharLen(bytes: seq<byte>): (n: nat)
    requires bytes != []
    ensures n <= |bytes|
  {
    var b0 := bytes[0];
    if b0 < 0x80 then 1
    else if |bytes| < 2 || !Continues(bytes[1]) then 0
    else if 0xC2 <= b0 <= 0xDF then 2
    else if |bytes| < 3 || !Continues(bytes[2]) then 0
    else if 0xE0 <= b0 <= 0xEF then
      if (b0 == 0xE0 && bytes[1] < 0xA0) || (b0 == 0xED && bytes[1] > 0x9F) then 0 else 3
    else if |bytes| < 4 || !Continues(bytes[3]) then 0
    else if 0xF0 <= b0 <= 0xF4 then
      if (b0 == 0xF0 && bytes[1] < 0x90) || (b0 == 0xF4 && bytes[1] > 0x8F) then 0 else 4
    else 0
  }

  predicate Utf8(bytes: seq<byte>) {
    bytes == [] || (CharLen(bytes) > 0 && Utf8(bytes[CharLen(bytes)..]))
  }

  function AsText(bytes: seq<byte>): (text: string)
    ensures |text| == |bytes|
  {
    seq(|bytes|, i requires 0 <= i < |bytes| => bytes[i] as char)
  }

  /** The octets a text stands for. */
  function Octets(text: string): (bytes: seq<byte>)
    ensures |bytes| == |text|
  {
    seq(|text|, i requires 0 <= i < |text| => text[i] as int % 256)
  }

  lemma OctetsReadBack(text: string)
    requires OctetText(text)
    ensures AsText(Octets(text)) == text
  {
  }

  lemma TextIsOctets(bytes: seq<byte>)
    ensures OctetText(AsText(bytes)) && Octets(AsText(bytes)) == bytes
  {
  }

  /** `split_terminator("\r\n")`. */
  function CrlfLines(text: string): seq<string>
    decreases |text|
  {
    if text == "" then []
    else match SplitOnce(text, "\r\n")
      case None => [text]
      case Some(parts) => [parts.0] + CrlfLines(parts.1)
  }

  ghost predicate NoCrlf(line: string) {
    forall i: nat :: !OccursAt(line, "\r\n", i)
  }

  function Terminated(lines: seq<string>): string {
    if lines == [] then "" else lines[0] + "\r\n" + Terminated(lines[1..])
  }

  lemma CrlfSplits(line: string, more: string)
    requires NoCrlf(line)
    ensures SplitOnce(line + "\r\n" + more, "\r\n") == Some((line, more))
  {
    var text := line + "\r\n" + more;
    SplitsAtFirst(text, "\r\n");
    assert text[|line|..|line| + 2] == "\r\n";
    hide SplitOnce;
    assert OccursAt(text, "\r\n", |line|);
    var parts := SplitOnce(text, "\r\n").value;
    CrlfInside(line, more, |parts.0|);
    assert parts.0 == text[..|parts.0|] && parts.1 == text[|parts.0| + 2..];
  }

  lemma CrlfInside(line: string, more: string, n: nat)
    requires NoCrlf(line)
    ensures n < |line| ==> !OccursAt(line + "\r\n" + more, "\r\n", n)
  {
    var text := line + "\r\n" + more;
    if n + 2 <= |line| {
      assert text[n..n + 2] == line[n..n + 2];
      assert !OccursAt(line, "\r\n", n);
    } else if n < |line| {
      assert text[n..n + 2][1] == '\r';
    }
  }

  /** The lines are what stands before each return and newline, and what stands after the last, if anything. */
  lemma {:induction false} CrlfExactly(lines: seq<string>, last: string)
    requires (forall i :: 0 <= i < |lines| ==> NoCrlf(lines[i])) && NoCrlf(last)
    ensures CrlfLines(Terminated(lines) + last) == lines + if last == "" then [] else [last]
  {
    hide SplitOnce, NoCrlf;
    if lines == [] {
      assert Terminated(lines) + last == last;
      NoCrlfNoSplit(last);
    } else {
      var rest := Terminated(lines[1..]) + last;
      assert Terminated(lines) + last == lines[0] + "\r\n" + rest;
      CrlfSplits(lines[0], rest);
      CrlfExactly(lines[1..], last);
      assert lines == [lines[0]] + lines[1..];
    }
  }

  lemma NoCrlfNoSplit(last: string)
    requires NoCrlf(last)
    ensures SplitOnce(last, "\r\n").None?
  {
    SplitsAtFirst(last, "\r\n");
  }

  /** `split(' ')`. */
  function Pieces(text: string): (parts: seq<string>)
    ensures |parts| >= 1
    ensures |parts| == 1 ==> parts == [text] && ' ' !in text
    decreases |text|
  {
    match SplitOnce(text, " ")
    case None => [text]
    case Some(parts) => [parts.0] + Pieces(parts.1)
  }

  function MethodOf(text: string): Option<Method> {
    if text == "GET" then Some(Get)
    else if text == "HEAD" then Some(Head)
    else if text == "PUT" then Some(Put)
    else None
  }

  function ParseRequestLine(line: string): Result<Request, Error> {
    var parts := Pieces(line);
    if |parts| != 3 then Err(RequestLine)
    else if !("HTTP/1." <= parts[2]) then Err(Version(parts[2]))
    else match MethodOf(parts[0])
      case None => Err(BadMethod(parts[0]))
      case Some(verb) => Ok(Request(verb, parts[1], Empty, Keep, Nothing, None, None))
  }

  function NameIs(line: string, name: string): bool {
    match SplitOnce(line, ":")
    case None => false
    case Some(parts) => SameIgnoringCase(parts.0, name)
  }

  function Absorb(request: Request, line: string): Result<Request, Error> {
    match SplitOnce(line, ":")
    case None => Err(Header(line))
    case Some(parts) =>
      var value := Trim(parts.1);
      if NameIs(line, "content-length") then
        if request.framing.Chunked? then Err(ConflictingFraming)
        else (match ParseU64(value)
              case Some(n) => Ok(request.(framing := Length(n)))
              case None => Err(BadLength))
      else if NameIs(line, "transfer-encoding") then
        if request.framing.Length? then Err(ConflictingFraming)
        else Ok(request.(framing := Chunked))
      else if NameIs(line, "connection") then
        Ok(request.(keepAlive := if SameIgnoringCase(value, "close") then Close else Keep))
      else if NameIs(line, "expect") then
        Ok(request.(expectation := if SameIgnoringCase(value, "100-continue") then Continue else Nothing))
      else if NameIs(line, "range") then Ok(request.(range := Some(value)))
      else if NameIs(line, "authorization") then Ok(request.(authorization := Some(value)))
      else Ok(request)
  }

  function AbsorbAll(request: Request, lines: seq<string>): Result<Request, Error>
    decreases |lines|
  {
    if lines == [] then Ok(request)
    else if lines[0] == "" then AbsorbAll(request, lines[1..])
    else match Absorb(request, lines[0])
      case Err(error) => Err(error)
      case Ok(next) => AbsorbAll(next, lines[1..])
  }

  function Parsed(head: seq<byte>): Result<Request, Error> {
    if !Utf8(head) then Err(Encoding)
    else
      var lines := CrlfLines(AsText(head));
      if lines == [] then Err(RequestLine)
      else match ParseRequestLine(lines[0])
        case Err(error) => Err(error)
        case Ok(request) => AbsorbAll(request, lines[1..])
  }

  method Parse(head: seq<byte>) returns (r: Result<Request, Error>)
    ensures r == Parsed(head)
  {
    if !Utf8(head) {
      return Err(Encoding);
    }
    var lines := CrlfLines(AsText(head));
    if lines == [] {
      return Err(RequestLine);
    }
    var first := ParseRequestLine(lines[0]);
    if first.Err? {
      return Err(first.error);
    }
    var request := first.value;
    for i := 1 to |lines|
      invariant AbsorbAll(first.value, lines[1..]) == AbsorbAll(request, lines[i..])
    {
      assert lines[i..][0] == lines[i] && lines[i..][1..] == lines[i + 1..];
      if lines[i] != "" {
        var absorbed := Absorb(request, lines[i]);
        if absorbed.Err? {
          return Err(absorbed.error);
        }
        request := absorbed.value;
      }
    }
    return Ok(request);
  }

  function BodyLen(request: Request): nat {
    match request.framing
    case Length(length) => length
    case _ => 0
  }

  predicate CarriesBody(request: Request) {
    match request.framing
    case Empty => false
    case Length(length) => length > 0
    case Chunked => true
  }

  // ----- A request as its header list declares it (section 6.1 of RFC 9112 for the framing) -----

  /** The value of the last header so named. */
  function Last(lines: seq<string>, name: string): Option<string>
    decreases |lines|
  {
    if lines == [] then None
    else if NameIs(lines[|lines| - 1], name) then Some(Trim(SplitOnce(lines[|lines| - 1], ":").value.1))
    else Last(lines[..|lines| - 1], name)
  }

  /** The framing a list of headers declares, read off the list as a whole. */
  ghost predicate FramingOf(lines: seq<string>, framing: Framing) {
    var length, encoding := Last(lines, "content-length"), Last(lines, "transfer-encoding");
    match framing
    case Empty => length.None? && encoding.None?
    case Chunked => length.None? && encoding.Some?
    case Length(n) => length.Some? && encoding.None? && ParseU64(length.value) == Some(n)
  }

  /** The framing apart, each header counts for what the last of its name says. */
  ghost predicate DeclaredBy(lines: seq<string>, request: Request) {
    && FramingOf(lines, request.framing)
    && request.range == Last(lines, "range")
    && request.authorization == Last(lines, "authorization")
    && (request.keepAlive.Close?
        <==> Last(lines, "connection").Some? && SameIgnoringCase(Last(lines, "connection").value, "close"))
    && (request.expectation.Continue?
        <==> Last(lines, "expect").Some? && SameIgnoringCase(Last(lines, "expect").value, "100-continue"))
  }

  ghost predicate DeclaresBoth(lines: seq<string>) {
    Last(lines, "content-length").Some? && Last(lines, "transfer-encoding").Some?
  }

  lemma LastSnoc(lines: seq<string>, line: string, name: string)
    ensures Last(lines + [line], name)
         == if NameIs(line, name) then Some(Trim(SplitOnce(line, ":").value.1)) else Last(lines, name)
  {
    assert (lines + [line])[..|lines|] == lines;
  }

  const NAMES: set<string> :=
    {"content-length", "transfer-encoding", "connection", "expect", "range", "authorization"}

  /** No two of the names a request looks for are the same up to case. */
  lemma NamesApart(a: string, b: string)
    requires a in NAMES && b in NAMES && SameIgnoringCase(a, b)
    ensures a == b
  {
    assert Lower(a[0]) == Lower(b[0]) && Lower(a[1]) == Lower(b[1]);
  }

  /** At most one of the names a request looks for is a line's. */
  lemma DistinctNames(line: string)
    ensures forall a, b | a in NAMES && b in NAMES && NameIs(line, a) && NameIs(line, b) :: a == b
  {
    hide *;
    forall a, b | a in NAMES && b in NAMES && NameIs(line, a) && NameIs(line, b)
      ensures a == b
    {
      OneName(line, a, b);
      NamesApart(a, b);
    }
  }

  lemma OneName(line: string, a: string, b: string)
    requires NameIs(line, a) && NameIs(line, b)
    ensures SameIgnoringCase(a, b)
  {
  }

  lemma NextHeader(lines: seq<string>, line: string)
    ensures forall name <- NAMES ::
      Last(lines + [line], name)
      == if NameIs(line, name) then Some(Trim(SplitOnce(line, ":").value.1)) else Last(lines, name)
  {
    forall name | name in NAMES
      ensures Last(lines + [line], name)
           == if NameIs(line, name) then Some(Trim(SplitOnce(line, ":").value.1)) else Last(lines, name)
    {
      LastSnoc(lines, line, name);
    }
  }

  lemma AbsorbDeclared(request: Request, seen: seq<string>, line: string)
    requires DeclaredBy(seen, request)
    ensures Absorb(request, line).Ok? ==> DeclaredBy(seen + [line], Absorb(request, line).value)
    ensures DeclaresBoth(seen + [line]) ==> Absorb(request, line).Err?
  {
    NextHeader(seen, line);
    DistinctNames(line);
    hide NameIs, Trim, ParseU64, Last, SameIgnoringCase;
  }

  lemma EmptyHeader(request: Request, seen: seq<string>)
    requires DeclaredBy(seen, request)
    ensures DeclaredBy(seen + [""], request)
  {
    NextHeader(seen, "");
    hide Last;
  }

  lemma {:induction false} AbsorbAllDeclared(request: Request, seen: seq<string>, lines: seq<string>)
    requires DeclaredBy(seen, request) && AbsorbAll(request, lines).Ok?
    ensures DeclaredBy(seen + lines, AbsorbAll(request, lines).value)
    decreases |lines|
  {
    hide Absorb, DeclaredBy;
    if lines == [] {
      assert seen + lines == seen;
    } else {
      assert seen + [lines[0]] + lines[1..] == seen + lines;
      if lines[0] == "" {
        EmptyHeader(request, seen);
        AbsorbAllDeclared(request, seen + [""], lines[1..]);
      } else {
        AbsorbDeclared(request, seen, lines[0]);
        AbsorbAllDeclared(Absorb(request, lines[0]).value, seen + [lines[0]], lines[1..]);
      }
    }
  }

  /**
   In any header list, in any order, case and with any repetition: an accepted request is the one the
   list declares, and a list that declares both framings is refused.
   */
  lemma HeadersAreDeclared(head: seq<byte>)
    ensures Parsed(head).Ok? ==> DeclaredBy(CrlfLines(AsText(head))[1..], Parsed(head).value)
    ensures Utf8(head) && CrlfLines(AsText(head)) != [] && DeclaresBoth(CrlfLines(AsText(head))[1..])
            ==> Parsed(head).Err?
  {
    if Parsed(head).Ok? {
      hide AbsorbAll;
      var lines := CrlfLines(AsText(head));
      var first := ParseRequestLine(lines[0]).value;
      assert DeclaredBy([], first);
      AbsorbAllDeclared(first, [], lines[1..]);
      assert [] + lines[1..] == lines[1..];
    }
  }

  // ----- Which header lists are accepted -----

  ghost predicate Mentions(lines: seq<string>, name: string) {
    exists line :: line in lines && NameIs(line, name)
  }

  /** A line that no request is refused for on its own account. */
  ghost predicate Acceptable(line: string) {
    line == ""
    || (':' in line
        && (NameIs(line, "content-length") ==> ParseU64(Trim(SplitOnce(line, ":").value.1)).Some?))
  }

  lemma {:induction false} LastMentions(lines: seq<string>, name: string)
    ensures Last(lines, name).Some? <==> Mentions(lines, name)
    decreases |lines|
  {
    if lines != [] {
      var last := |lines| - 1;
      hide NameIs, Trim;
      LastMentions(lines[..last], name);
      assert lines == lines[..last] + [lines[last]];
    }
  }

  lemma MentionsCons(line: string, lines: seq<string>, name: string)
    ensures Mentions([line] + lines, name) <==> NameIs(line, name) || Mentions(lines, name)
  {
    hide NameIs;
    assert line in [line] + lines;
    if Mentions(lines, name) {
      var other :| other in lines && NameIs(other, name);
      assert other in [line] + lines;
    }
  }

  /** One line: what it takes to be accepted, and which framing it leaves. */
  lemma AbsorbAccepts(request: Request, line: string)
    requires line != ""
    ensures Absorb(request, line).Ok? <==>
      && Acceptable(line)
      && !(NameIs(line, "content-length") && request.framing.Chunked?)
      && !(NameIs(line, "transfer-encoding") && request.framing.Length?)
    ensures Absorb(request, line).Ok? ==>
      var framing := Absorb(request, line).value.framing;
      && (framing.Length? <==> request.framing.Length? || NameIs(line, "content-length"))
      && (framing.Chunked? <==> request.framing.Chunked? || NameIs(line, "transfer-encoding"))
  {
    DistinctNames(line);
    hide Trim, ParseU64, SameIgnoringCase;
  }

  /**
   A header list is accepted exactly when every line has a colon, every length is a number, and the two
   framings, counting the one the request starts from, do not both occur. Repetition is no reason to
   refuse.
   */
  lemma {:induction false} AcceptedExactly(request: Request, lines: seq<string>)
    ensures AbsorbAll(request, lines).Ok? <==>
      && (forall line <- lines :: Acceptable(line))
      && !((request.framing.Length? || Mentions(lines, "content-length"))
           && (request.framing.Chunked? || Mentions(lines, "transfer-encoding")))
    decreases |lines|
  {
    hide Absorb, Acceptable, NameIs;
    if lines != [] {
      assert lines == [lines[0]] + lines[1..];
      MentionsCons(lines[0], lines[1..], "content-length");
      MentionsCons(lines[0], lines[1..], "transfer-encoding");
      hide Mentions;
      if lines[0] == "" {
        EmptyIsNoHeader();
        AcceptedExactly(request, lines[1..]);
      } else {
        AbsorbAccepts(request, lines[0]);
        if Absorb(request, lines[0]).Ok? {
          AcceptedExactly(Absorb(request, lines[0]).value, lines[1..]);
        } else if Acceptable(lines[0]) {
          AbsorbAccepts(request, lines[0]);
        }
      }
    }
  }

  lemma EmptyIsNoHeader()
    ensures Acceptable("") && forall name: string :: !NameIs("", name)
  {
  }

  /** A whole head is accepted exactly when it is text, its first line is a request line, and its headers are. */
  lemma HeadAcceptedExactly(head: seq<byte>)
    ensures var lines := CrlfLines(AsText(head));
            Parsed(head).Ok? <==>
              && Utf8(head) && lines != []
              && ParseRequestLine(lines[0]).Ok?
              && (forall line <- lines[1..] :: Acceptable(line))
              && !(Mentions(lines[1..], "content-length") && Mentions(lines[1..], "transfer-encoding"))
  {
    hide AbsorbAll, Acceptable, Mentions, Utf8, CrlfLines;
    var lines := CrlfLines(AsText(head));
    if Utf8(head) && lines != [] && ParseRequestLine(lines[0]).Ok? {
      AcceptedExactly(ParseRequestLine(lines[0]).value, lines[1..]);
    }
  }

  /** Two lengths that disagree: the head is accepted and the second one counts. */
  lemma RepeatedLengthCounts(request: Request, first: u64, second: u64)
    requires request.framing.Empty?
    ensures AbsorbAll(request, ["Content-Length: " + Decimal(first), "Content-Length: " + Decimal(second)])
         == Ok(request.(framing := Length(second)))
  {
    hide *;
    LengthLine(request, first);
    LengthLine(request.(framing := Length(first)), second);
    TwoHeaders(request, "Content-Length: " + Decimal(first), request.(framing := Length(first)),
               "Content-Length: " + Decimal(second), request.(framing := Length(second)));
  }

  lemma TwoHeaders(request: Request, a: string, once: Request, b: string, twice: Request)
    requires a != "" && b != "" && Absorb(request, a) == Ok(once) && Absorb(once, b) == Ok(twice)
    ensures AbsorbAll(request, [a, b]) == Ok(twice)
  {
    hide Absorb;
    assert [a, b][0] == a && [a, b][1..] == [b] && [b][0] == b && [b][1..] == [];
    assert AbsorbAll(twice, []) == Ok(twice);
    assert AbsorbAll(once, [b]) == Ok(twice);
  }

  lemma SpacedNumber(n: u64)
    ensures Trim(" " + Decimal(n)) == Decimal(n)
  {
    var value := " " + Decimal(n);
    assert IsDigit(Decimal(n)[0]) && IsDigit(Decimal(n)[|Decimal(n)| - 1]);
    hide Decimal;
    assert value[..1] == " " && value[1..] == Decimal(n);
    assert IsSpace(" ");
    assert TrimStart(value) == TrimStart(Decimal(n));
    hide TrimStart, TrimEnd;
    FrontKept(Decimal(n));
    BackKept(Decimal(n));
  }

  lemma LengthLine(request: Request, n: u64)
    requires !request.framing.Chunked?
    ensures Absorb(request, "Content-Length: " + Decimal(n)) == Ok(request.(framing := Length(n)))
  {
    hide *;
    var value := " " + Decimal(n);
    ParseOfDecimal(n);
    SpacedNumber(n);
    LengthName();
    Regrouped("Content-Length", ":", " ", Decimal(n));
    SplitOnceAt("Content-Length", ":", value);
    LengthAbsorbed(request, "Content-Length: " + Decimal(n), "Content-Length", value, n);
  }

  lemma LengthName()
    ensures SameIgnoringCase("Content-Length", "content-length") && ':' !in "Content-Length"
    ensures "Content-Length: " == "Content-Length" + ":" + " "
  {
  }

  lemma Regrouped(a: string, b: string, c: string, d: string)
    ensures a + b + c + d == a + b + (c + d)
  {
  }

  lemma LengthAbsorbed(request: Request, line: string, name: string, value: string, n: u64)
    requires SplitOnce(line, ":") == Some((name, value)) && SameIgnoringCase(name, "content-length")
    requires ParseU64(Trim(value)) == Some(n) && !request.framing.Chunked?
    ensures Absorb(request, line) == Ok(request.(framing := Length(n)))
  {
    hide SplitOnce, Trim, ParseU64, SameIgnoringCase;
  }

  // ----- Request lines -----

  function MethodText(verb: Method): string {
    match verb
    case Get => "GET"
    case Head => "HEAD"
    case Put => "PUT"
  }

  ghost predicate SpellsRequest(line: string, verb: Method, target: string, minor: string) {
    ' ' !in target && ' ' !in minor && line == MethodText(verb) + " " + target + " " + "HTTP/1." + minor
  }

  /** A known method, a target and an HTTP/1 version, one space apart: persistent, and no body so far. */
  lemma RequestLineReads(line: string, verb: Method, target: string, minor: string)
    requires SpellsRequest(line, verb, target, minor)
    ensures ParseRequestLine(line) == Ok(Request(verb, target, Empty, Keep, Nothing, None, None))
  {
    var version := "HTTP/1." + minor;
    assert line == MethodText(verb) + " " + target + " " + version;
    hide Pieces;
    ThreePieces(MethodText(verb), target, version);
  }

  /** And nothing else is accepted. */
  lemma RequestLineIsSpelled(line: string)
    requires ParseRequestLine(line).Ok?
    ensures var request := ParseRequestLine(line).value;
            SpellsRequest(line, request.verb, request.target, Pieces(line)[2][7..])
  {
    hide Pieces;
    var parts := Pieces(line);
    PiecesJoin(line, parts);
    assert parts[2] == "HTTP/1." + parts[2][7..];
    assert parts[0] == MethodText(ParseRequestLine(line).value.verb);
  }

  lemma ThreePieces(a: string, b: string, c: string)
    requires ' ' !in a && ' ' !in b && ' ' !in c
    ensures Pieces(a + " " + b + " " + c) == [a, b, c]
  {
    assert a + " " + b + " " + c == a + " " + (b + " " + c);
    hide SplitOnce;
    SplitOnceAt(a, " ", b + " " + c);
    SplitOnceAt(b, " ", c);
    NoSplit(c);
    assert Pieces(c) == [c];
    assert Pieces(b + " " + c) == [b] + Pieces(c);
  }

  lemma NoSplit(s: string)
    requires ' ' !in s
    ensures SplitOnce(s, " ").None?
  {
  }

  lemma PiecesJoin(line: string, parts: seq<string>)
    requires Pieces(line) == parts && |parts| == 3
    ensures line == parts[0] + " " + parts[1] + " " + parts[2]
    ensures ' ' !in parts[1] && ' ' !in parts[2]
  {
    hide SplitOnce;
    var first := SplitOnce(line, " ").value;
    assert parts == [first.0] + Pieces(first.1) && |Pieces(first.1)| == 2;
    var second := SplitOnce(first.1, " ").value;
    assert Pieces(first.1) == [second.0] + Pieces(second.1) && |Pieces(second.1)| == 1;
    assert parts[1] == second.0 && parts[2] == second.1;
  }
}
