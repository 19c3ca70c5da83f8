/** A concrete stream on which a body is served as a request. */
module SessionInputs {
  import opened Prelude
  import opened Text
  import opened Http
  import opened Outcomes
  import Disks
  import Handlers
  import IndexTables
  import Routes
  import opened Sessions

  // ----- A head, octet by octet -----

  ghost predicate Ascii(text: string) {
    forall i :: 0 <= i < |text| ==> text[i] < '\U{80}'
  }

  lemma {:induction false} AsciiIsUtf8(bytes: seq<byte>)
    requires forall i :: 0 <= i < |bytes| ==> bytes[i] < 0x80
    ensures Utf8(bytes)
  {
    if bytes != [] {
      AsciiIsUtf8(bytes[1..]);
    }
  }

  lemma OctetsRead(text: string)
    requires Ascii(text)
    ensures AsText(Octets(text)) == text && Utf8(Octets(text))
  {
    OctetsReadBack(text);
    AsciiIsUtf8(Octets(text));
  }

  /** Two lines and the blank one. */
  function TwoLines(a: string, b: string): string {
    a + "\r\n" + b + "\r\n" + "\r\n"
  }

  ghost predicate LineOf(line: string) {
    line != "" && Ascii(line) && '\r' !in line
  }

  lemma TwoLinesSplit(a: string, b: string)
    requires LineOf(a) && LineOf(b)
    ensures CrlfLines(TwoLines(a, b)) == [a, b, ""]
  {
    var tail := b + "\r\n" + "\r\n";
    assert TwoLines(a, b) == a + "\r\n" + tail;
    SplitOnceAt(a, "\r\n", tail);
    SplitOnceAt(b, "\r\n", "\r\n");
    SplitOnceAt("", "\r\n", "");
    assert "" + "\r\n" + "" == "\r\n";
    hide SplitOnce;
    assert CrlfLines("") == [];
    assert CrlfLines("\r\n") == [""];
    assert CrlfLines(tail) == [b, ""];
  }

  lemma ReturnsInTwoLines(a: string, b: string, i: nat)
    requires LineOf(a) && LineOf(b) && i < |TwoLines(a, b)|
    ensures TwoLines(a, b)[i] == '\r'
        <==> i == |a| || i == |a| + 2 + |b| || i == |a| + 4 + |b|
    ensures |TwoLines(a, b)| == |a| + |b| + 6
  {
    var text := TwoLines(a, b);
    if i < |a| {
      assert text[i] == a[i];
    } else if |a| + 2 <= i < |a| + 2 + |b| {
      assert text[i] == b[i - |a| - 2];
    }
  }

  lemma NoEarlierEnd(a: string, b: string, m: nat)
    requires LineOf(a) && LineOf(b) && Ascii(TwoLines(a, b)) && m < |TwoLines(a, b)|
    ensures !EndsHead(Octets(TwoLines(a, b)), m)
  {
    var text, bytes := TwoLines(a, b), Octets(TwoLines(a, b));
    ReturnsInTwoLines(a, b, 0);
    if 4 <= m {
      ReturnsInTwoLines(a, b, m - 4);
      ReturnsInTwoLines(a, b, m - 2);
      hide TwoLines;
      assert bytes[m - 4..m][0] == bytes[m - 4] && bytes[m - 4..m][2] == bytes[m - 2];
      assert !(text[m - 4] == '\r' && text[m - 2] == '\r');
    }
  }

  lemma EndsAtEnd(a: string, b: string)
    requires Ascii(TwoLines(a, b))
    ensures EndsHead(Octets(TwoLines(a, b)), |TwoLines(a, b)|)
  {
    var text, bytes := TwoLines(a, b), Octets(TwoLines(a, b));
    var n := |text|;
    assert text == (a + "\r\n" + b) + ("\r\n" + "\r\n");
    assert text[n - 4] == '\r' && text[n - 3] == '\n' && text[n - 2] == '\r' && text[n - 1] == '\n';
    hide TwoLines;
    assert bytes[n - 4..n] == HEAD_END;
  }

  /** The blank line at the end is the only one. */
  lemma TwoLinesEnd(a: string, b: string)
    requires LineOf(a) && LineOf(b) && Ascii(TwoLines(a, b))
    ensures HeadLen(Octets(TwoLines(a, b))) == Some(|TwoLines(a, b)|)
  {
    hide HeadLen, EndsHead, TwoLines, Octets, LineOf, Ascii;
    EndsAtEnd(a, b);
    forall m: nat | m < |TwoLines(a, b)|
      ensures !EndsHead(Octets(TwoLines(a, b)), m)
    {
      NoEarlierEnd(a, b, m);
    }
    FirstEnd(Octets(TwoLines(a, b)), |TwoLines(a, b)|);
  }

  lemma FirstEnd(bytes: seq<byte>, n: nat)
    requires EndsHead(bytes, n) && forall m: nat | m < n :: !EndsHead(bytes, m)
    ensures HeadLen(bytes) == Some(n)
  {
    hide EndsHead;
  }

  // ----- The input -----

  const LINE: string := "GET /nix-cache-info HTTP/1.1"

  function LengthText(n: u64): string {
    "Content-Length: " + Decimal(n)
  }

  lemma LinesOk(n: u64)
    ensures LineOf(LINE) && LineOf(LengthText(n)) && Ascii(TwoLines(LINE, LengthText(n)))
  {
    hide Decimal;
    FixedLines();
    forall i | 0 <= i < |Decimal(n)|
      ensures Decimal(n)[i] < '\U{80}' && Decimal(n)[i] != '\r'
    {
      assert Decimal(n)[i] in Decimal(n) && IsDigit(Decimal(n)[i]);
    }
    assert LineOf(Decimal(n));
    LinesJoin("Content-Length: ", Decimal(n));
    TwoLinesAscii(LINE, LengthText(n));
  }

  lemma FixedLines()
    ensures LineOf("Content-Length: ") && LineOf(LINE)
  {
  }

  lemma LinesJoin(a: string, b: string)
    requires LineOf(a) && LineOf(b)
    ensures LineOf(a + b)
  {
  }

  lemma TwoLinesAscii(a: string, b: string)
    requires LineOf(a) && LineOf(b)
    ensures Ascii(TwoLines(a, b))
  {
  }

  lemma HeadIsShort()
    ensures |HeadWith(0)| < U64_LIMIT
  {
    HeadIs(0);
    assert |Decimal(0)| == 1;
  }

  /** A request for the cache's description that announces a body. */
  function HeadWith(n: u64): (head: seq<byte>) {
    LinesOk(n);
    Octets(TwoLines(LINE, LengthText(n)))
  }

  function InfoRequest(n: u64): Request {
    Request(Get, "/nix-cache-info", Length(n), Keep, Nothing, None, None)
  }

  lemma HeadReads(n: u64)
    ensures HeadLen(HeadWith(n)) == Some(|HeadWith(n)|) && Parsed(HeadWith(n)) == Ok(InfoRequest(n))
  {
    LinesOk(n);
    var text := TwoLines(LINE, LengthText(n));
    LineReads();
    LengthLine(Request(Get, "/nix-cache-info", Empty, Keep, Nothing, None, None), n);
    hide *;
    TwoLinesEnd(LINE, LengthText(n));
    OctetsRead(text);
    TwoLinesSplit(LINE, LengthText(n));
    HeadOf(Octets(text), LINE, LengthText(n), Request(Get, "/nix-cache-info", Empty, Keep, Nothing, None, None),
           InfoRequest(n));
    HeadIs(n);
  }

  lemma HeadIs(n: u64)
    ensures LineOf(LINE) && LineOf(LengthText(n)) && Ascii(TwoLines(LINE, LengthText(n)))
    ensures HeadWith(n) == Octets(TwoLines(LINE, LengthText(n)))
  {
    LinesOk(n);
  }

  lemma LineReads()
    ensures ParseRequestLine(LINE) == Ok(Request(Get, "/nix-cache-info", Empty, Keep, Nothing, None, None))
  {
    assert SpellsRequest(LINE, Get, "/nix-cache-info", "1");
    RequestLineReads(LINE, Get, "/nix-cache-info", "1");
  }

  lemma HeadOf(head: seq<byte>, a: string, b: string, first: Request, request: Request)
    requires Utf8(head) && CrlfLines(AsText(head)) == [a, b, ""]
    requires ParseRequestLine(a) == Ok(first) && b != "" && Absorb(first, b) == Ok(request)
    ensures Parsed(head) == Ok(request)
  {
    hide Utf8, CrlfLines, ParseRequestLine, Absorb;
    assert [a, b, ""][1..] == [b, ""] && [b, ""][1..] == [""] && [""][1..] == [];
    assert AbsorbAll(request, []) == Ok(request);
    assert AbsorbAll(request, [""]) == Ok(request);
    assert AbsorbAll(first, [b, ""]) == Ok(request);
  }

  lemma InfoRoutes()
    ensures Routes.Resolve("/nix-cache-info") == Ok(Routes.CacheInfo)
  {
    Routes.PathOfPlain("/nix-cache-info");
    hide Routes.PathOf;
    assert "/nix-cache-info"[1..] == "nix-cache-info";
  }

  /** It is well formed, its body is unsafe, and every cache has its answer. */
  lemma InfoIsUnsafe(n: u64, body: seq<byte>, tables: IndexTables.Tables, disk: Disks.Disk)
    requires n == |body| > 0
    ensures var message := Message(HeadWith(n), body);
            && WellFormed(message) && !BodySafe(RequestOf(message))
            && Handlers.HasAnswer(RequestOf(message), tables, disk)
  {
    hide HeadLen, Parsed, HeadWith, Routes.Resolve;
    HeadReads(n);
    InfoRoutes();
  }

  /** One such head, announcing no body. */
  function Inner(): (head: seq<byte>)
    ensures |head| < U64_LIMIT
  {
    HeadIsShort();
    HeadWith(0)
  }

  /** The same head twice, the first announcing the second as its body. */
  function Stream(more: seq<byte>): seq<byte> {
    HeadWith(|Inner()|) + Inner() + more
  }

  /**
   Whatever the cache holds, every session on this stream that sees no failure serves the body of the
   first request as the second one.
   */
  lemma InfoBodyServed(cache: Handlers.Cache, more: seq<byte>, log: seq<Handled>)
    requires Trace(cache, Stream(more), log) && log != []
    ensures log[0].head == HeadWith(|Inner()|) && log[0].request.framing == Length(|Inner()|)
    ensures |log| > 1 ==> log[1].head == Inner()
    ensures Ended(Stream(more), log) ==> |log| > 1
  {
    hide HeadLen, Parsed, HeadWith, Trace, Ended, BodySafe, Handlers.HasAnswer, Rest, Arises;
    var outer := Message(HeadWith(|Inner()|), Inner());
    HeadReads(0);
    HeadReads(|Inner()|);
    HeadIsNotEmpty(Message(Inner(), []));
    InfoIsUnsafe(|Inner()|, Inner(), log[0].before.tables, log[0].before.disk);
    TraceAt(cache, Stream(more), log, 0);
    assert log[..0] == [];
    StartOfTrace(cache, Stream(more));
    FirstHead(outer, more);
    BodyServedAsHead(cache, outer, Message(Inner(), []), more, log);
  }
}
