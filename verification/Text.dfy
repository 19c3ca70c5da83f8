/**
 Text, as its UTF-8 octets: one `char` per octet, so lengths and offsets count what the program
 counts. The functions here are the standard-library string operations the program calls.
 */
module Text {
  import opened Prelude

  /** Every character stands for one octet. */
  ghost predicate OctetText(text: string) {
    forall i :: 0 <= i < |text| ==> text[i] < '\U{100}'
  }

  // ----- Splitting -----

  /** `str::split_once`: the parts around the first occurrence of `sep`. */
  function SplitOnce(s: string, sep: string): (r: Option<(string, string)>)
    requires sep != ""
    ensures r.Some? ==> s == r.value.0 + sep + r.value.1
    ensures r.None? && |sep| == 1 ==> sep[0] !in s
    ensures r.Some? && |sep| == 1 ==> sep[0] !in r.value.0
  {
    if sep <= s then Some(("", s[|sep|..]))
    else if s == "" then None
    else match SplitOnce(s[1..], sep)
      case None => None
      case Some(parts) => Some(([s[0]] + parts.0, parts.1))
  }

  ghost predicate OccursAt(s: string, sep: string, i: nat) {
    i + |sep| <= |s| && s[i..i + |sep|] == sep
  }

  lemma OccursShifts(s: string, sep: string)
    requires s != "" && sep != "" && !(sep <= s)
    ensures forall i: nat :: OccursAt(s, sep, i) <==> i > 0 && OccursAt(s[1..], sep, i - 1)
  {
    forall i: nat
      ensures OccursAt(s, sep, i) <==> i > 0 && OccursAt(s[1..], sep, i - 1)
    {
      if 0 < i <= |s| - |sep| {
        assert s[1..][i - 1..i - 1 + |sep|] == s[i..i + |sep|];
      }
    }
  }

  /** The split is at the first occurrence, and there is none only when nothing occurs. */
  lemma {:induction false} SplitsAtFirst(s: string, sep: string)
    requires sep != ""
    ensures SplitOnce(s, sep).None? ==> forall i: nat :: !OccursAt(s, sep, i)
    ensures SplitOnce(s, sep).Some? ==>
      var n := |SplitOnce(s, sep).value.0|;
      OccursAt(s, sep, n) && forall i: nat :: i < n ==> !OccursAt(s, sep, i)
  {
    if sep <= s {
      assert s[0..0 + |sep|] == sep;
    } else if s != "" {
      OccursShifts(s, sep);
      hide OccursAt;
      SplitsAtFirst(s[1..], sep);
    }
  }

  lemma {:induction false} SplitOnceAt(before: string, sep: string, after: string)
    requires sep != "" && sep[0] !in before
    ensures SplitOnce(before + sep + after, sep) == Some((before, after))
  {
    var s := before + sep + after;
    if before == "" {
      assert s[|sep|..] == after;
    } else {
      assert s[0] == before[0];
      assert !(sep <= s) by {
        assert s[0] != sep[0];
      }
      assert s[1..] == before[1..] + sep + after;
      SplitOnceAt(before[1..], sep, after);
      assert [s[0]] + before[1..] == before;
    }
  }

  function StripPrefix(s: string, prefix: string): (r: Option<string>)
    ensures r.Some? <==> prefix <= s
    ensures r.Some? ==> s == prefix + r.value
  {
    if prefix <= s then Some(s[|prefix|..]) else None
  }

  function StripSuffix(s: string, suffix: string): (r: Option<string>)
    ensures r.Some? ==> s == r.value + suffix
  {
    if |suffix| <= |s| && s[|s| - |suffix|..] == suffix then Some(s[..|s| - |suffix|]) else None
  }

  // ----- Lines -----

  ghost predicate EndsInCr(line: string) {
    line != "" && line[|line| - 1] == '\r'
  }

  function StripCr(line: string): string {
    if line != "" && line[|line| - 1] == '\r' then line[..|line| - 1] else line
  }

  /** `str::lines`: a line ends at `\n` or `\r\n`; an unterminated last line keeps its `\r`. */
  function Lines(s: string): seq<string>
    decreases |s|
  {
    if s == "" then []
    else match SplitOnce(s, "\n")
      case None => [s]
      case Some(parts) => [StripCr(parts.0)] + Lines(parts.1)
  }

  function Unlines(lines: seq<string>): string {
    if lines == [] then "" else lines[0] + "\n" + Unlines(lines[1..])
  }

  ghost predicate LineText(line: string) {
    '\n' !in line && !EndsInCr(line)
  }

  lemma {:induction false} LinesOfUnlines(lines: seq<string>)
    requires forall line <- lines :: '\n' !in line
    ensures |Lines(Unlines(lines))| == |lines|
    ensures forall i :: 0 <= i < |lines| ==> Lines(Unlines(lines))[i] == StripCr(lines[i])
  {
    if lines != [] {
      SplitOnceAt(lines[0], "\n", Unlines(lines[1..]));
      LinesOfUnlines(lines[1..]);
    }
  }

  lemma {:induction false} NoSplitWithout(s: string, sep: string)
    requires sep != "" && sep[0] !in s
    ensures SplitOnce(s, sep).None?
  {
    if s != "" {
      NoSplitWithout(s[1..], sep);
    }
  }

  function StripEach(lines: seq<string>): seq<string> {
    if lines == [] then [] else [StripCr(lines[0])] + StripEach(lines[1..])
  }

  lemma OneLine(first: string, rest: string)
    requires '\n' !in first
    ensures Lines(first + "\n" + rest) == [StripCr(first)] + Lines(rest)
  {
    hide StripCr;
    SplitOnceAt(first, "\n", rest);
  }

  lemma LastLine(last: string)
    requires last != "" && '\n' !in last
    ensures Lines(last) == [last]
  {
    NoSplitWithout(last, "\n");
  }

  /** An unterminated last line is a line too, and keeps its carriage return. */
  lemma {:induction false} LinesOfUnterminated(lines: seq<string>, last: string)
    requires forall line <- lines :: '\n' !in line
    requires last != "" && '\n' !in last
    ensures Lines(Unlines(lines) + last) == StripEach(lines) + [last]
  {
    hide Lines, StripCr;
    if lines == [] {
      assert Unlines(lines) + last == last;
      LastLine(last);
    } else {
      assert Unlines(lines) + last == lines[0] + "\n" + (Unlines(lines[1..]) + last);
      OneLine(lines[0], Unlines(lines[1..]) + last);
      LinesOfUnterminated(lines[1..], last);
    }
  }

  lemma {:induction false} LinesHaveNoNewline(s: string)
    ensures forall line <- Lines(s) :: '\n' !in line
    decreases |s|
  {
    if s != "" {
      match SplitOnce(s, "\n")
      case None =>
      case Some(parts) =>
        LinesHaveNoNewline(parts.1);
    }
  }

  lemma {:induction false} UnlinesAppend(a: seq<string>, b: seq<string>)
    ensures Unlines(a + b) == Unlines(a) + Unlines(b)
  {
    if a == [] {
      assert a + b == b;
    } else {
      assert (a + b)[1..] == a[1..] + b;
      UnlinesAppend(a[1..], b);
    }
  }

  // ----- Separated lists -----

  /** `split(' ')` with the empty pieces filtered out. */
  function Words(s: string): seq<string>
    decreases |s|
  {
    match SplitOnce(s, " ")
    case None => if s == "" then [] else [s]
    case Some(parts) => (if parts.0 == "" then [] else [parts.0]) + Words(parts.1)
  }

  function Join(parts: seq<string>, sep: string): string {
    if parts == [] then ""
    else if |parts| == 1 then parts[0]
    else parts[0] + sep + Join(parts[1..], sep)
  }

  lemma {:induction false} WordsOfJoin(parts: seq<string>)
    requires forall part <- parts :: part != "" && ' ' !in part
    ensures Words(Join(parts, " ")) == parts
  {
    if |parts| == 1 {
      match SplitOnce(parts[0], " ")
      case None =>
      case Some(split) =>
        assert ' ' in split.0 + " " + split.1;
    } else if |parts| > 1 {
      SplitOnceAt(parts[0], " ", Join(parts[1..], " "));
      WordsOfJoin(parts[1..]);
    }
  }

  function NonEmpty(pieces: seq<string>): seq<string> {
    if pieces == [] then [] else (if pieces[0] == "" then [] else [pieces[0]]) + NonEmpty(pieces[1..])
  }

  /** However many spaces stand between and around them, the words are the pieces that are not empty. */
  lemma {:induction false} WordsOfPieces(pieces: seq<string>)
    requires pieces != [] && forall piece <- pieces :: ' ' !in piece
    ensures Words(Join(pieces, " ")) == NonEmpty(pieces)
  {
    assert NonEmpty([]) == [];
    if |pieces| == 1 {
      NoSplitWithout(pieces[0], " ");
      assert pieces[1..] == [];
    } else {
      SplitOnceAt(pieces[0], " ", Join(pieces[1..], " "));
      WordsOfPieces(pieces[1..]);
    }
  }

  // ----- Decimal numbers -----

  predicate IsDigit(c: char) {
    '0' <= c <= '9'
  }

  function Decimal(n: nat): (text: string)
    ensures text != "" && forall c <- text :: IsDigit(c)
  {
    if n < 10 then ['0' + n as char] else Decimal(n / 10) + ['0' + (n % 10) as char]
  }

  function NumberOf(digits: string): nat
    requires forall c <- digits :: IsDigit(c)
  {
    if digits == "" then 0
    else
      assert IsDigit(digits[|digits| - 1]);
      10 * NumberOf(digits[..|digits| - 1]) + (digits[|digits| - 1] as nat - '0' as nat)
  }

  /** `str::parse::<u64>`: an optional `+`, at least one digit, and a value that fits. */
  function ParseU64(text: string): Option<u64> {
    var digits := if text != "" && text[0] == '+' then text[1..] else text;
    if digits != "" && (forall c <- digits :: IsDigit(c)) && NumberOf(digits) < U64_LIMIT
    then Some(NumberOf(digits))
    else None
  }

  lemma {:induction false} NumberOfDecimal(n: nat)
    ensures NumberOf(Decimal(n)) == n
  {
    if n >= 10 {
      NumberOfDecimal(n / 10);
      assert Decimal(n)[..|Decimal(n)| - 1] == Decimal(n / 10);
    } else {
      assert Decimal(n)[..0] == "";
    }
  }

  lemma ParseOfDecimal(n: u64)
    ensures ParseU64(Decimal(n)) == Some(n)
  {
    NumberOfDecimal(n);
    assert IsDigit(Decimal(n)[0]);
  }

  function Zeros(count: nat): (zeros: string)
    ensures |zeros| == count && forall c <- zeros :: c == '0'
  {
    seq(count, _ => '0')
  }

  ghost predicate IsNumber(text: string) {
    forall c <- text :: IsDigit(c)
  }

  lemma {:induction false} NumberOfPadded(count: nat, digits: string)
    requires IsNumber(digits)
    ensures IsNumber(Zeros(count) + digits) && NumberOf(Zeros(count) + digits) == NumberOf(digits)
    decreases count + |digits|
  {
    var padded := Zeros(count) + digits;
    if digits != "" {
      var front := digits[..|digits| - 1];
      NumberOfPadded(count, front);
      assert padded[..|padded| - 1] == Zeros(count) + front;
      assert padded[|padded| - 1] == digits[|digits| - 1];
    } else if count > 0 {
      NumberOfPadded(count - 1, "");
      assert padded[..|padded| - 1] == Zeros(count - 1) + "";
      assert padded[|padded| - 1] == '0';
    }
  }

  /** Digits are the decimal numeral of their value, after some zeros. */
  lemma {:induction false} DigitsArePadded(digits: string)
    requires digits != "" && IsNumber(digits)
    ensures |Decimal(NumberOf(digits))| <= |digits|
    ensures digits == Zeros(|digits| - |Decimal(NumberOf(digits))|) + Decimal(NumberOf(digits))
  {
    hide NumberOf, Decimal, Zeros;
    var front, last := digits[..|digits| - 1], digits[|digits| - 1];
    assert IsDigit(last) && digits == front + [last];
    OneMoreDigit(front, last);
    if front == "" {
      ShortNumeral(last as nat - '0' as nat);
      assert digits == Zeros(0) + digits;
    } else {
      DigitsArePadded(front);
      PaddedOnce(|front| - |Decimal(NumberOf(front))|, NumberOf(front), last);
      var numeral := Decimal(NumberOf(digits));
      assert digits[|digits| - |numeral|..] == numeral;
    }
  }

  lemma OneMoreDigit(front: string, last: char)
    requires IsNumber(front) && IsDigit(last)
    ensures IsNumber(front + [last]) && NumberOf(front + [last]) == 10 * NumberOf(front) + (last as nat - '0' as nat)
    ensures front == "" ==> NumberOf(front) == 0
  {
    assert (front + [last])[..|front|] == front;
  }

  lemma ShortNumeral(n: nat)
    requires n < 10
    ensures Decimal(n) == ['0' + n as char]
  {
  }

  /** A padded numeral with one more digit is a padded numeral. */
  lemma PaddedOnce(count: nat, n: nat, last: char)
    requires IsDigit(last)
    ensures var m := 10 * n + (last as nat - '0' as nat);
            && |Decimal(m)| <= count + |Decimal(n)| + 1
            && Zeros(count) + Decimal(n) + [last] == Zeros(count + |Decimal(n)| + 1 - |Decimal(m)|) + Decimal(m)
  {
    var m := 10 * n + (last as nat - '0' as nat);
    if n > 0 {
      assert m / 10 == n && m % 10 == last as nat - '0' as nat;
      assert Decimal(m) == Decimal(n) + [last];
    } else {
      assert Decimal(m) == [last] && Decimal(0) == "0";
      assert Zeros(count) + "0" == Zeros(count + 1);
    }
  }

  lemma PaddedParses(count: nat, n: u64)
    ensures ParseU64(Zeros(count) + Decimal(n)) == Some(n)
    ensures ParseU64("+" + (Zeros(count) + Decimal(n))) == Some(n)
  {
    hide Decimal;
    var digits := Zeros(count) + Decimal(n);
    NumberOfDecimal(n);
    NumberOfPadded(count, Decimal(n));
    hide NumberOf, Zeros;
    assert digits != "" && IsNumber(digits) && IsDigit(digits[0]);
    assert ("+" + digits)[1..] == digits;
  }

  lemma ParsedIsPadded(text: string, n: u64) returns (count: nat)
    requires ParseU64(text) == Some(n)
    ensures text == Zeros(count) + Decimal(n) || text == "+" + (Zeros(count) + Decimal(n))
  {
    hide Decimal, NumberOf, Zeros;
    var digits := if text[0] == '+' then text[1..] else text;
    DigitsArePadded(digits);
    count := |digits| - |Decimal(n)|;
    assert text == digits || text == "+" + digits;
  }

  /** The numbers accepted, and their spellings: a numeral, with leading zeros and a plus sign if one likes. */
  lemma NumberExactly(text: string, n: u64)
    ensures ParseU64(text) == Some(n)
        <==> exists count: nat :: text == Zeros(count) + Decimal(n) || text == "+" + (Zeros(count) + Decimal(n))
  {
    hide Decimal, ParseU64, Zeros;
    if ParseU64(text) == Some(n) {
      var count := ParsedIsPadded(text, n);
    }
    forall count: nat
      ensures ParseU64(Zeros(count) + Decimal(n)) == Some(n)
      ensures ParseU64("+" + (Zeros(count) + Decimal(n))) == Some(n)
    {
      PaddedParses(count, n);
    }
  }

  // ----- White space -----

  /** One Unicode white-space character, as the octets that spell it. */
  predicate IsSpace(s: string) {
    || (|s| == 1 && ('\t' <= s[0] <= '\r' || s[0] == ' '))
    || (|s| == 2 && s[0] == '\U{C2}' && (s[1] == '\U{85}' || s[1] == '\U{A0}'))
    || (|s| == 3 && s[0] == '\U{E1}' && s[1] == '\U{9A}' && s[2] == '\U{80}')
    || (|s| == 3 && s[0] == '\U{E2}' && s[1] == '\U{80}'
        && ('\U{80}' <= s[2] <= '\U{8A}' || s[2] == '\U{A8}' || s[2] == '\U{A9}' || s[2] == '\U{AF}'))
    || (|s| == 3 && s[0] == '\U{E2}' && s[1] == '\U{81}' && s[2] == '\U{9F}')
    || (|s| == 3 && s[0] == '\U{E3}' && s[1] == '\U{80}' && s[2] == '\U{80}')
  }

  function TrimStart(s: string): string {
    if |s| >= 1 && IsSpace(s[..1]) then TrimStart(s[1..])
    else if |s| >= 2 && IsSpace(s[..2]) then TrimStart(s[2..])
    else if |s| >= 3 && IsSpace(s[..3]) then TrimStart(s[3..])
    else s
  }

  function TrimEnd(s: string): string {
    if |s| >= 1 && IsSpace(s[|s| - 1..]) then TrimEnd(s[..|s| - 1])
    else if |s| >= 2 && IsSpace(s[|s| - 2..]) then TrimEnd(s[..|s| - 2])
    else if |s| >= 3 && IsSpace(s[|s| - 3..]) then TrimEnd(s[..|s| - 3])
    else s
  }

  /** `str::trim`. */
  function Trim(s: string): string {
    TrimEnd(TrimStart(s))
  }

  /** Nothing but white space. */
  ghost predicate Blank(s: string)
    decreases |s|
  {
    s == "" || exists k: nat :: 1 <= k <= |s| && IsSpace(s[..k]) && Blank(s[k..])
  }

  ghost predicate StartsBlank(s: string) {
    exists k: nat :: 1 <= k <= |s| && IsSpace(s[..k])
  }

  ghost predicate EndsBlank(s: string) {
    exists k: nat :: k < |s| && IsSpace(s[k..])
  }

  lemma TrimStartStep(s: string)
    ensures TrimStart(s)
         == if |s| >= 1 && IsSpace(s[..1]) then TrimStart(s[1..])
            else if |s| >= 2 && IsSpace(s[..2]) then TrimStart(s[2..])
            else if |s| >= 3 && IsSpace(s[..3]) then TrimStart(s[3..])
            else s
  {
    hide IsSpace;
  }

  /** One turn of trimming the start: a white-space character of `k` octets goes, or there is none. */
  lemma TrimStartTurn(s: string) returns (k: nat)
    ensures k == 0 ==> TrimStart(s) == s && !StartsBlank(s)
    ensures k > 0 ==> k <= |s| && IsSpace(s[..k]) && TrimStart(s) == TrimStart(s[k..])
  {
    hide IsSpace, TrimStart;
    TrimStartStep(s);
    if |s| >= 1 && IsSpace(s[..1]) {
      k := 1;
    } else if |s| >= 2 && IsSpace(s[..2]) {
      k := 2;
    } else if |s| >= 3 && IsSpace(s[..3]) {
      k := 3;
    } else {
      k := 0;
      forall i: nat | 1 <= i <= |s|
        ensures !IsSpace(s[..i])
      {
        SpaceIsShort(s[..i]);
        assert i == 1 || i == 2 || i == 3 || i > 3;
      }
    }
  }

  lemma SpaceIsShort(s: string)
    ensures IsSpace(s) ==> 1 <= |s| <= 3
  {
  }

  lemma {:induction false} TrimStartExactly(s: string)
    ensures |TrimStart(s)| <= |s| && TrimStart(s) == s[|s| - |TrimStart(s)|..]
    ensures Blank(s[..|s| - |TrimStart(s)|]) && !StartsBlank(TrimStart(s))
    decreases |s|
  {
    hide *;
    var k := TrimStartTurn(s);
    if k > 0 {
      TrimStartExactly(s[k..]);
      FrontBlank(s, k, |TrimStart(s)|);
    } else {
      NothingBefore(s);
    }
  }

  lemma NothingBefore(s: string)
    ensures s[0..] == s && Blank(s[..0])
  {
  }

  lemma FrontBlank(s: string, k: nat, n: nat)
    requires 0 < k <= |s| && n <= |s[k..]| && IsSpace(s[..k]) && Blank(s[k..][..|s[k..]| - n])
    ensures Blank(s[..|s| - n]) && s[k..][|s[k..]| - n..] == s[|s| - n..]
  {
    hide IsSpace;
    var front := s[..|s| - n];
    assert front[..k] == s[..k] && front[k..] == s[k..][..|s[k..]| - n];
  }

  lemma {:induction false} BlankAppend(a: string, b: string)
    requires Blank(a) && Blank(b)
    ensures Blank(a + b)
    decreases |a|
  {
    hide IsSpace;
    if a == "" {
      assert a + b == b;
    } else {
      var k: nat :| 1 <= k <= |a| && IsSpace(a[..k]) && Blank(a[k..]);
      BlankAppend(a[k..], b);
      assert (a + b)[..k] == a[..k] && (a + b)[k..] == a[k..] + b;
    }
  }

  lemma OneBlank(s: string)
    requires IsSpace(s)
    ensures Blank(s)
  {
    assert s[..|s|] == s && s[|s|..] == "";
  }

  lemma TrimEndStep(s: string)
    ensures TrimEnd(s)
         == if |s| >= 1 && IsSpace(s[|s| - 1..]) then TrimEnd(s[..|s| - 1])
            else if |s| >= 2 && IsSpace(s[|s| - 2..]) then TrimEnd(s[..|s| - 2])
            else if |s| >= 3 && IsSpace(s[|s| - 3..]) then TrimEnd(s[..|s| - 3])
            else s
  {
    hide IsSpace;
  }

  /** One turn of trimming the end. */
  lemma TrimEndTurn(s: string) returns (k: nat)
    ensures k == 0 ==> TrimEnd(s) == s && !EndsBlank(s)
    ensures k > 0 ==> k <= |s| && IsSpace(s[|s| - k..]) && TrimEnd(s) == TrimEnd(s[..|s| - k])
  {
    hide IsSpace, TrimEnd;
    TrimEndStep(s);
    if |s| >= 1 && IsSpace(s[|s| - 1..]) {
      k := 1;
    } else if |s| >= 2 && IsSpace(s[|s| - 2..]) {
      k := 2;
    } else if |s| >= 3 && IsSpace(s[|s| - 3..]) {
      k := 3;
    } else {
      k := 0;
      forall i: nat | i < |s|
        ensures !IsSpace(s[i..])
      {
        SpaceIsShort(s[i..]);
        assert i == |s| - 1 || i == |s| - 2 || i == |s| - 3 || |s| - i > 3;
      }
    }
  }

  lemma {:induction false} TrimEndExactly(s: string)
    ensures |TrimEnd(s)| <= |s| && TrimEnd(s) == s[..|TrimEnd(s)|]
    ensures Blank(s[|TrimEnd(s)|..]) && !EndsBlank(TrimEnd(s))
    decreases |s|
  {
    hide *;
    var k := TrimEndTurn(s);
    if k > 0 {
      TrimEndExactly(s[..|s| - k]);
      OneBlank(s[|s| - k..]);
      BackBlank(s, |s| - k, |TrimEnd(s)|);
    } else {
      NothingBlank(s);
    }
  }

  lemma NothingBlank(s: string)
    ensures s[..|s|] == s && Blank(s[|s|..])
  {
  }

  lemma BackBlank(s: string, k: nat, n: nat)
    requires n <= k <= |s| && Blank(s[..k][n..]) && Blank(s[k..])
    ensures Blank(s[n..]) && s[..k][..n] == s[..n]
  {
    hide Blank;
    BlankAppend(s[..k][n..], s[k..]);
    assert s[n..] == s[..k][n..] + s[k..];
  }

  /** All the white space on both ends goes, and nothing else. */
  lemma TrimExactly(s: string)
    ensures !StartsBlank(Trim(s)) && !EndsBlank(Trim(s))
    ensures exists before: string, after: string :: Blank(before) && Blank(after) && s == before + Trim(s) + after
  {
    hide IsSpace, TrimStart, TrimEnd, Blank;
    TrimStartExactly(s);
    var rest := TrimStart(s);
    TrimEndExactly(rest);
    var before, after := s[..|s| - |rest|], rest[|Trim(s)|..];
    assert s == before + Trim(s) + after;
    forall k: nat | 1 <= k <= |Trim(s)|
      ensures !IsSpace(Trim(s)[..k])
    {
      assert Trim(s)[..k] == rest[..k];
    }
  }

  predicate Visible(c: char) {
    '!' <= c <= '~'
  }

  lemma SpaceIsInvisible(s: string)
    requires IsSpace(s)
    ensures s != "" && !Visible(s[0]) && !Visible(s[|s| - 1])
  {
  }

  lemma FrontKept(s: string)
    requires s != "" && Visible(s[0])
    ensures TrimStart(s) == s
  {
    forall k | 1 <= k <= |s|
      ensures !IsSpace(s[..k])
    {
      assert s[..k][0] == s[0];
      if IsSpace(s[..k]) {
        SpaceIsInvisible(s[..k]);
      }
    }
    hide IsSpace;
  }

  lemma BackKept(s: string)
    requires s != "" && Visible(s[|s| - 1])
    ensures TrimEnd(s) == s
  {
    forall k | 0 <= k < |s|
      ensures !IsSpace(s[k..])
    {
      assert s[k..][|s| - k - 1] == s[|s| - 1];
      if IsSpace(s[k..]) {
        SpaceIsInvisible(s[k..]);
      }
    }
    hide IsSpace;
  }

  lemma TrimKeeps(s: string)
    requires s != "" && Visible(s[0]) && Visible(s[|s| - 1])
    ensures Trim(s) == s
  {
    hide TrimStart, TrimEnd, Visible;
    FrontKept(s);
    BackKept(s);
  }

  // ----- ASCII case -----

  function Lower(c: char): char {
    if 'A' <= c <= 'Z' then c - 'A' + 'a' else c
  }

  /** The same letter in either case, 32 apart, or the same character. */
  lemma LowerExactly(a: char, b: char)
    ensures Lower(a) == Lower(b)
        <==> || a == b
             || ('A' <= a <= 'Z' && b as int == a as int + 32)
             || ('A' <= b <= 'Z' && a as int == b as int + 32)
  {
  }

  /** `str::eq_ignore_ascii_case`. */
  predicate SameIgnoringCase(a: string, b: string) {
    |a| == |b| && forall i :: 0 <= i < |a| ==> Lower(a[i]) == Lower(b[i])
  }
}
