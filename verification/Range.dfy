/** `Range` headers resolved against an artifact's length (sections 14.1.2 and 14.2 of RFC 9110). */
module Ranges {
  import opened Prelude
  import opened Text

  datatype Span = Span(first: u64, last: u64)

  datatype Requested = Whole | Partial(span: Span) | Unsatisfiable

  function Len(span: Span): int {
    span.last - span.first + 1
  }

  function Resolve(header: Option<string>, length: u64): (r: Requested)
    requires length > 0
    ensures r.Partial? ==> r.span.first <= r.span.last < length && 1 <= Len(r.span) <= length
  {
    match header
    case None => Whole
    case Some(text) =>
      match StripPrefix(Trim(text), "bytes=")
      case None => Whole
      case Some(ranges) =>
        if ',' in ranges then Whole
        else match SplitOnce(ranges, "-")
          case None => Whole
          case Some(parts) =>
            if parts.0 == "" then Suffix(parts.1, length)
            else match ParseU64(parts.0)
              case None => Whole
              case Some(first) =>
                if first >= length then Unsatisfiable
                else if parts.1 == "" then Partial(Span(first, length - 1))
                else match ParseU64(parts.1)
                  case None => Whole
                  case Some(last) =>
                    var clamped: u64 := Min(last, length - 1);
                    if clamped < first then Unsatisfiable else Partial(Span(first, clamped))
  }

  function Suffix(last: string, length: u64): (r: Requested)
    requires length > 0
    ensures r.Partial? ==> r.span.first <= r.span.last < length && 1 <= Len(r.span) <= length
  {
    match ParseU64(last)
    case None => Whole
    case Some(wanted) =>
      if wanted == 0 then Unsatisfiable
      else Partial(Span(if wanted <= length then length - wanted else 0, length - 1))
  }

  // ----- The byte positions a header asks for -----

  /** Whether position `i` of a `length`-byte artifact is in the int-range `first-last`. */
  ghost predicate Asked(first: nat, last: nat, i: nat) {
    first <= i <= last
  }

  /** The artifact positions a resolution delivers. */
  ghost predicate Delivered(r: Requested, length: nat, i: nat) {
    match r
    case Whole => i < length
    case Partial(span) => span.first <= i <= span.last
    case Unsatisfiable => false
  }

  lemma HeaderParts(before: string, after: string)
    requires '-' !in before && ',' !in before && ',' !in after
    requires after == "" || Visible(after[|after| - 1])
    ensures var header := "bytes=" + before + "-" + after;
            && StripPrefix(Trim(header), "bytes=") == Some(before + "-" + after)
            && ',' !in before + "-" + after
            && SplitOnce(before + "-" + after, "-") == Some((before, after))
  {
    hide Trim, SplitOnce;
    var ranges := before + "-" + after;
    var header := "bytes=" + before + "-" + after;
    assert header == "bytes=" + ranges;
    assert header[0] == 'b' && Visible('b') && Visible('-');
    assert header[|header| - 1] == ranges[|ranges| - 1];
    assert ranges[|ranges| - 1] == if after == "" then '-' else after[|after| - 1];
    hide Visible;
    TrimKeeps(header);
    SplitOnceAt(before, "-", after);
    assert header[6..] == ranges && header[..6] == "bytes=";
  }

  lemma DecimalIsPlain(n: nat)
    ensures '-' !in Decimal(n) && ',' !in Decimal(n) && Visible(Decimal(n)[|Decimal(n)| - 1])
  {
    hide Decimal;
    assert forall c <- Decimal(n) :: IsDigit(c);
    assert IsDigit(Decimal(n)[|Decimal(n)| - 1]);
  }

  /** `bytes=first-last` delivers exactly the positions of the artifact between the two, both included. */
  lemma IntRangeDelivers(first: u64, last: u64, length: u64)
    requires length > 0
    ensures var r := Resolve(Some("bytes=" + Decimal(first) + "-" + Decimal(last)), length);
            && !r.Whole?
            && forall i: nat :: Delivered(r, length, i) <==> i < length && Asked(first, last, i)
  {
    DecimalIsPlain(first);
    DecimalIsPlain(last);
    ParseOfDecimal(first);
    ParseOfDecimal(last);
    hide Decimal, ParseU64, Trim, SplitOnce, StripPrefix;
    HeaderParts(Decimal(first), Decimal(last));
  }

  /** `bytes=first-`, the resume form, delivers everything from `first` on. */
  lemma OpenRangeDelivers(first: u64, length: u64)
    requires length > 0
    ensures var r := Resolve(Some("bytes=" + Decimal(first) + "-"), length);
            && r == (if first < length then Partial(Span(first, length - 1)) else Unsatisfiable)
            && forall i: nat :: Delivered(r, length, i) <==> first <= i < length
  {
    DecimalIsPlain(first);
    ParseOfDecimal(first);
    hide Decimal, ParseU64, Trim, SplitOnce, StripPrefix;
    HeaderParts(Decimal(first), "");
    assert "bytes=" + Decimal(first) + "-" + "" == "bytes=" + Decimal(first) + "-";
  }

  /** `bytes=-count` delivers the final `count` positions, or all of them when there are fewer. */
  lemma SuffixRangeDelivers(count: u64, length: u64)
    requires length > 0
    ensures var r := Resolve(Some("bytes=-" + Decimal(count)), length);
            && !r.Whole?
            && forall i: nat :: Delivered(r, length, i) <==> i < length && i + count >= length
  {
    DecimalIsPlain(count);
    ParseOfDecimal(count);
    hide Decimal, ParseU64, Trim, SplitOnce, StripPrefix;
    HeaderParts("", Decimal(count));
    assert "bytes=" + "" + "-" + Decimal(count) == "bytes=-" + Decimal(count);
  }

  // ----- Which headers are honoured -----

  /** One range in octets: `first-`, `first-last` or `-count`. */
  datatype OctetRange = From(first: u64) | Between(first: u64, last: u64) | Final(count: u64)

  ghost predicate Parts(text: string, before: string, after: string) {
    text == "bytes=" + before + "-" + after
  }

  ghost predicate Reads(before: string, after: string, range: OctetRange) {
    match range
    case From(first) => ParseU64(before) == Some(first) && after == ""
    case Between(first, last) => ParseU64(before) == Some(first) && ParseU64(after) == Some(last)
    case Final(count) => before == "" && ParseU64(after) == Some(count)
  }

  ghost predicate Spells(text: string, range: OctetRange) {
    exists before, after :: Parts(text, before, after) && Reads(before, after, range)
  }

  /** The header is in the grammar of a single range. */
  ghost predicate IsSingle(text: string) {
    exists range :: Spells(text, range)
  }

  /** The header is not, but starts with a position at or past the end. */
  ghost predicate PastEndThenJunk(text: string, length: u64) {
    exists before, after ::
      && Parts(text, before, after)
      && ParseU64(before).Some? && ParseU64(before).value >= length
      && after != "" && ParseU64(after).None? && ',' !in after
  }

  /** The artifact positions a range names. */
  ghost predicate Wanted(range: OctetRange, length: nat, i: nat) {
    match range
    case From(first) => first <= i < length
    case Between(first, last) => i < length && Asked(first, last, i)
    case Final(count) => i < length && i + count >= length
  }

  lemma NumberIsPlain(text: string)
    requires ParseU64(text).Some?
    ensures text != "" && '-' !in text && ',' !in text
  {
    var digits := if text[0] == '+' then text[1..] else text;
    forall c | c in text
      ensures c != '-' && c != ','
    {
      assert c == '+' || c in digits;
      assert c in digits ==> IsDigit(c);
    }
  }

  /** What the resolution makes of a header cut at its first `-`. */
  function ResolveParts(before: string, after: string, length: u64): Requested
    requires length > 0
  {
    if before == "" then Suffix(after, length)
    else match ParseU64(before)
      case None => Whole
      case Some(first) =>
        if first >= length then Unsatisfiable
        else if after == "" then Partial(Span(first, length - 1))
        else match ParseU64(after)
          case None => Whole
          case Some(last) =>
            if Min(last, length - 1) < first then Unsatisfiable
            else Partial(Span(first, Min(last, length - 1)))
  }

  lemma ResolveByParts(header: string, before: string, after: string, length: u64)
    requires length > 0 && Parts(Trim(header), before, after) && '-' !in before
    ensures Resolve(Some(header), length)
         == if ',' in before || ',' in after then Whole else ResolveParts(before, after, length)
  {
    hide Trim, ParseU64, SplitOnce;
    var text := Trim(header);
    assert text == "bytes=" + (before + "-" + after);
    assert text[..6] == "bytes=" && text[6..] == before + "-" + after;
    SplitOnceAt(before, "-", after);
  }

  lemma WithoutParts(header: string, length: u64)
    requires length > 0
    ensures Resolve(Some(header), length).Whole?
            || exists before, after :: Parts(Trim(header), before, after) && '-' !in before
  {
    hide Trim, ParseU64;
    var text := Trim(header);
    if "bytes=" <= text && SplitOnce(text[6..], "-").Some? {
      var parts := SplitOnce(text[6..], "-").value;
      assert text == "bytes=" + text[6..] && text[6..] == parts.0 + "-" + parts.1;
      assert Parts(text, parts.0, parts.1);
    }
  }

  /** However its numbers are spelled, a single range delivers exactly the positions it names. */
  lemma SingleRangeDelivers(header: string, range: OctetRange, length: u64)
    requires length > 0 && Spells(Trim(header), range)
    ensures var r := Resolve(Some(header), length);
            !r.Whole? && forall i: nat :: Delivered(r, length, i) <==> Wanted(range, length, i)
  {
    var before, after :| Parts(Trim(header), before, after) && Reads(before, after, range);
    if before != "" {
      NumberIsPlain(before);
    }
    if after != "" {
      NumberIsPlain(after);
    }
    assert ParseU64("").None?;
    hide Resolve, Trim, ParseU64;
    ResolveByParts(header, before, after, length);
  }

  lemma CutOnce(text: string, before: string, after: string, before': string, after': string)
    requires Parts(text, before, after) && Parts(text, before', after') && '-' !in before && '-' !in before'
    ensures before == before' && after == after'
  {
    assert text[6..] == before + "-" + after && text[6..] == before' + "-" + after';
    SplitOnceAt(before, "-", after);
    SplitOnceAt(before', "-", after');
  }

  lemma ReadsIsPlain(before: string, after: string, range: OctetRange)
    ensures Reads(before, after, range) ==> '-' !in before
  {
    if ParseU64(before).Some? {
      NumberIsPlain(before);
    }
  }

  lemma JunkIsNotSingle(text: string, length: u64)
    requires PastEndThenJunk(text, length)
    ensures !IsSingle(text)
  {
    var before, after :|
      && Parts(text, before, after)
      && ParseU64(before).Some? && ParseU64(before).value >= length
      && after != "" && ParseU64(after).None? && ',' !in after;
    NumberIsPlain(before);
    hide ParseU64;
    forall range: OctetRange, before': string, after': string | Parts(text, before', after')
      ensures !Reads(before', after', range)
    {
      ReadsIsPlain(before', after', range);
      if '-' !in before' {
        CutOnce(text, before, after, before', after');
      }
    }
  }

  lemma SingleWhen(text: string, before: string, after: string)
    requires Parts(text, before, after)
    ensures before == "" && ParseU64(after).Some? ==> IsSingle(text)
    ensures ParseU64(before).Some? && (after == "" || ParseU64(after).Some?) ==> IsSingle(text)
  {
    hide ParseU64;
    assert forall range | Reads(before, after, range) :: Spells(text, range);
    var first, last := ParseU64(before), ParseU64(after);
    assert before == "" && last.Some? ==> Reads(before, after, Final(last.value));
    assert first.Some? && after == "" ==> Reads(before, after, From(first.value));
    assert first.Some? && last.Some? ==> Reads(before, after, Between(first.value, last.value));
  }

  /**
   Every header that is not a single range is ignored and the whole artifact served, with one family
   of exceptions: a position at or past the end is refused before what follows it is read.
   */
  lemma IgnoredExactly(header: string, length: u64)
    requires length > 0
    ensures var r, text := Resolve(Some(header), length), Trim(header);
            && (r.Whole? <==> !IsSingle(text) && !PastEndThenJunk(text, length))
            && (PastEndThenJunk(text, length) ==> !IsSingle(text) && r.Unsatisfiable?)
  {
    var text := Trim(header);
    WithoutParts(header, length);
    hide Resolve, Trim;
    if IsSingle(text) {
      var range :| Spells(text, range);
      SingleRangeDelivers(header, range, length);
    }
    if PastEndThenJunk(text, length) {
      JunkIsNotSingle(text, length);
      var before, after :|
        && Parts(text, before, after)
        && ParseU64(before).Some? && ParseU64(before).value >= length
        && after != "" && ParseU64(after).None? && ',' !in after;
      NumberIsPlain(before);
      hide ParseU64;
      ResolveByParts(header, before, after, length);
    } else if !Resolve(Some(header), length).Whole? {
      var before, after :| Parts(text, before, after) && '-' !in before;
      hide ParseU64;
      ResolveByParts(header, before, after, length);
      SingleWhen(text, before, after);
    }
  }

  /** The exception is real: five octets refuse this header, which is no range. */
  lemma JunkIsRefused()
    ensures PastEndThenJunk("bytes=9-x", 5) && !IsSingle("bytes=9-x")
    ensures Resolve(Some("bytes=9-x"), 5) == Unsatisfiable
  {
    TrimKeeps("bytes=9-x");
    assert Parts("bytes=9-x", "9", "x");
    ParseOfDecimal(9);
    assert Decimal(9) == "9";
    assert ParseU64("x").None? by { assert 'x' in "x" && !IsDigit('x'); }
    hide ParseU64, Trim, Resolve;
    assert PastEndThenJunk("bytes=9-x", 5);
    IgnoredExactly("bytes=9-x", 5);
  }
}
