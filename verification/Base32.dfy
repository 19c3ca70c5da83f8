/**
 Nix's base32. The first character is the most significant digit, and bits are packed
 little-endian across the bytes, so both directions are positional arithmetic on the one number
 `FromBytes` and `Value` assign to a byte string and to a text.
 */
module Base32 {
  import opened Prelude
  import opened Bits

  const ALPHABET: string := "0123456789abcdfghijklmnpqrsvwxyz"

  const DROPPED: nat := 255

  /** Where each of `a` to `z` stands in the alphabet, and `DROPPED` for the four it leaves out. */
  const LETTERS: seq<nat> :=
    [10, 11, 12, 13, DROPPED, 14, 15, 16, 17, 18, 19, 20, 21, 22, DROPPED, 23, 24, 25, 26, DROPPED,
     DROPPED, 27, 28, 29, 30, 31]

  const BITS: nat := 5

  datatype Error =
    | Length(expected: nat, found: nat)
    | Alphabet(character: char)
    | Overflow(overflow: nat, width: nat)

  function TextLen(width: nat): (len: nat)
    requires width >= 1
    ensures BITS * (len - 1) < 8 * width <= BITS * len
  {
    (width * 8 - 1) / BITS + 1
  }

  function Digit(character: char): (digit: Option<nat>)
    ensures digit.Some? ==> digit.value < 32 && ALPHABET[digit.value] == character
  {
    if '0' <= character <= '9' then Some(character as nat - '0' as nat)
    else if 'a' <= character <= 'z' then
      LetterAt(character as nat - 'a' as nat);
      var position := LETTERS[character as nat - 'a' as nat];
      if position == DROPPED then None else Some(position)
    else None
  }

  /** The two tables are inverse, from the letters' side. */
  lemma LetterAt(k: nat)
    requires k < 26
    ensures LETTERS[k] != DROPPED ==> LETTERS[k] < 32 && ALPHABET[LETTERS[k]] as nat == 'a' as nat + k
  {
    if k < 7 {
    } else if k < 14 {
    } else if k < 20 {
    } else {
    }
  }

  /** And from the alphabet's. */
  lemma AlphabetAt(d: nat)
    requires 10 <= d < 32
    ensures 'a' <= ALPHABET[d] <= 'z' && LETTERS[ALPHABET[d] as nat - 'a' as nat] == d
  {
    if d < 16 {
    } else if d < 21 {
    } else if d < 27 {
    } else {
    }
  }

  lemma NumeralAt(d: nat)
    requires d < 10
    ensures '0' <= ALPHABET[d] <= '9' && ALPHABET[d] as nat == '0' as nat + d
  {
  }

  lemma DigitOfAlphabet(d: nat)
    requires d < 32
    ensures Digit(ALPHABET[d]) == Some(d)
  {
    hide ALPHABET, LETTERS;
    if d < 10 {
      NumeralAt(d);
    } else {
      AlphabetAt(d);
    }
  }

  // ----- The numbers behind bytes and text -----

  /** Little-endian value of a byte string. */
  function FromBytes(bytes: seq<byte>): nat {
    if bytes == [] then 0 else bytes[0] + 256 * FromBytes(bytes[1..])
  }

  function ToBytes(width: nat, v: nat): (bytes: seq<byte>)
    ensures |bytes| == width
  {
    if width == 0 then [] else [v % 256] + ToBytes(width - 1, v / 256)
  }

  function DigitValue(character: char): (d: nat)
    ensures d < 32
  {
    match Digit(character)
    case Some(d) => d
    case None => 0
  }

  /** Value of a text whose last character is the least significant digit. */
  function Value(text: string): nat {
    if text == "" then 0
    else DigitValue(text[|text| - 1]) + 32 * Value(text[..|text| - 1])
  }

  /** The last `len` base-32 digits of `v`, most significant first. */
  function Digits(len: nat, v: nat): (text: string)
    ensures |text| == len
  {
    if len == 0 then "" else Digits(len - 1, v / 32) + [ALPHABET[v % 32]]
  }

  /** The rightmost character outside the alphabet: the one the right-to-left scan meets first. */
  function LastForeign(text: string): (character: Option<char>)
    ensures character.None? <==> forall c <- text :: Digit(c).Some?
  {
    if text == "" then None
    else if Digit(text[|text| - 1]).None? then Some(text[|text| - 1])
    else
      assert text == text[..|text| - 1] + [text[|text| - 1]];
      LastForeign(text[..|text| - 1])
  }

  function Encoded(bytes: seq<byte>): string
    requires |bytes| >= 1
  {
    Digits(TextLen(|bytes|), FromBytes(bytes))
  }

  function Decoded(width: nat, text: string): Result<seq<byte>, Error>
    requires width >= 1
  {
    if |text| != TextLen(width) then Err(Length(TextLen(width), |text|))
    else match LastForeign(text)
      case Some(character) => Err(Alphabet(character))
      case None =>
        if Value(text) >= Shl(1, 8 * width) then Err(Overflow(Shr(Value(text), 8 * width), width))
        else Ok(ToBytes(width, Value(text)))
  }

  // ----- Arithmetic -----

  lemma {:induction false} FromBytesBound(bytes: seq<byte>)
    ensures FromBytes(bytes) < Shl(1, 8 * |bytes|)
  {
    if bytes != [] {
      FromBytesBound(bytes[1..]);
      EightBits(1, 8 * |bytes|);
    }
  }

  lemma EightBits(x: nat, k: nat)
    requires k >= 8
    ensures Shl(x, k) == 256 * Shl(x, k - 8)
  {
    assert Shl(x, k) == 4 * Shl(x, k - 2);
    assert Shl(x, k - 2) == 4 * Shl(x, k - 4);
    assert Shl(x, k - 4) == 4 * Shl(x, k - 6);
    assert Shl(x, k - 6) == 4 * Shl(x, k - 8);
  }

  lemma FiveBits(x: nat, k: nat)
    requires k >= 5
    ensures Shl(x, k) == 32 * Shl(x, k - 5)
  {
    assert Shl(x, k) == 4 * Shl(x, k - 2);
    assert Shl(x, k - 2) == 4 * Shl(x, k - 4);
  }

  lemma {:induction false} BytesRoundTrip(bytes: seq<byte>)
    ensures ToBytes(|bytes|, FromBytes(bytes)) == bytes
  {
    if bytes != [] {
      BytesRoundTrip(bytes[1..]);
      assert FromBytes(bytes) / 256 == FromBytes(bytes[1..]);
    }
  }

  lemma {:induction false} ValueOfBytes(width: nat, v: nat)
    requires v < Shl(1, 8 * width)
    ensures FromBytes(ToBytes(width, v)) == v
  {
    if width > 0 {
      EightBits(1, 8 * width);
      ValueOfBytes(width - 1, v / 256);
    }
  }

  lemma LastDigit(front: string, d: nat)
    requires d < 32
    ensures Value(front + [ALPHABET[d]]) == d + 32 * Value(front)
  {
    DigitOfAlphabet(d);
    var text := front + [ALPHABET[d]];
    assert text[..|text| - 1] == front && text[|text| - 1] == ALPHABET[d];
  }

  lemma OneDigitLess(len: nat, v: nat)
    requires len > 0 && v < Shl(1, 5 * len)
    ensures v / 32 < Shl(1, 5 * (len - 1))
  {
    FiveBits(1, 5 * len);
  }

  lemma {:induction false} ValueOfDigits(len: nat, v: nat)
    requires v < Shl(1, 5 * len)
    ensures Value(Digits(len, v)) == v
  {
    if len > 0 {
      OneDigitLess(len, v);
      ValueOfDigits(len - 1, v / 32);
      LastDigit(Digits(len - 1, v / 32), v % 32);
    }
  }

  lemma {:induction false} DigitsOfValue(text: string)
    requires forall c <- text :: Digit(c).Some?
    ensures Digits(|text|, Value(text)) == text
  {
    hide *;
    if text == "" {
      NoDigits(Value(text));
    } else {
      var front, last := text[..|text| - 1], text[|text| - 1];
      Snoc(text);
      DigitsOfValue(front);
      LetterBack(last);
      ValueSnoc(front, last);
      DigitsSnoc(|front|, DigitValue(last), Value(front));
    }
  }

  lemma NoDigits(v: nat)
    ensures Digits(0, v) == ""
  {
  }

  lemma ValueSnoc(front: string, last: char)
    ensures Value(front + [last]) == DigitValue(last) + 32 * Value(front) && DigitValue(last) < 32
  {
    var text := front + [last];
    assert text[..|text| - 1] == front && text[|text| - 1] == last;
  }

  lemma DigitsSnoc(len: nat, d: nat, v: nat)
    requires d < 32
    ensures Digits(len + 1, d + 32 * v) == Digits(len, v) + [ALPHABET[d]]
  {
    DigitBack(d, v);
  }

  lemma DigitBack(d: nat, v: nat)
    requires d < 32
    ensures (d + 32 * v) / 32 == v && (d + 32 * v) % 32 == d
  {
  }

  lemma LetterBack(c: char)
    requires Digit(c).Some?
    ensures ALPHABET[DigitValue(c)] == c
  {
  }

  lemma {:induction false} DigitsInAlphabet(len: nat, v: nat)
    ensures forall c <- Digits(len, v) :: Digit(c).Some?
  {
    if len > 0 {
      DigitsInAlphabet(len - 1, v / 32);
      DigitOfAlphabet(v % 32);
    }
  }

  /** Reading one more character to the left adds its digit above everything already read. */
  lemma {:induction false} ValueOfCons(c: char, text: string)
    ensures Value([c] + text) == Value(text) + Shl(DigitValue(c), 5 * |text|)
  {
    if text == "" {
      assert [c] + text == [c];
      assert [c][..0] == "";
    } else {
      var front := text[..|text| - 1];
      ValueOfCons(c, front);
      assert ([c] + text)[..|text|] == [c] + front;
      FiveBits(DigitValue(c), 5 * |text|);
    }
  }

  // ----- Encoding -----

  lemma {:induction false} ShrDropsBytes(bytes: seq<byte>, j: nat)
    requires j <= |bytes|
    ensures Shr(FromBytes(bytes), 8 * j) == FromBytes(bytes[j..])
  {
    if j > 0 {
      ShrDropsBytes(bytes[1..], j - 1);
      assert bytes[1..][j - 1..] == bytes[j..];
      var v := FromBytes(bytes);
      EightHalvings(v);
      ShrShr(v, 8, 8 * (j - 1));
    }
  }

  lemma EightHalvings(v: nat)
    ensures Shr(v, 8) == v / 256
  {
    ShrShr(v, 4, 4);
    FiveHalvings(v);
    FiveHalvings(v / 16);
  }

  lemma FiveHalvings(v: nat)
    ensures Shr(v, 4) == v / 16
    ensures Shr(v, 5) == v / 32
  {
    OneHalving(v / 16);
    TwoHalvings(v);
    TwoHalvings(v / 4);
    hide Shr;
    ShrShr(v, 2, 2);
    ShrShr(v, 4, 1);
  }

  lemma OneHalving(v: nat)
    ensures Shr(v, 1) == v / 2
  {
    assert Shr(v / 2, 0) == v / 2;
  }

  lemma TwoHalvings(v: nat)
    ensures Shr(v, 2) == v / 4
  {
    OneHalving(v / 2);
  }

  /** Bits at or above `s + 5` never reach the five bits a shift by `s` exposes. */
  lemma {:induction false} HighBitsDoNotReach(w: nat, r: nat, s: nat)
    ensures Shr(w + Shl(r, s + 5), s) % 32 == Shr(w, s) % 32
  {
    if s == 0 {
      FiveBits(r, 5);
    } else {
      assert (w + Shl(r, s + 5)) / 2 == w / 2 + Shl(r, s + 4);
      HighBitsDoNotReach(w / 2, r, s - 1);
    }
  }

  lemma WindowOfTail(tail: seq<byte>, high: nat, rest: nat)
    requires |tail| >= 1
    requires high == (if 1 < |tail| then tail[1] else 0)
    requires rest == (if 2 <= |tail| then FromBytes(tail[2..]) else 0)
    ensures FromBytes(tail) == (tail[0] as nat + 256 * high) + 65536 * rest
  {
    if 1 < |tail| {
      assert tail[1..][1..] == tail[2..];
    }
  }

  lemma SixteenUp(rest: nat, s: nat)
    requires s < 8
    ensures 65536 * rest == Shl(Shl(rest, 11 - s), s + 5)
  {
    hide Shl;
    EightBits(rest, 8);
    EightBits(rest, 16);
    NoShift(rest);
    ShlShl(rest, 11 - s, s + 5);
  }

  lemma NoShift(x: nat)
    ensures Shl(x, 0) == x
  {
  }

  /** The window from bit `s` of byte `j`, shifted and masked, is five bits of the whole number. */
  lemma WindowAt(bytes: seq<byte>, j: nat, s: nat)
    requires j < |bytes| && s < 8
    ensures var high: nat := if j + 1 < |bytes| then bytes[j + 1] else 0;
            Shr(bytes[j] as nat + 256 * high, s) % 32 == Shr(FromBytes(bytes), 8 * j + s) % 32
  {
    hide FromBytes, Shl, Shr;
    var high: nat := if j + 1 < |bytes| then bytes[j + 1] else 0;
    var rest := if j + 2 <= |bytes| then FromBytes(bytes[j + 2..]) else 0;
    ShrShr(FromBytes(bytes), 8 * j, s);
    ShrDropsBytes(bytes, j);
    assert j + 2 <= |bytes| ==> bytes[j..][2..] == bytes[j + 2..];
    WindowOfTail(bytes[j..], high, rest);
    SixteenUp(rest, s);
    HighBitsDoNotReach(bytes[j] as nat + 256 * high, Shl(rest, 11 - s), s);
  }

  /** The two-byte window holds the digit: refinement of the sliding window to arithmetic. */
  lemma WindowIsDigit(bytes: seq<byte>, index: nat)
    requires BITS * index < 8 * |bytes|
    ensures var j, s := BITS * index / 8, BITS * index % 8;
            var high: nat := if j + 1 < |bytes| then bytes[j + 1] else 0;
            Shr(bytes[j] as nat + 256 * high, s) % 32 == Shr(FromBytes(bytes), BITS * index) % 32
  {
    hide FromBytes, Shr;
    WindowAt(bytes, BITS * index / 8, BITS * index % 8);
  }

  lemma NextDigit(count: nat, v: nat, index: nat)
    requires count >= 1
    ensures Digits(count, Shr(v, BITS * index))
            == Digits(count - 1, Shr(v, BITS * (index + 1))) + [ALPHABET[Shr(v, BITS * index) % 32]]
  {
    ShrShr(v, BITS * index, BITS);
    FiveHalvings(Shr(v, BITS * index));
  }

  method Encode(bytes: seq<byte>) returns (text: string)
    requires |bytes| >= 1
    ensures text == Encoded(bytes)
  {
    text := "";
    ghost var v := FromBytes(bytes);
    var len := TextLen(|bytes|);
    var index := len;
    TopIsZero(bytes);
    while index > 0
      invariant 0 <= index <= len
      invariant text == Digits(len - index, Shr(v, BITS * index))
    {
      index := index - 1;
      var place, shift := BITS * index / 8, BITS * index % 8;
      var low: nat := bytes[place];
      var high: nat := if place + 1 < |bytes| then bytes[place + 1] else 0;
      var window := Shr(low + 256 * high, shift);
      WindowIsDigit(bytes, index);
      NextDigit(len - index, v, index);
      text := text + [ALPHABET[window % 32]];
    }
  }

  lemma TopIsZero(bytes: seq<byte>)
    requires |bytes| >= 1
    ensures FromBytes(bytes) < Shl(1, BITS * TextLen(|bytes|))
    ensures Shr(FromBytes(bytes), BITS * TextLen(|bytes|)) == 0
  {
    var k := BITS * TextLen(|bytes|);
    FromBytesBound(bytes);
    ShlShl(1, 8 * |bytes|, k - 8 * |bytes|);
    ShlShl(1, k - 8 * |bytes|, 8 * |bytes|);
    ShlMono(1, Shl(1, k - 8 * |bytes|), 8 * |bytes|) by {
      OneOrMore(k - 8 * |bytes|);
    }
    ShlZero(k);
    ShrOfSum(FromBytes(bytes), 0, k);
  }

  lemma {:induction false} OneOrMore(k: nat)
    ensures Shl(1, k) >= 1
  {
    if k > 0 {
      OneOrMore(k - 1);
    }
  }

  // ----- Decoding -----

  lemma {:induction false} AddToByte(bytes: seq<byte>, j: nat, x: nat, sum: byte)
    requires j < |bytes| && sum == bytes[j] + x
    ensures FromBytes(bytes[j := sum]) == FromBytes(bytes) + Shl(x, 8 * j)
  {
    if j > 0 {
      AddToByte(bytes[1..], j - 1, x, sum);
      assert bytes[j := sum][1..] == bytes[1..][j - 1 := sum];
      EightBits(x, 8 * j);
    }
  }

  lemma SmallShifts(x: nat)
    ensures Shl(x, 0) == x && Shl(x, 1) == 2 * x && Shl(x, 2) == 4 * x && Shl(x, 3) == 8 * x
    ensures Shl(x, 4) == 16 * x && Shl(x, 5) == 32 * x && Shl(x, 6) == 64 * x
    ensures Shl(x, 7) == 128 * x && Shl(x, 8) == 256 * x
  {
    assert Shl(x, 1) == 2 * x;
    assert Shl(x, 2) == 2 * Shl(x, 1);
    assert Shl(x, 3) == 2 * Shl(x, 2);
    assert Shl(x, 4) == 2 * Shl(x, 3);
    assert Shl(x, 5) == 2 * Shl(x, 4);
    assert Shl(x, 6) == 2 * Shl(x, 5);
    assert Shl(x, 7) == 2 * Shl(x, 6);
    assert Shl(x, 8) == 2 * Shl(x, 7);
  }

  /** A digit moved left by `s` is a low byte that starts at bit `s` and a high byte. */
  datatype Split = Split(low: byte, high: byte)

  function SplitDigit(d: nat, s: nat): (split: Split)
    requires d < 32 && s < 8
    ensures split.low == Shl(d, s) % 256 && split.high == Shl(d, s) / 256
  {
    ShlMono(d, 31, s);
    ShiftOfDigit(31, s);
    Split(Shl(d, s) % 256, Shl(d, s) / 256)
  }

  lemma ShiftOfDigit(d: nat, s: nat)
    requires s < 8
    ensures Shl(d, s) <= 128 * d
  {
    SmallShifts(d);
    assert s == 0 || s == 1 || s == 2 || s == 3 || s == 4 || s == 5 || s == 6 || s == 7;
  }

  lemma SplitLow(d: nat, s: nat)
    requires d < 32 && s <= 3
    ensures var split := SplitDigit(d, s);
            split.low == Shl(d, s) && split.high == 0 && Shl(d, s) + Shl(1, s) <= Shl(1, s + 5)
  {
    SmallShifts(d);
    SmallShifts(1);
    assert s == 0 || s == 1 || s == 2 || s == 3;
  }

  lemma SplitHigh(d: nat, s: nat) returns (z: nat)
    requires d < 32 && 4 <= s < 8
    ensures var split := SplitDigit(d, s);
            split.low == Shl(z, s) && split.high < Shl(1, s - 3)
  {
    SmallShifts(d);
    SmallShifts(1);
    if s == 4 {
      z := d % 16;
      Quotient(d, 16, 16);
    } else if s == 5 {
      z := d % 8;
      Quotient(d, 32, 8);
    } else if s == 6 {
      z := d % 4;
      Quotient(d, 64, 4);
    } else {
      z := d % 2;
      Quotient(d, 128, 2);
    }
    SmallShifts(z);
  }

  lemma Quotient(d: nat, factor: nat, part: nat)
    requires part in {2, 4, 8, 16} && factor * part == 256 && d < 32
    ensures factor * d % 256 == factor * (d % part)
    ensures factor * d / 256 == d / part
  {
    var q, r := d / part, d % part;
    assert factor == 128 || factor == 64 || factor == 32 || factor == 16;
    assert factor * d == 256 * q + factor * r && factor * r < 256;
    ByteParts(q, factor * r);
  }

  lemma ByteParts(q: nat, x: nat)
    requires x < 256
    ensures (256 * q + x) / 256 == q && (256 * q + x) % 256 == x
  {
  }

  /** Where the next digit goes: byte and bit within it. */
  function Place(len: nat): nat {
    BITS * len / 8
  }

  function Shift(len: nat): (s: nat)
    ensures s < 8
  {
    BITS * len % 8
  }

  /** Every bit of `bytes` from bit `5 * len` on is clear. */
  ghost predicate ClearAbove(bytes: seq<byte>, len: nat) {
    var j := Place(len);
    && (forall k :: j < k < |bytes| ==> bytes[k] == 0)
    && (j < |bytes| ==> bytes[j] < Shl(1, Shift(len)))
  }

  ghost predicate InAlphabet(text: string) {
    forall c <- text :: Digit(c).Some?
  }

  /** `bytes` spells `suffix` and nothing above it. */
  ghost predicate Assembled(bytes: seq<byte>, suffix: string) {
    InAlphabet(suffix) && FromBytes(bytes) == Value(suffix) && ClearAbove(bytes, |suffix|)
  }

  /** `text` spells more than `bytes` holds, by `high` past the last byte. */
  ghost predicate Overflowed(bytes: seq<byte>, text: string, index: nat, high: nat) {
    && Place(index) + 1 == |bytes| && Shift(index) > 3
    && InAlphabet(text)
    && Value(text) == FromBytes(bytes) + Shl(high, 8 * |bytes|)
  }

  lemma EmptyAssembled(bytes: seq<byte>)
    requires forall k :: 0 <= k < |bytes| ==> bytes[k] == 0
    ensures Assembled(bytes, "")
  {
    AllZero(bytes);
  }

  lemma {:induction false} AllZero(bytes: seq<byte>)
    requires forall k :: 0 <= k < |bytes| ==> bytes[k] == 0
    ensures FromBytes(bytes) == 0
  {
    if bytes != [] {
      AllZero(bytes[1..]);
    }
  }

  lemma NextPlace(len: nat)
    ensures 8 * Place(len) + Shift(len) == BITS * len
    ensures Shift(len) <= 2 ==> Place(len + 1) == Place(len) && Shift(len + 1) == Shift(len) + 5
    ensures Shift(len) >= 3 ==> Place(len + 1) == Place(len) + 1 && Shift(len + 1) == Shift(len) - 3
  {
  }

  /** Or-ing the low byte of a split digit into a byte whose bits from `s` on are clear adds it. */
  lemma OrLow(x: byte, d: nat, s: nat)
    requires d < 32 && s < 8 && x < Shl(1, s)
    ensures BitOr(x, SplitDigit(d, s).low) == x + SplitDigit(d, s).low < 256
  {
    var z;
    if s <= 3 {
      SplitLow(d, s);
      z := d;
    } else {
      z := SplitHigh(d, s);
    }
    SmallShifts(1);
    OrBound(x, Shl(z, s), 8) by {
      assert Shl(z, s) == SplitDigit(d, s).low;
    }
    OrIsSum(x, z, s);
  }

  lemma PlacedValue(bytes: seq<byte>, j: nat, s: nat, d: nat, low: nat, high: nat, sum: byte)
    requires j < |bytes| && sum == bytes[j] + low && Shl(d, s) == low + 256 * high
    ensures FromBytes(bytes[j := sum]) + Shl(high, 8 * j + 8) == FromBytes(bytes) + Shl(d, 8 * j + s)
  {
    AddToByte(bytes, j, low, sum);
    ShiftedParts(d, s, 8 * j, low, high);
  }

  lemma ShiftedParts(d: nat, s: nat, k: nat, low: nat, high: nat)
    requires Shl(d, s) == low + 256 * high
    ensures Shl(d, k + s) == Shl(low, k) + Shl(high, k + 8)
  {
    ShlShl(d, s, k);
    ShlAdd(low, 256 * high, k);
    SmallShifts(high);
    ShlShl(high, 8, k);
  }

  /** The digit's five bits stay below the next place. */
  lemma ClearStep(bytes: seq<byte>, len: nat, d: nat, sum: byte)
    requires ClearAbove(bytes, len) && Place(len) < |bytes| && d < 32
    requires sum == bytes[Place(len)] + SplitDigit(d, Shift(len)).low
    ensures var once, high := bytes[Place(len) := sum], SplitDigit(d, Shift(len)).high;
            && (Place(len) + 1 < |bytes| ==> once[Place(len) + 1] == 0 && ClearAbove(once[Place(len) + 1 := high], len + 1))
            && (Place(len) + 1 == |bytes| && high == 0 ==> ClearAbove(once, len + 1))
            && (high > 0 ==> Shift(len) > 3)
  {
    var s := Shift(len);
    NextPlace(len);
    assert Shl(1, 0) == 1;
    if s <= 3 {
      SplitLow(d, s);
    } else {
      var _ := SplitHigh(d, s);
    }
  }

  lemma ValueStep(bytes: seq<byte>, suffix: string, c: char, d: nat, sum: byte)
    requires FromBytes(bytes) == Value(suffix) && Digit(c) == Some(d) && Place(|suffix|) < |bytes|
    requires sum == bytes[Place(|suffix|)] + SplitDigit(d, Shift(|suffix|)).low
    ensures Value([c] + suffix) ==
              FromBytes(bytes[Place(|suffix|) := sum])
              + Shl(SplitDigit(d, Shift(|suffix|)).high, 8 * Place(|suffix|) + 8)
  {
    hide FromBytes, Value, Digit, Shl, SplitDigit, Place, Shift;
    var split := SplitDigit(d, Shift(|suffix|));
    ValueOfCons(c, suffix);
    NextPlace(|suffix|);
    PlacedValue(bytes, Place(|suffix|), Shift(|suffix|), d, split.low, split.high, sum);
  }

  /** One turn of the decoding loop, within the width. */
  lemma AssembleStep(bytes: seq<byte>, suffix: string, c: char, d: nat, sum: byte)
    requires Assembled(bytes, suffix) && Digit(c) == Some(d) && Place(|suffix|) + 1 < |bytes|
    requires sum == bytes[Place(|suffix|)] + SplitDigit(d, Shift(|suffix|)).low
    ensures Assembled(bytes[Place(|suffix|) := sum][Place(|suffix|) + 1 := SplitDigit(d, Shift(|suffix|)).high],
                      [c] + suffix)
  {
    hide *;
    AssembledParts(bytes, suffix, c, d);
    var j, high := Place(|suffix|), SplitDigit(d, Shift(|suffix|)).high;
    ClearStep(bytes, |suffix|, d, sum);
    ValueStep(bytes, suffix, c, d, sum);
    var once: seq<byte> := bytes[j := sum];
    AddToByte(once, j + 1, high, high);
    IsAssembled(once[j + 1 := high], [c] + suffix);
  }

  lemma IsAssembled(bytes: seq<byte>, text: string)
    requires InAlphabet(text) && FromBytes(bytes) == Value(text) && ClearAbove(bytes, |text|)
    ensures Assembled(bytes, text)
  {
  }

  lemma AssembledParts(bytes: seq<byte>, suffix: string, c: char, d: nat)
    requires Assembled(bytes, suffix) && Digit(c) == Some(d)
    ensures d < 32 && InAlphabet(suffix) && InAlphabet([c] + suffix)
    ensures FromBytes(bytes) == Value(suffix) && ClearAbove(bytes, |suffix|)
  {
  }

  /** The same turn in the last byte, where a high part overflows. */
  lemma AssembleLast(bytes: seq<byte>, suffix: string, c: char, d: nat, sum: byte)
    requires Assembled(bytes, suffix) && Digit(c) == Some(d) && Place(|suffix|) + 1 == |bytes|
    requires sum == bytes[Place(|suffix|)] + SplitDigit(d, Shift(|suffix|)).low
    ensures var once, high := bytes[Place(|suffix|) := sum], SplitDigit(d, Shift(|suffix|)).high;
            if high == 0 then Assembled(once, [c] + suffix) else Overflowed(once, [c] + suffix, |suffix|, high)
  {
    hide *;
    AssembledParts(bytes, suffix, c, d);
    var once, high := bytes[Place(|suffix|) := sum], SplitDigit(d, Shift(|suffix|)).high;
    ClearStep(bytes, |suffix|, d, sum);
    ValueStep(bytes, suffix, c, d, sum);
    assert 8 * Place(|suffix|) + 8 == 8 * |bytes|;
    if high == 0 {
      ShlZero(8 * |bytes|);
      IsAssembled(once, [c] + suffix);
    } else {
      IsOverflowed(once, [c] + suffix, |suffix|, high);
    }
  }

  lemma IsOverflowed(bytes: seq<byte>, text: string, index: nat, high: nat)
    requires Place(index) + 1 == |bytes| && Shift(index) > 3 && InAlphabet(text)
    requires Value(text) == FromBytes(bytes) + Shl(high, 8 * |bytes|)
    ensures Overflowed(bytes, text, index, high)
  {
  }

  lemma {:induction false} LastForeignAt(text: string, k: nat)
    requires k < |text| && Digit(text[k]).None?
    requires forall c <- text[k + 1..] :: Digit(c).Some?
    ensures LastForeign(text) == Some(text[k])
  {
    if k < |text| - 1 {
      var front := text[..|text| - 1];
      assert text[k + 1..] == front[k + 1..] + [text[|text| - 1]];
      LastForeignAt(front, k);
    }
  }

  method Decode(width: nat, text: string) returns (r: Result<seq<byte>, Error>)
    requires width >= 1
    ensures r == Decoded(width, text)
  {
    var expected := TextLen(width);
    if |text| != expected {
      return Err(Length(expected, |text|));
    }
    var bytes := new byte[width](_ => 0);
    assert text[|text|..] == "";
    EmptyAssembled(bytes[..]);
    hide Assembled, Overflowed, Decoded, Digit, Place, Shift, TextLen;
    for index := 0 to |text|
      invariant Assembled(bytes[..], text[|text| - index..])
    {
      var character := text[|text| - 1 - index];
      ghost var suffix := text[|text| - index..];
      assert text[|text| - (index + 1)..] == [character] + suffix;
      var digit := Digit(character);
      if digit.None? {
        ForeignDecodes(bytes[..], text, index);
        return Err(Alphabet(character));
      }
      PlaceInRange(width, index);
      var overflow := PlaceDigit(bytes, index, digit.value, character, suffix);
      if overflow != 0 {
        OverflowIsHigh(bytes[..], overflow, text, index);
        return Err(Overflow(overflow, width));
      }
    }
    assert text[0..] == text;
    AssembledDecodes(bytes[..], text);
    return Ok(bytes[..]);
  }

  /** The two or-assignments of one digit; a high part that has no byte to go to comes back. */
  method PlaceDigit(bytes: array<byte>, index: nat, digit: nat, ghost character: char, ghost suffix: string)
      returns (overflow: nat)
    requires Assembled(bytes[..], suffix) && |suffix| == index && Digit(character) == Some(digit)
    requires Place(index) < bytes.Length
    modifies bytes
    ensures overflow == 0 ==> Assembled(bytes[..], [character] + suffix)
    ensures overflow > 0 ==> Overflowed(bytes[..], [character] + suffix, index, overflow)
  {
    ghost var before: seq<byte> := bytes[..];
    AssembledParts(before, suffix, character, digit);
    var place, split := Place(index), SplitDigit(digit, Shift(index));
    RoomAbove(before, index);
    OrLow(bytes[place], digit, Shift(index));
    assert BitOr(0, split.high) == split.high;
    hide BitOr, SplitDigit, Assembled, Overflowed, ClearAbove, InAlphabet, FromBytes, Value, Digit, Place, Shift, Shl;
    bytes[place] := BitOr(bytes[place], split.low);
    assert bytes[..] == before[place := bytes[place]];
    if place + 1 < bytes.Length {
      AssembleStep(before, suffix, character, digit, bytes[place]);
      ghost var once: seq<byte> := bytes[..];
      bytes[place + 1] := BitOr(bytes[place + 1], split.high);
      assert bytes[..] == once[place + 1 := split.high];
      return 0;
    }
    AssembleLast(before, suffix, character, digit, bytes[place]);
    return split.high;
  }

  lemma RoomAbove(bytes: seq<byte>, len: nat)
    requires ClearAbove(bytes, len) && Place(len) < |bytes|
    ensures bytes[Place(len)] < Shl(1, Shift(len))
    ensures Place(len) + 1 < |bytes| ==> bytes[Place(len) + 1] == 0
  {
  }

  lemma PlaceInRange(width: nat, index: nat)
    requires width >= 1 && index < TextLen(width)
    ensures Place(index) < width
  {
  }

  lemma ForeignDecodes(bytes: seq<byte>, text: string, index: nat)
    requires |bytes| >= 1 && |text| == TextLen(|bytes|) && index < |text|
    requires Assembled(bytes, text[|text| - index..]) && Digit(text[|text| - 1 - index]).None?
    ensures Decoded(|bytes|, text) == Err(Alphabet(text[|text| - 1 - index]))
  {
    hide FromBytes, Value, ClearAbove, Digit;
    LastForeignAt(text, |text| - 1 - index);
  }

  lemma AssembledDecodes(bytes: seq<byte>, text: string)
    requires |bytes| >= 1 && |text| == TextLen(|bytes|) && Assembled(bytes, text)
    ensures Decoded(|bytes|, text) == Ok(bytes)
  {
    FromBytesBound(bytes);
    BytesRoundTrip(bytes);
    hide FromBytes, Value, ClearAbove, Digit, ToBytes, Shl, Shr;
  }

  /** The high bits left over in the last byte are what the value has past its width. */
  lemma OverflowIsHigh(bytes: seq<byte>, high: nat, text: string, index: nat)
    requires |bytes| >= 1 && |text| == TextLen(|bytes|) && index < |text| && high > 0
    requires Overflowed(bytes, text[|text| - (index + 1)..], index, high)
    ensures Decoded(|bytes|, text) == Err(Overflow(high, |bytes|))
  {
    LastPlace(|bytes|, index);
    assert text[0..] == text;
    FromBytesBound(bytes);
    ShrOfSum(FromBytes(bytes), high, 8 * |bytes|);
    ShlMono(1, high, 8 * |bytes|);
    hide FromBytes, Value, Digit, Shl, Shr, Place, Shift;
  }

  lemma LastPlace(width: nat, index: nat)
    requires width >= 1 && index < TextLen(width) && Place(index) + 1 == width && Shift(index) > 3
    ensures index + 1 == TextLen(width)
  {
  }

  // ----- The two directions are inverse -----

  lemma EncodedShape(bytes: seq<byte>)
    requires |bytes| >= 1
    ensures |Encoded(bytes)| == TextLen(|bytes|)
    ensures forall c <- Encoded(bytes) :: Digit(c).Some?
  {
    DigitsInAlphabet(TextLen(|bytes|), FromBytes(bytes));
  }

  lemma DecodeOfEncode(bytes: seq<byte>)
    requires |bytes| >= 1
    ensures Decoded(|bytes|, Encoded(bytes)) == Ok(bytes)
  {
    EncodedShape(bytes);
    TopIsZero(bytes);
    ValueOfDigits(TextLen(|bytes|), FromBytes(bytes));
    FromBytesBound(bytes);
    BytesRoundTrip(bytes);
  }

  /** Each value has one spelling, and exactly the in-range texts over the alphabet decode. */
  lemma EncodeOfDecode(width: nat, text: string)
    requires width >= 1
    ensures Decoded(width, text).Ok? <==>
              |text| == TextLen(width) && (forall c <- text :: Digit(c).Some?)
              && Value(text) < Shl(1, 8 * width)
    ensures Decoded(width, text).Ok? ==>
              |Decoded(width, text).value| == width && Encoded(Decoded(width, text).value) == text
  {
    if Decoded(width, text).Ok? {
      ValueOfBytes(width, Value(text));
      DigitsOfValue(text);
    }
  }

  lemma EncodeInjective(a: seq<byte>, b: seq<byte>)
    requires |a| == |b| >= 1 && Encoded(a) == Encoded(b)
    ensures a == b
  {
    DecodeOfEncode(a);
    DecodeOfEncode(b);
  }

  /** Character `i` from the right is digit `i` of the little-endian value: (V / 32^i) mod 32. */
  lemma {:induction false} CharacterIsDigit(bytes: seq<byte>, i: nat)
    requires |bytes| >= 1 && i < TextLen(|bytes|)
    ensures Shl(1, BITS * i) > 0
    ensures var text := Encoded(bytes);
            text[|text| - 1 - i] == ALPHABET[FromBytes(bytes) / Shl(1, BITS * i) % 32]
  {
    ShrIsDivision(FromBytes(bytes), BITS * i);
    DigitAt(TextLen(|bytes|), FromBytes(bytes), i);
  }

  lemma {:induction false} DigitAt(len: nat, v: nat, i: nat)
    requires i < len
    ensures Digits(len, v)[len - 1 - i] == ALPHABET[Shr(v, BITS * i) % 32]
  {
    if i > 0 {
      FiveHalvings(v);
      ShrShr(v, BITS, BITS * (i - 1));
      DigitAt(len - 1, v / 32, i - 1);
    }
  }

  /**
   A 32-byte value leaves one bit for its leading character, so only `0` and `1` are accepted there.
   (The comment at base32.rs:156-157 allows sixteen characters; the code does not.)
   */
  lemma LeadingCharacter(text: string)
    requires |text| == 52 && forall c <- text :: Digit(c).Some?
    ensures Decoded(32, text).Ok? <==> text[0] == '0' || text[0] == '1'
  {
    assert forall c :: c in text[1..] ==> c in text;
    hide Value, Shl, Digit, DigitValue, ToBytes;
    var rest, d := text[1..], DigitValue(text[0]);
    assert text == [text[0]] + rest;
    ValueOfCons(text[0], rest);
    ValueBound(rest);
    TwiceTop(d);
    LowDigits(text[0]);
  }

  lemma TwiceTop(d: nat)
    ensures d >= 2 ==> Shl(d, 255) >= Shl(1, 256)
    ensures d <= 1 ==> Shl(d, 255) + Shl(1, 255) <= Shl(1, 256)
  {
    ShlAdd(1, 1, 255);
    assert Shl(1, 256) == 2 * Shl(1, 255);
    if d >= 2 {
      ShlMono(2, d, 255);
    } else {
      ShlMono(d, 1, 255);
    }
  }

  lemma LowDigits(c: char)
    requires Digit(c).Some?
    ensures DigitValue(c) <= 1 <==> c == '0' || c == '1'
  {
  }

  lemma {:induction false} ValueBound(text: string)
    ensures Value(text) < Shl(1, 5 * |text|)
  {
    if text != "" {
      ValueBound(text[..|text| - 1]);
      FiveBits(1, 5 * |text|);
    }
  }

  /** Twenty bytes fill thirty-two characters exactly: no spelling of a store path hash overflows. */
  lemma StoreHashNeverOverflows(text: string)
    requires |text| == 32
    ensures Decoded(20, text).Ok? <==> forall c <- text :: Digit(c).Some?
  {
    ValueBound(text);
  }
}
