/** Padded standard base64 (section 4 of RFC 4648), in groups of three bytes and four characters. */
module Base64 {
  import opened Prelude

  function Letter(n: nat): char
    requires n < 64
  {
    if n < 26 then 'A' + n as char
    else if n < 52 then 'a' + (n - 26) as char
    else if n < 62 then '0' + (n - 52) as char
    else if n == 62 then '+' else '/'
  }

  function Sextet(c: char): (n: Option<nat>)
    ensures n.Some? ==> n.value < 64 && Letter(n.value) == c
  {
    if 'A' <= c <= 'Z' then Some(c as nat - 'A' as nat)
    else if 'a' <= c <= 'z' then Some(c as nat - 'a' as nat + 26)
    else if '0' <= c <= '9' then Some(c as nat - '0' as nat + 52)
    else if c == '+' then Some(62)
    else if c == '/' then Some(63)
    else None
  }

  lemma SextetOfLetter(n: nat)
    requires n < 64
    ensures Sextet(Letter(n)) == Some(n)
  {
  }

  function One(x: byte): (group: string)
    ensures |group| == 4
  {
    [Letter(x / 4), Letter(x % 4 * 16), '=', '=']
  }

  function Two(x: byte, y: byte): (group: string)
    ensures |group| == 4
  {
    [Letter(x / 4), Letter(x % 4 * 16 + y / 16), Letter(y % 16 * 4), '=']
  }

  function Three(x: byte, y: byte, z: byte): (group: string)
    ensures |group| == 4
  {
    [Letter(x / 4), Letter(x % 4 * 16 + y / 16), Letter(y % 16 * 4 + z / 64), Letter(z % 64)]
  }

  function Encode(bytes: seq<byte>): string {
    if bytes == [] then ""
    else if |bytes| == 1 then One(bytes[0])
    else if |bytes| == 2 then Two(bytes[0], bytes[1])
    else Three(bytes[0], bytes[1], bytes[2]) + Encode(bytes[3..])
  }

  /** One group of four. Padding stands for missing bytes, and the bits it leaves over must be zero. */
  function DecodeGroup(group: string): Option<seq<byte>>
    requires |group| == 4
  {
    match (Sextet(group[0]), Sextet(group[1]), Sextet(group[2]), Sextet(group[3]))
    case (Some(a), Some(b), Some(c), Some(d)) => Some([a * 4 + b / 16, b % 16 * 16 + c / 4, c % 4 * 64 + d])
    case (Some(a), Some(b), Some(c), None) =>
      if group[3] == '=' && c % 4 == 0 then Some([a * 4 + b / 16, b % 16 * 16 + c / 4]) else None
    case (Some(a), Some(b), None, None) =>
      if group[2] == '=' && group[3] == '=' && b % 16 == 0 then Some([a * 4 + b / 16]) else None
    case _ => None
  }

  /** The decoder takes padded groups anywhere, so concatenated encodings decode too. */
  function Decode(text: string): Option<seq<byte>> {
    if text == "" then Some([])
    else if |text| < 4 then None
    else match (DecodeGroup(text[..4]), Decode(text[4..]))
      case (Some(group), Some(rest)) => Some(group + rest)
      case _ => None
  }

  /** A group decodes exactly as the octets it is the encoding of: nothing but zero bits is left over. */
  lemma GroupExactly(group: string, bytes: seq<byte>)
    requires |group| == 4
    ensures DecodeGroup(group) == Some(bytes) <==> 1 <= |bytes| <= 3 && group == Encode(bytes)
  {
    if 1 <= |bytes| <= 3 && group == Encode(bytes) {
      EncodedGroup(bytes);
    } else if DecodeGroup(group) == Some(bytes) {
      DecodedGroup(group);
    }
  }

  lemma EncodedGroup(bytes: seq<byte>)
    requires 1 <= |bytes| <= 3
    ensures |Encode(bytes)| == 4 && DecodeGroup(Encode(bytes)) == Some(bytes)
  {
    hide DecodeGroup, One, Two, Three;
    if |bytes| == 1 {
      GroupOfOne(bytes[0]);
      assert [bytes[0]] == bytes;
    } else if |bytes| == 2 {
      GroupOfTwo(bytes[0], bytes[1]);
      assert [bytes[0], bytes[1]] == bytes;
    } else {
      GroupOfThree(bytes[0], bytes[1], bytes[2]);
      EncodedThree(bytes);
      assert [bytes[0], bytes[1], bytes[2]] == bytes;
    }
  }

  lemma EncodedThree(bytes: seq<byte>)
    requires |bytes| == 3
    ensures Encode(bytes) == Three(bytes[0], bytes[1], bytes[2])
  {
    hide Three;
    assert bytes[3..] == [];
    assert Encode([]) == "";
  }

  lemma DecodedGroup(group: string)
    requires |group| == 4 && DecodeGroup(group).Some?
    ensures 1 <= |DecodeGroup(group).value| <= 3 && group == Encode(DecodeGroup(group).value)
  {
    hide Sextet, Letter, One, Two, Three;
    var bytes := DecodeGroup(group).value;
    var a, b := Sextet(group[0]).value, Sextet(group[1]).value;
    if Sextet(group[2]).None? {
      OneOf(a, b);
    } else if Sextet(group[3]).None? {
      TwoOf(a, b, Sextet(group[2]).value);
    } else {
      ThreeOf(a, b, Sextet(group[2]).value, Sextet(group[3]).value);
      EncodedThree(bytes);
    }
  }

  lemma OneOf(a: nat, b: nat)
    requires a < 64 && b < 64 && b % 16 == 0
    ensures One(a * 4 + b / 16) == [Letter(a), Letter(b), '=', '=']
  {
    hide Letter;
    Ungroup(a, b);
  }

  lemma TwoOf(a: nat, b: nat, c: nat)
    requires a < 64 && b < 64 && c < 64 && c % 4 == 0
    ensures Two(a * 4 + b / 16, b % 16 * 16 + c / 4) == [Letter(a), Letter(b), Letter(c), '=']
  {
    hide Letter;
    Ungroup(a, b);
    Middle(b, c);
  }

  lemma ThreeOf(a: nat, b: nat, c: nat, d: nat)
    requires a < 64 && b < 64 && c < 64 && d < 64
    ensures Three(a * 4 + b / 16, b % 16 * 16 + c / 4, c % 4 * 64 + d) == [Letter(a), Letter(b), Letter(c), Letter(d)]
  {
    hide Letter;
    Ungroup(a, b);
    Middle(b, c);
    Last(c, d);
  }

  lemma Ungroup(a: nat, b: nat)
    requires a < 64 && b < 64
    ensures (a * 4 + b / 16) / 4 == a && (a * 4 + b / 16) % 4 == b / 16
    ensures b / 16 * 16 + b % 16 == b && a * 4 + b / 16 < 256
  {
  }

  lemma Middle(b: nat, c: nat)
    requires b < 64 && c < 64
    ensures (b % 16 * 16 + c / 4) / 16 == b % 16 && (b % 16 * 16 + c / 4) % 16 == c / 4
    ensures c / 4 * 4 + c % 4 == c && b % 16 * 16 + c / 4 < 256
  {
  }

  lemma Last(c: nat, d: nat)
    requires c < 64 && d < 64
    ensures (c % 4 * 64 + d) / 64 == c % 4 && (c % 4 * 64 + d) % 64 == d && c % 4 * 64 + d < 256
  {
  }

  function EncodeAll(groups: seq<seq<byte>>): string
    decreases |groups|
  {
    if groups == [] then "" else Encode(groups[0]) + EncodeAll(groups[1..])
  }

  function Flatten(groups: seq<seq<byte>>): seq<byte>
    decreases |groups|
  {
    if groups == [] then [] else groups[0] + Flatten(groups[1..])
  }

  ghost predicate Groups(groups: seq<seq<byte>>) {
    forall group <- groups :: 1 <= |group| <= 3
  }

  lemma {:induction false} GroupsDecode(groups: seq<seq<byte>>)
    requires Groups(groups)
    ensures Decode(EncodeAll(groups)) == Some(Flatten(groups))
    decreases |groups|
  {
    hide DecodeGroup, Encode;
    if groups != [] {
      assert groups[0] in groups;
      EncodedGroup(groups[0]);
      GroupsDecode(groups[1..]);
      DecodeCons(Encode(groups[0]), EncodeAll(groups[1..]), groups[0], Flatten(groups[1..]));
    }
  }

  lemma {:induction false} DecodedGroups(text: string) returns (groups: seq<seq<byte>>)
    requires Decode(text).Some?
    ensures Groups(groups) && text == EncodeAll(groups) && Decode(text).value == Flatten(groups)
    decreases |text|
  {
    hide DecodeGroup, Encode;
    if text == "" {
      groups := [];
    } else {
      var rest := DecodedGroups(text[4..]);
      DecodedGroup(text[..4]);
      groups := [DecodeGroup(text[..4]).value] + rest;
      assert groups[0] == DecodeGroup(text[..4]).value && groups[1..] == rest;
      assert text == text[..4] + text[4..];
    }
  }

  /** What decodes: encodings of up to three octets each, one after another, and to what they encode. */
  lemma DecodeExactly(text: string, bytes: seq<byte>)
    ensures Decode(text) == Some(bytes)
        <==> exists groups: seq<seq<byte>> :: Groups(groups) && text == EncodeAll(groups) && bytes == Flatten(groups)
  {
    hide Decode, EncodeAll, Flatten;
    if Decode(text) == Some(bytes) {
      var groups := DecodedGroups(text);
    }
    forall groups: seq<seq<byte>> | Groups(groups)
      ensures Decode(EncodeAll(groups)) == Some(Flatten(groups))
    {
      GroupsDecode(groups);
    }
  }

  lemma DecodeCons(group: string, rest: string, head: seq<byte>, tail: seq<byte>)
    requires |group| == 4 && DecodeGroup(group) == Some(head) && Decode(rest) == Some(tail)
    ensures Decode(group + rest) == Some(head + tail)
  {
    assert (group + rest)[..4] == group && (group + rest)[4..] == rest;
  }

  lemma {:induction false} DecodeOfEncode(bytes: seq<byte>)
    ensures Decode(Encode(bytes)) == Some(bytes)
  {
    hide DecodeGroup, One, Two, Three;
    if bytes == [] {
    } else if |bytes| == 1 {
      GroupOfOne(bytes[0]);
      DecodeCons(One(bytes[0]), "", [bytes[0]], []);
      assert One(bytes[0]) + "" == Encode(bytes) && [bytes[0]] + [] == bytes;
    } else if |bytes| == 2 {
      GroupOfTwo(bytes[0], bytes[1]);
      DecodeCons(Two(bytes[0], bytes[1]), "", [bytes[0], bytes[1]], []);
      assert Two(bytes[0], bytes[1]) + "" == Encode(bytes) && [bytes[0], bytes[1]] + [] == bytes;
    } else {
      var head := [bytes[0], bytes[1], bytes[2]];
      GroupOfThree(bytes[0], bytes[1], bytes[2]);
      DecodeOfEncode(bytes[3..]);
      DecodeCons(Three(bytes[0], bytes[1], bytes[2]), Encode(bytes[3..]), head, bytes[3..]);
      assert bytes == head + bytes[3..];
    }
  }

  lemma GroupOfOne(x: byte)
    ensures DecodeGroup(One(x)) == Some([x])
  {
    SextetOfLetter(x / 4);
    SextetOfLetter(x % 4 * 16);
  }

  lemma GroupOfTwo(x: byte, y: byte)
    ensures DecodeGroup(Two(x, y)) == Some([x, y])
  {
    SextetOfLetter(x / 4);
    SextetOfLetter(x % 4 * 16 + y / 16);
    SextetOfLetter(y % 16 * 4);
    Regroup(x, y);
  }

  lemma GroupOfThree(x: byte, y: byte, z: byte)
    ensures DecodeGroup(Three(x, y, z)) == Some([x, y, z])
  {
    var a, b, c, d := x / 4, x % 4 * 16 + y / 16, y % 16 * 4 + z / 64, z % 64;
    SextetOfLetter(a);
    SextetOfLetter(b);
    SextetOfLetter(c);
    SextetOfLetter(d);
    Regroup(x, y);
    assert c / 4 == y % 16 && c % 4 == z / 64;
  }

  lemma Regroup(x: byte, y: byte)
    ensures var b := x % 4 * 16 + y / 16;
            b < 64 && b / 16 == x % 4 && b % 16 == y / 16
    ensures x / 4 * 4 + x % 4 == x && y / 16 * 16 + y % 16 == y
  {
  }

  lemma {:induction false} EncodedLength(bytes: seq<byte>)
    ensures |Encode(bytes)| == (|bytes| + 2) / 3 * 4
  {
    hide One, Two, Three;
    if |bytes| > 2 {
      EncodedLength(bytes[3..]);
      ThirdMore(|bytes[3..]| + 2);
    }
  }

  lemma ThirdMore(n: nat)
    ensures (n + 3) / 3 == n / 3 + 1
  {
  }

  predicate IsCharacter(c: char) {
    c == '=' || Sextet(c).Some?
  }

  lemma {:induction false} DecodedCharacters(text: string)
    requires Decode(text).Some?
    ensures forall i :: 0 <= i < |text| ==> IsCharacter(text[i])
    decreases |text|
  {
    if text != "" {
      DecodedCharacters(text[4..]);
      GroupIsCharacters(text[..4]);
      hide IsCharacter;
      forall i | 0 <= i < |text|
        ensures IsCharacter(text[i])
      {
        if i < 4 {
          assert text[i] == text[..4][i];
        } else {
          assert text[i] == text[4..][i - 4];
        }
      }
    }
  }

  lemma GroupIsCharacters(group: string)
    requires |group| == 4 && DecodeGroup(group).Some?
    ensures forall i :: 0 <= i < 4 ==> IsCharacter(group[i])
  {
    hide Sextet;
  }

  lemma {:induction false} EncodeCharacters(bytes: seq<byte>)
    ensures forall c <- Encode(bytes) :: IsCharacter(c)
  {
    if |bytes| > 2 {
      EncodeCharacters(bytes[3..]);
      GroupCharacters(bytes[0], bytes[1], bytes[2]);
    } else if |bytes| > 0 {
      GroupCharacters(bytes[0], if |bytes| == 2 then bytes[1] else 0, 0);
    }
  }

  lemma GroupCharacters(x: byte, y: byte, z: byte)
    ensures forall c <- One(x) + Two(x, y) + Three(x, y, z) :: IsCharacter(c)
  {
    SextetOfLetter(x / 4);
    SextetOfLetter(x % 4 * 16);
    SextetOfLetter(x % 4 * 16 + y / 16);
    SextetOfLetter(y % 16 * 4);
    SextetOfLetter(y % 16 * 4 + z / 64);
    SextetOfLetter(z % 64);
  }
}

/** Lowercase hexadecimal, read permissively: either case decodes. */
module Hex {
  import opened Prelude
  import opened Text

  function Nibble(c: char): (n: Option<nat>)
    ensures n.Some? ==> n.value < 16
  {
    if '0' <= c <= '9' then Some(c as nat - '0' as nat)
    else if 'a' <= c <= 'f' then Some(c as nat - 'a' as nat + 10)
    else if 'A' <= c <= 'F' then Some(c as nat - 'A' as nat + 10)
    else None
  }

  function Decode(text: string): (r: Option<seq<byte>>)
    ensures r.Some? ==> 2 * |r.value| == |text|
  {
    if text == "" then Some([])
    else if |text| < 2 then None
    else match (Nibble(text[0]), Nibble(text[1]), Decode(text[2..]))
      case (Some(high), Some(low), Some(rest)) => Some([16 * high + low] + rest)
      case _ => None
  }

  function NibbleText(n: nat): char
    requires n < 16
  {
    if n < 10 then '0' + n as char else 'a' + (n - 10) as char
  }

  function Encode(bytes: seq<byte>): (text: string)
    ensures |text| == 2 * |bytes|
  {
    if bytes == [] then "" else [NibbleText(bytes[0] / 16), NibbleText(bytes[0] % 16)] + Encode(bytes[1..])
  }

  /** What decodes: the encoding, in either case. */
  lemma {:induction false} DecodeExactly(text: string, bytes: seq<byte>)
    ensures Decode(text) == Some(bytes) <==> SameIgnoringCase(text, Encode(bytes))
    decreases |text|
  {
    if |text| < 2 || bytes == [] {
    } else {
      DecodeExactly(text[2..], bytes[1..]);
      assert bytes == [bytes[0]] + bytes[1..];
      var code := Encode(bytes);
      assert code[2..] == Encode(bytes[1..]);
      NibbleExactly(text[0], bytes[0] / 16);
      NibbleExactly(text[1], bytes[0] % 16);
      hide Nibble, NibbleText, Lower;
      CaseOfRest(text, code);
      if Decode(text) == Some(bytes) {
        BytePair(Nibble(text[0]).value, Nibble(text[1]).value);
      }
    }
  }

  lemma {:induction false} DecodedNibbles(text: string)
    requires Decode(text).Some?
    ensures forall i :: 0 <= i < |text| ==> Nibble(text[i]).Some?
    decreases |text|
  {
    hide Nibble;
    if text != "" {
      DecodedNibbles(text[2..]);
      forall i | 0 <= i < |text|
        ensures Nibble(text[i]).Some?
      {
        if i >= 2 {
          assert text[i] == text[2..][i - 2];
        }
      }
    }
  }

  lemma NibbleExactly(c: char, n: nat)
    requires n < 16
    ensures Nibble(c) == Some(n) <==> Lower(c) == Lower(NibbleText(n))
  {
  }

  lemma BytePair(high: nat, low: nat)
    requires high < 16 && low < 16
    ensures (16 * high + low) / 16 == high && (16 * high + low) % 16 == low
  {
  }

  lemma CaseOfRest(a: string, b: string)
    requires |a| >= 2 && |b| >= 2
    ensures SameIgnoringCase(a, b)
        <==> Lower(a[0]) == Lower(b[0]) && Lower(a[1]) == Lower(b[1]) && SameIgnoringCase(a[2..], b[2..])
  {
    hide Lower;
    if |a| == |b| && Lower(a[0]) == Lower(b[0]) && Lower(a[1]) == Lower(b[1]) && SameIgnoringCase(a[2..], b[2..]) {
      forall i | 0 <= i < |a|
        ensures Lower(a[i]) == Lower(b[i])
      {
        if i >= 2 {
          assert a[2..][i - 2] == a[i] && b[2..][i - 2] == b[i];
        }
      }
    }
  }

  lemma {:induction false} DecodeOfEncode(bytes: seq<byte>)
    ensures Decode(Encode(bytes)) == Some(bytes)
    ensures forall c <- Encode(bytes) :: Nibble(c).Some?
  {
    if bytes != [] {
      DecodeOfEncode(bytes[1..]);
      assert Encode(bytes)[2..] == Encode(bytes[1..]);
      assert bytes == [bytes[0]] + bytes[1..];
    }
  }
}
