/** Which octets are text (section 3 of RFC 3629), and which characters are white space. */
module Unicodes {
  import opened Prelude
  import opened Text
  import opened Http

  /** A code point that is no surrogate. */
  type Scalar = n: nat | n < 0xD800 || 0xE000 <= n < 0x11_0000

  /** Its octets: as few as it takes, six bits in each but the first. */
  function Utf8Of(n: Scalar): (bytes: seq<byte>)
    ensures 1 <= |bytes| <= 4
  {
    if n < 0x80 then [n]
    else if n < 0x800 then [0xC0 + n / 64, 0x80 + n % 64]
    else if n < 0x1_0000 then [0xE0 + n / 4096, 0x80 + n / 64 % 64, 0x80 + n % 64]
    else [0xF0 + n / 262144, 0x80 + n / 4096 % 64, 0x80 + n / 64 % 64, 0x80 + n % 64]
  }

  function Utf8All(points: seq<Scalar>): seq<byte> {
    if points == [] then [] else Utf8Of(points[0]) + Utf8All(points[1..])
  }

  lemma CharOfPoint(n: Scalar, more: seq<byte>)
    ensures CharLen(Utf8Of(n) + more) == |Utf8Of(n)|
  {
    Sextets(n);
  }

  lemma Sextets(n: nat)
    ensures n / 4096 == n / 64 / 64 && n / 262144 == n / 4096 / 64
  {
  }

  lemma PointOfChar(bytes: seq<byte>) returns (n: Scalar)
    requires bytes != [] && CharLen(bytes) > 0
    ensures bytes[..CharLen(bytes)] == Utf8Of(n)
  {
    if CharLen(bytes) == 1 {
      n := bytes[0];
    } else if CharLen(bytes) == 2 {
      n := TwoOctets(bytes[0] - 0xC0, bytes[1] - 0x80);
    } else if CharLen(bytes) == 3 {
      n := ThreeOctets(bytes[0] - 0xE0, bytes[1] - 0x80, bytes[2] - 0x80);
    } else {
      n := FourOctets(bytes[0] - 0xF0, bytes[1] - 0x80, bytes[2] - 0x80, bytes[3] - 0x80);
    }
  }

  lemma TwoOctets(a: nat, b: nat) returns (n: nat)
    requires a < 32 && b < 64
    ensures n == a * 64 + b && n / 64 == a && n % 64 == b
  {
    n := a * 64 + b;
  }

  lemma ThreeOctets(a: nat, b: nat, c: nat) returns (n: nat)
    requires a < 16 && b < 64 && c < 64
    ensures n == a * 4096 + b * 64 + c
    ensures n / 4096 == a && n / 64 % 64 == b && n % 64 == c
  {
    n := a * 4096 + b * 64 + c;
    assert n / 64 == a * 64 + b;
  }

  lemma FourOctets(a: nat, b: nat, c: nat, d: nat) returns (n: nat)
    requires a < 8 && b < 64 && c < 64 && d < 64
    ensures n == a * 262144 + b * 4096 + c * 64 + d
    ensures n / 262144 == a && n / 4096 % 64 == b && n / 64 % 64 == c && n % 64 == d
  {
    n := a * 262144 + b * 4096 + c * 64 + d;
    assert n / 4096 == a * 64 + b;
    assert n / 64 == a * 4096 + b * 64 + c;
  }

  lemma {:induction false} PointsAreText(points: seq<Scalar>)
    ensures Utf8(Utf8All(points))
  {
    hide CharLen, Utf8Of;
    if points != [] {
      CharOfPoint(points[0], Utf8All(points[1..]));
      PointsAreText(points[1..]);
      assert Utf8All(points)[|Utf8Of(points[0])|..] == Utf8All(points[1..]);
    }
  }

  lemma {:induction false} TextHasPoints(bytes: seq<byte>) returns (points: seq<Scalar>)
    requires Utf8(bytes)
    ensures bytes == Utf8All(points)
    decreases |bytes|
  {
    hide CharLen, Utf8Of;
    if bytes == [] {
      points := [];
    } else {
      var n := PointOfChar(bytes);
      var rest := TextHasPoints(bytes[CharLen(bytes)..]);
      points := [n] + rest;
      assert points[0] == n && points[1..] == rest;
      assert bytes == bytes[..CharLen(bytes)] + bytes[CharLen(bytes)..];
    }
  }

  /** Octets are text exactly when they are the encoding of some code points, none of them a surrogate. */
  lemma Utf8Exactly(bytes: seq<byte>)
    ensures Utf8(bytes) <==> exists points: seq<Scalar> :: bytes == Utf8All(points)
  {
    hide Utf8, Utf8All;
    if Utf8(bytes) {
      var points := TextHasPoints(bytes);
    }
    forall points: seq<Scalar>
      ensures Utf8(Utf8All(points))
    {
      PointsAreText(points);
    }
  }

  /** The characters Unicode calls white space. */
  const WHITE_SPACE: set<Scalar> :=
    {0x9, 0xA, 0xB, 0xC, 0xD, 0x20, 0x85, 0xA0, 0x1680, 0x2000, 0x2001, 0x2002, 0x2003, 0x2004, 0x2005, 0x2006,
     0x2007, 0x2008, 0x2009, 0x200A, 0x2028, 0x2029, 0x202F, 0x205F, 0x3000}

  lemma SpaceOf(n: Scalar)
    requires n in WHITE_SPACE
    ensures IsSpace(AsText(Utf8Of(n)))
  {
  }

  lemma PointOfSpace(s: string) returns (n: Scalar)
    requires IsSpace(s)
    ensures n in WHITE_SPACE && s == AsText(Utf8Of(n))
  {
    if |s| == 1 {
      n := s[0] as nat;
    } else if |s| == 2 {
      n := s[1] as nat;
    } else {
      n := (s[0] as nat - 0xE0) * 4096 + (s[1] as nat - 0x80) * 64 + (s[2] as nat - 0x80);
    }
  }

  /** What is trimmed is the white space of Unicode. */
  lemma SpacesExactly(s: string)
    ensures IsSpace(s) <==> exists n: Scalar :: n in WHITE_SPACE && s == AsText(Utf8Of(n))
  {
    hide IsSpace, Utf8Of, AsText, WHITE_SPACE;
    if IsSpace(s) {
      var n := PointOfSpace(s);
      SpaceOf(n);
    }
    forall n: Scalar | n in WHITE_SPACE
      ensures IsSpace(AsText(Utf8Of(n)))
    {
      SpaceOf(n);
    }
  }
}
