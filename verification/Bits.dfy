/** Shifts and bitwise-or on unsigned numbers, written so that no proof multiplies two variables. */
module Bits {

  /** `x << k` on an unbounded number: k doublings. */
  function Shl(x: nat, k: nat): nat {
    if k == 0 then x else 2 * Shl(x, k - 1)
  }

  /** `x >> k`: k halvings. */
  function Shr(x: nat, k: nat): nat {
    if k == 0 then x else Shr(x / 2, k - 1)
  }

  /** `x | y`, bit by bit. */
  function BitOr(x: nat, y: nat): nat
    decreases x
  {
    if x == 0 then y
    else (if x % 2 == 1 || y % 2 == 1 then 1 else 0) + 2 * BitOr(x / 2, y / 2)
  }

  lemma {:induction false} ShlShl(x: nat, a: nat, b: nat)
    ensures Shl(Shl(x, a), b) == Shl(x, a + b)
  {
    if b > 0 {
      ShlShl(x, a, b - 1);
    }
  }

  lemma {:induction false} ShlAdd(x: nat, y: nat, k: nat)
    ensures Shl(x + y, k) == Shl(x, k) + Shl(y, k)
  {
    if k > 0 {
      ShlAdd(x, y, k - 1);
    }
  }

  lemma {:induction false} ShlMono(x: nat, y: nat, k: nat)
    requires x <= y
    ensures Shl(x, k) <= Shl(y, k)
  {
    if k > 0 {
      ShlMono(x, y, k - 1);
    }
  }

  lemma {:induction false} ShlZero(k: nat)
    ensures Shl(0, k) == 0
  {
    if k > 0 {
      ShlZero(k - 1);
    }
  }

  /** A halving undoes a doubling, so a shift right undoes the same shift left and drops what is below it. */
  lemma {:induction false} ShrOfSum(low: nat, x: nat, k: nat)
    requires low < Shl(1, k)
    ensures Shr(low + Shl(x, k), k) == x
  {
    if k > 0 {
      var half := low / 2;
      assert (low + Shl(x, k)) / 2 == half + Shl(x, k - 1);
      ShrOfSum(half, x, k - 1);
    }
  }

  lemma {:induction false} ShrShr(x: nat, a: nat, b: nat)
    ensures Shr(Shr(x, a), b) == Shr(x, a + b)
  {
    if a > 0 {
      ShrShr(x / 2, a - 1, b);
    }
  }

  /** Disjoint bits: or-ing a number below 2^k with a multiple of 2^k adds them. */
  lemma {:induction false} OrIsSum(x: nat, y: nat, k: nat)
    requires x < Shl(1, k)
    ensures BitOr(x, Shl(y, k)) == x + Shl(y, k)
  {
    if x > 0 {
      assert Shl(y, k) == 2 * Shl(y, k - 1);
      OrIsSum(x / 2, y, k - 1);
    }
  }

  lemma {:induction false} OrBound(x: nat, y: nat, k: nat)
    requires x < Shl(1, k) && y < Shl(1, k)
    ensures BitOr(x, y) < Shl(1, k)
  {
    if x > 0 {
      var half := Shl(1, k - 1);
      assert Shl(1, k) == 2 * half;
      OrBound(x / 2, y / 2, k - 1);
      hide Shl;
      assert BitOr(x / 2, y / 2) <= half - 1;
    }
  }

  lemma AtLeastOnce(p: nat, d: int)
    ensures d >= 1 ==> p * d >= p
    ensures d <= -1 ==> p * d <= 0 - p
  {
  }

  lemma QuotientUnique(p: nat, q: nat, r: nat, q': nat, r': nat)
    requires r < p && r' < p && p * q + r == p * q' + r'
    ensures q == q'
  {
    AtLeastOnce(p, q - q');
    assert p * (q - q') == p * q - p * q';
  }

  lemma HalfQuotient(x: nat, p: nat)
    requires p > 0
    ensures (x / 2) / p == x / (2 * p)
  {
    var half, bit := x / 2, x % 2;
    var q, r := half / p, half % p;
    DoubledFactor(p, q);
    Euclid(half, p);
    Euclid(x, 2 * p);
    QuotientUnique(2 * p, q, 2 * r + bit, x / (2 * p), x % (2 * p));
  }

  lemma DoubledFactor(p: nat, q: nat)
    ensures (2 * p) * q == 2 * (p * q)
  {
  }

  lemma Euclid(x: nat, n: nat)
    requires n > 0
    ensures x == n * (x / n) + x % n && x % n < n
  {
  }

  /** A right shift read as arithmetic: division by a power of two. */
  lemma {:induction false} ShrIsDivision(x: nat, k: nat)
    ensures Shl(1, k) > 0
    ensures Shr(x, k) == x / Shl(1, k)
  {
    if k > 0 {
      ShrIsDivision(x / 2, k - 1);
      HalfQuotient(x, Shl(1, k - 1));
    }
  }
}
