/** The byte-wise order on strings, sorting by it, and what sorting cannot change. */
module Order {

  predicate Le(a: string, b: string) {
    a == "" || (b != "" && (a[0] < b[0] || (a[0] == b[0] && Le(a[1..], b[1..]))))
  }

  /** The order of strings by their octets: at the first place where they differ, or at the end of one. */
  ghost predicate Precedes(a: string, b: string) {
    a <= b || exists i: nat :: i < |a| && i < |b| && a[..i] == b[..i] && a[i] < b[i]
  }

  lemma {:induction false} LeExactly(a: string, b: string)
    ensures Le(a, b) <==> Precedes(a, b)
  {
    if a != "" && b != "" && a[0] == b[0] {
      LeExactly(a[1..], b[1..]);
      TailsPrecede(a, b);
    } else if a != "" && b != "" {
      assert a[..0] == b[..0];
      forall i: nat | i < |a| && i < |b| && a[..i] == b[..i]
        ensures i == 0
      {
        if i > 0 {
          FirstOf(a, i);
          FirstOf(b, i);
        }
      }
    }
  }

  lemma FirstOf(a: string, i: nat)
    requires 0 < i <= |a|
    ensures a[..i][0] == a[0]
  {
  }

  lemma TailsPrecede(a: string, b: string)
    requires a != "" && b != "" && a[0] == b[0]
    ensures Precedes(a, b) <==> Precedes(a[1..], b[1..])
  {
    assert a == [a[0]] + a[1..] && b == [b[0]] + b[1..];
    if i: nat :| i < |a| && i < |b| && a[..i] == b[..i] && a[i] < b[i] {
      assert a[..i][1..] == a[1..][..i - 1] && b[..i][1..] == b[1..][..i - 1];
      assert a[1..][i - 1] == a[i] && b[1..][i - 1] == b[i];
    }
    if i: nat :| i < |a[1..]| && i < |b[1..]| && a[1..][..i] == b[1..][..i] && a[1..][i] < b[1..][i] {
      assert a[..i + 1] == [a[0]] + a[1..][..i] && b[..i + 1] == [b[0]] + b[1..][..i];
      assert a[i + 1] == a[1..][i] && b[i + 1] == b[1..][i];
    }
  }

  /** Each string precedes those after it. */
  ghost predicate Ascends(s: seq<string>) {
    forall i, j :: 0 <= i < j < |s| ==> Precedes(s[i], s[j])
  }

  lemma SortedAscends(s: seq<string>)
    ensures Sorted(s) <==> Ascends(s)
  {
    hide Le, Precedes;
    forall i, j | 0 <= i < j < |s|
      ensures Le(s[i], s[j]) <==> Precedes(s[i], s[j])
    {
      LeExactly(s[i], s[j]);
    }
  }

  function Insert(x: string, sorted: seq<string>): seq<string> {
    if sorted == [] then [x]
    else if Le(x, sorted[0]) then [x] + sorted
    else [sorted[0]] + Insert(x, sorted[1..])
  }

  function Sort(s: seq<string>): seq<string> {
    if s == [] then [] else Insert(s[0], Sort(s[1..]))
  }

  ghost predicate Sorted(s: seq<string>) {
    forall i, j :: 0 <= i < j < |s| ==> Le(s[i], s[j])
  }

  lemma {:induction false} LeReflexive(a: string)
    ensures Le(a, a)
  {
    if a != "" {
      LeReflexive(a[1..]);
    }
  }

  lemma {:induction false} LeTotal(a: string, b: string)
    ensures Le(a, b) || Le(b, a)
  {
    if a != "" && b != "" {
      LeTotal(a[1..], b[1..]);
    }
  }

  lemma {:induction false} LeAntisymmetric(a: string, b: string)
    requires Le(a, b) && Le(b, a)
    ensures a == b
  {
    if a != "" && b != "" {
      LeAntisymmetric(a[1..], b[1..]);
    }
  }

  lemma {:induction false} LeTransitive(a: string, b: string, c: string)
    requires Le(a, b) && Le(b, c)
    ensures Le(a, c)
  {
    if a != "" && b != "" && c != "" && a[0] == b[0] == c[0] {
      LeTransitive(a[1..], b[1..], c[1..]);
    }
  }

  lemma {:induction false} LeUnderPrefix(prefix: string, a: string, b: string)
    ensures Le(prefix + a, prefix + b) <==> Le(a, b)
  {
    if prefix == "" {
      assert prefix + a == a && prefix + b == b;
    } else {
      assert (prefix + a)[1..] == prefix[1..] + a && (prefix + b)[1..] == prefix[1..] + b;
      LeUnderPrefix(prefix[1..], a, b);
    }
  }

  lemma {:induction false} InsertSorts(x: string, s: seq<string>)
    requires Sorted(s)
    ensures Sorted(Insert(x, s)) && multiset(Insert(x, s)) == multiset{x} + multiset(s)
  {
    if s == [] {
    } else if Le(x, s[0]) {
      forall j | 0 <= j < |s|
        ensures Le(x, s[j])
      {
        if j > 0 {
          LeTransitive(x, s[0], s[j]);
        }
      }
    } else {
      LeTotal(x, s[0]);
      InsertSorts(x, s[1..]);
      var rest := Insert(x, s[1..]);
      assert s == [s[0]] + s[1..];
      forall y | y in rest
        ensures Le(s[0], y)
      {
        assert y in multiset(rest);
        if y != x {
          assert y in s[1..];
        }
      }
    }
  }

  lemma {:induction false} SortSorts(s: seq<string>)
    ensures Sorted(Sort(s)) && multiset(Sort(s)) == multiset(s)
  {
    if s != [] {
      SortSorts(s[1..]);
      InsertSorts(s[0], Sort(s[1..]));
      assert s == [s[0]] + s[1..];
    }
  }

  /** A sorted list is determined by its elements, so any sorting routine computes `Sort`. */
  lemma {:induction false} SortedUnique(a: seq<string>, b: seq<string>)
    requires Sorted(a) && Sorted(b) && multiset(a) == multiset(b)
    ensures a == b
  {
    if a == [] || b == [] {
      assert |multiset(a)| == |a| && |multiset(b)| == |b|;
    } else {
      HeadIsLeast(a, b);
      HeadIsLeast(b, a);
      LeAntisymmetric(a[0], b[0]);
      TailMultiset(a);
      TailMultiset(b);
      SortedUnique(a[1..], b[1..]);
    }
  }

  lemma HeadIsLeast(a: seq<string>, b: seq<string>)
    requires Sorted(a) && multiset(a) == multiset(b) && a != [] && b != []
    ensures Le(a[0], b[0])
  {
    assert b[0] in multiset(a);
    LeReflexive(a[0]);
  }

  lemma TailMultiset(a: seq<string>)
    requires a != []
    ensures multiset(a[1..]) == multiset(a) - multiset{a[0]}
  {
    assert a == [a[0]] + a[1..];
  }

  function PrefixAll(prefix: string, s: seq<string>): (r: seq<string>)
    ensures |r| == |s| && forall i :: 0 <= i < |s| ==> r[i] == prefix + s[i]
  {
    seq(|s|, i requires 0 <= i < |s| => prefix + s[i])
  }

  lemma {:induction false} InsertUnderPrefix(prefix: string, x: string, s: seq<string>)
    ensures Insert(prefix + x, PrefixAll(prefix, s)) == PrefixAll(prefix, Insert(x, s))
  {
    if s != [] {
      LeUnderPrefix(prefix, x, s[0]);
      InsertUnderPrefix(prefix, x, s[1..]);
      assert PrefixAll(prefix, s)[1..] == PrefixAll(prefix, s[1..]);
    }
  }

  /** A common prefix does not change the order: sorting full paths is sorting base names. */
  lemma {:induction false} SortUnderPrefix(prefix: string, s: seq<string>)
    ensures Sort(PrefixAll(prefix, s)) == PrefixAll(prefix, Sort(s))
  {
    if s != [] {
      SortUnderPrefix(prefix, s[1..]);
      InsertUnderPrefix(prefix, s[0], Sort(s[1..]));
      assert PrefixAll(prefix, s)[1..] == PrefixAll(prefix, s[1..]);
    }
  }
}
