/** The string a signature covers, and why it identifies what it covers. */
module Fingerprints {
  import opened Prelude
  import opened Text
  import Cryptos
  import Digests
  import Order
  import StorePaths
  import opened NarInfos

  function PrintAll(dir: StorePaths.Dir, paths: seq<StorePaths.Path>): (r: seq<string>)
    ensures |r| == |paths|
  {
    seq(|paths|, i requires 0 <= i < |paths| => StorePaths.Print(dir, paths[i]))
  }

  /** References as full paths, ordered by base name. */
  function ReferenceText(dir: StorePaths.Dir, paths: seq<StorePaths.Path>): string {
    Join(Order.PrefixAll(dir + "/", Order.Sort(ShowAll(paths))), ",")
  }

  function Fingerprint(record: NarInfo, dir: StorePaths.Dir): string {
    "1;" + StorePaths.Print(dir, record.storePath) + ";" + Digests.Show(record.narHash) + ";"
    + Decimal(record.narSize) + ";" + ReferenceText(dir, record.references)
  }

  /** The printed paths stand between the commas in ascending order, each as often as it is referred to. */
  ghost predicate ListsAscending(text: string, head: string, paths: seq<string>) {
    exists sorted: seq<string> ::
      multiset(sorted) == multiset(paths) && Order.Ascends(sorted) && text == head + Join(sorted, ",")
  }

  /** What a signature covers before it comes to the references. */
  function Identity(record: NarInfo, dir: StorePaths.Dir): string {
    "1;" + StorePaths.Print(dir, record.storePath) + ";" + Digests.Show(record.narHash) + ";"
    + Decimal(record.narSize) + ";"
  }

  lemma FingerprintAscends(record: NarInfo, dir: StorePaths.Dir)
    ensures ListsAscending(Fingerprint(record, dir), Identity(record, dir), PrintAll(dir, record.references))
  {
    hide Order.Sort, Order.Sorted, Order.Ascends, StorePaths.Print, Digests.Show, Decimal, Join;
    var printed := PrintAll(dir, record.references);
    PrintIsPrefix(dir, record.references);
    Order.SortUnderPrefix(dir + "/", ShowAll(record.references));
    Order.SortSorts(printed);
    Order.SortedAscends(Order.Sort(printed));
    assert Fingerprint(record, dir) == Identity(record, dir) + Join(Order.Sort(printed), ",");
  }

  /** Builds the text by sorting the printed paths, which orders them by base name all the same. */
  method ComputeFingerprint(record: NarInfo, dir: StorePaths.Dir) returns (text: string)
    ensures text == Fingerprint(record, dir)
    ensures ListsAscending(text, Identity(record, dir), PrintAll(dir, record.references))
  {
    FingerprintAscends(record, dir);
    hide Order.Sort, StorePaths.Print, Digests.Show, Decimal, Join, ListsAscending;
    var sorted := Order.Sort(PrintAll(dir, record.references));
    text := "1;" + StorePaths.Print(dir, record.storePath) + ";";
    text := text + Digests.Show(record.narHash) + ";" + Decimal(record.narSize) + ";";
    text := text + Join(sorted, ",");
    PrintIsPrefix(dir, record.references);
    Order.SortUnderPrefix(dir + "/", ShowAll(record.references));
  }

  /** There is one such text, whatever routine sorts. */
  lemma AscendingOnce(a: string, b: string, head: string, paths: seq<string>)
    requires ListsAscending(a, head, paths) && ListsAscending(b, head, paths)
    ensures a == b
  {
    hide Order.Ascends, Order.Sorted, Join;
    var x: seq<string> :| multiset(x) == multiset(paths) && Order.Ascends(x) && a == head + Join(x, ",");
    var y: seq<string> :| multiset(y) == multiset(paths) && Order.Ascends(y) && b == head + Join(y, ",");
    Order.SortedAscends(x);
    Order.SortedAscends(y);
    Order.SortedUnique(x, y);
  }

  lemma PrintIsPrefix(dir: StorePaths.Dir, paths: seq<StorePaths.Path>)
    ensures PrintAll(dir, paths) == Order.PrefixAll(dir + "/", ShowAll(paths))
  {
  }

  /** The record with a single signature, over its own fingerprint. */
  function Resigned(c: Cryptos.Crypto, record: NarInfo, dir: StorePaths.Dir, key: Cryptos.SecretKey): NarInfo {
    record.(sigs := [Cryptos.Sign(c, key, Fingerprint(record, dir))])
  }

  /** A client holding the public half accepts the record. */
  predicate SignedBy(c: Cryptos.Crypto, record: NarInfo, dir: StorePaths.Dir, key: Cryptos.SecretKey) {
    |record.sigs| == 1
    && Cryptos.Verifies(c, Cryptos.Public(c, key), Fingerprint(record, dir), record.sigs[0])
  }

  lemma ResignedVerifies(c: Cryptos.Crypto, record: NarInfo, dir: StorePaths.Dir, key: Cryptos.SecretKey)
    requires Cryptos.LawfulSigner(c)
    ensures SignedBy(c, Resigned(c, record, dir, key), dir, key)
    ensures Fingerprint(Resigned(c, record, dir, key), dir) == Fingerprint(record, dir)
  {
  }

  // ----- Injectivity -----

  /** What two records with one fingerprint agree on. */
  ghost predicate SameIdentity(a: NarInfo, b: NarInfo) {
    && a.storePath == b.storePath
    && a.narHash == b.narHash
    && a.narSize == b.narSize
    && multiset(a.references) == multiset(b.references)
  }

  lemma CutAt(a: string, x: string, b: string, y: string, sep: char)
    requires sep !in a && sep !in b && a + [sep] + x == b + [sep] + y
    ensures a == b && x == y
  {
    SplitOnceAt(a, [sep], x);
    SplitOnceAt(b, [sep], y);
  }

  lemma {:induction false} PrefixedJoinInjective(prefix: string, a: seq<string>, b: seq<string>, sep: char)
    requires prefix != ""
    requires forall part <- a :: sep !in part
    requires forall part <- b :: sep !in part
    requires Join(Order.PrefixAll(prefix, a), [sep]) == Join(Order.PrefixAll(prefix, b), [sep])
    ensures a == b
  {
    PrefixedHead(prefix, a, sep);
    PrefixedHead(prefix, b, sep);
    if a != [] && b != [] {
      var text := Join(Order.PrefixAll(prefix, a), [sep])[|prefix|..];
      if |a| == 1 || |b| == 1 {
        assert |a| > 1 ==> sep in text;
        assert |b| > 1 ==> sep in text;
        assert a[0] == b[0] && |a| == |b|;
      } else {
        CutAt(a[0], Join(Order.PrefixAll(prefix, a[1..]), [sep]),
              b[0], Join(Order.PrefixAll(prefix, b[1..]), [sep]), sep);
        PrefixedJoinInjective(prefix, a[1..], b[1..], sep);
      }
      assert a == [a[0]] + a[1..] && b == [b[0]] + b[1..];
    }
  }

  lemma PrefixedHead(prefix: string, a: seq<string>, sep: char)
    requires prefix != ""
    ensures var text := Join(Order.PrefixAll(prefix, a), [sep]);
            && (a == [] <==> text == "")
            && (a != [] ==> prefix <= text)
            && (|a| == 1 ==> text[|prefix|..] == a[0])
            && (|a| > 1 ==> text[|prefix|..] == a[0] + [sep] + Join(Order.PrefixAll(prefix, a[1..]), [sep]))
  {
    var all := Order.PrefixAll(prefix, a);
    if |a| > 1 {
      assert all[1..] == Order.PrefixAll(prefix, a[1..]);
      var rest := Join(all[1..], [sep]);
      assert Join(all, [sep]) == prefix + (a[0] + [sep] + rest);
    }
  }

  lemma CountCons<T>(head: T, tail: seq<T>, x: T)
    ensures multiset([head] + tail)[x] == (if head == x then 1 else 0) + multiset(tail)[x]
  {
  }

  lemma {:induction false} CountMatched<S, T>(a: seq<S>, b: seq<T>, x: S, y: T)
    requires |a| == |b| && forall i :: 0 <= i < |a| ==> (a[i] == x <==> b[i] == y)
    ensures multiset(a)[x] == multiset(b)[y]
  {
    if a != [] {
      CountMatched(a[1..], b[1..], x, y);
      CountCons(a[0], a[1..], x);
      CountCons(b[0], b[1..], y);
      assert a == [a[0]] + a[1..] && b == [b[0]] + b[1..];
    }
  }

  lemma CountShow(paths: seq<StorePaths.Path>, path: StorePaths.Path)
    ensures multiset(ShowAll(paths))[StorePaths.Show(path)] == multiset(paths)[path]
  {
    forall i | 0 <= i < |paths| && StorePaths.Show(paths[i]) == StorePaths.Show(path)
      ensures paths[i] == path
    {
      StorePaths.ShowInjective(paths[i], path);
    }
    CountMatched(ShowAll(paths), paths, StorePaths.Show(path), path);
  }

  lemma ShowMultiset(a: seq<StorePaths.Path>, b: seq<StorePaths.Path>)
    requires multiset(a) == multiset(b)
    ensures multiset(ShowAll(a)) == multiset(ShowAll(b))
  {
    forall text: string
      ensures multiset(ShowAll(a))[text] == multiset(ShowAll(b))[text]
    {
      if path: StorePaths.Path :| text == StorePaths.Show(path) && path in a + b {
        CountShow(a, path);
        CountShow(b, path);
      }
    }
  }

  lemma ReferencesFromText(dir: StorePaths.Dir, a: seq<StorePaths.Path>, b: seq<StorePaths.Path>)
    ensures ReferenceText(dir, a) == ReferenceText(dir, b) <==> multiset(a) == multiset(b)
  {
    var sa, sb := ShowAll(a), ShowAll(b);
    Order.SortSorts(sa);
    Order.SortSorts(sb);
    if multiset(a) == multiset(b) {
      ShowMultiset(a, b);
      Order.SortedUnique(Order.Sort(sa), Order.Sort(sb));
    } else if ReferenceText(dir, a) == ReferenceText(dir, b) {
      NoCommas(a);
      NoCommas(b);
      PrefixedJoinInjective(dir + "/", Order.Sort(sa), Order.Sort(sb), ',');
      forall path: StorePaths.Path
        ensures multiset(a)[path] == multiset(b)[path]
      {
        CountShow(a, path);
        CountShow(b, path);
      }
    }
  }

  lemma NoCommas(paths: seq<StorePaths.Path>)
    ensures forall part <- Order.Sort(ShowAll(paths)) :: ',' !in part
  {
    Order.SortSorts(ShowAll(paths));
    forall part | part in Order.Sort(ShowAll(paths))
      ensures ',' !in part
    {
      assert part in multiset(ShowAll(paths));
      var i :| 0 <= i < |paths| && part == StorePaths.Show(paths[i]);
      StorePaths.ShowShape(paths[i]);
    }
  }

  function AfterPath(record: NarInfo, dir: StorePaths.Dir): string {
    Digests.Show(record.narHash) + ";" + AfterHash(record, dir)
  }

  function AfterHash(record: NarInfo, dir: StorePaths.Dir): string {
    Decimal(record.narSize) + ";" + ReferenceText(dir, record.references)
  }

  lemma FingerprintText(record: NarInfo, dir: StorePaths.Dir)
    ensures Fingerprint(record, dir)
         == ("1;" + dir + "/") + (StorePaths.Show(record.storePath) + ";" + AfterPath(record, dir))
  {
    hide StorePaths.Show, Digests.Show, Decimal, ReferenceText;
  }

  lemma FingerprintParts(record: NarInfo, dir: StorePaths.Dir)
    ensures Fingerprint(record, dir)[2 + |dir| + 1..] == StorePaths.Show(record.storePath) + ";" + AfterPath(record, dir)
    ensures ';' !in StorePaths.Show(record.storePath)
    ensures ';' !in Digests.Show(record.narHash)
    ensures ';' !in Decimal(record.narSize)
  {
    FingerprintText(record, dir);
    hide Fingerprint, AfterPath;
    StorePaths.ShowShape(record.storePath);
    Digests.Base32TextShape(record.narHash);
    forall c | c in Decimal(record.narSize)
      ensures c != ';'
    {
      assert IsDigit(c);
    }
  }

  /** For every directory, the fingerprint is an unambiguous encoding of what it covers. */
  lemma FingerprintIdentifies(a: NarInfo, b: NarInfo, dir: StorePaths.Dir)
    ensures Fingerprint(a, dir) == Fingerprint(b, dir) <==> SameIdentity(a, b)
  {
    ReferencesFromText(dir, a.references, b.references);
    if Fingerprint(a, dir) == Fingerprint(b, dir) {
      FingerprintParts(a, dir);
      FingerprintParts(b, dir);
      CutAt(StorePaths.Show(a.storePath), AfterPath(a, dir), StorePaths.Show(b.storePath), AfterPath(b, dir), ';');
      StorePaths.ShowInjective(a.storePath, b.storePath);
      CutAt(Digests.Show(a.narHash), AfterHash(a, dir), Digests.Show(b.narHash), AfterHash(b, dir), ';');
      Digests.ShowInjective(a.narHash, b.narHash);
      CutAt(Decimal(a.narSize), ReferenceText(dir, a.references),
            Decimal(b.narSize), ReferenceText(dir, b.references), ';');
      NumberOfDecimal(a.narSize);
      NumberOfDecimal(b.narSize);
    }
  }
}
