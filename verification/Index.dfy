/** The two tables of the index, and the transactions that read and write them. */
module IndexTables {
  import opened Prelude
  import Compressions
  import Cryptos
  import Digests
  import Fingerprints
  import NarInfos
  import NarUrls
  import StorePaths

  /** Where the artifact for one NAR hash ended up, and what was measured on the way. */
  datatype Entry = Entry(
    fileHash: Digests.Digest,
    fileSize: u64,
    narSize: NonZeroU64,
    compression: Compressions.Compression)

  datatype Tables = Tables(
    narinfo: map<StorePaths.Hash, NarInfos.NarInfo>,
    nar: map<Digests.Digest, Entry>)

  const EMPTY: Tables := Tables(map[], map[])

  function Url(entry: Entry): NarUrls.NarUrl {
    NarUrls.NarUrl(entry.fileHash, entry.compression)
  }

  function PutNar(tables: Tables, narHash: Digests.Digest, entry: Entry): Tables {
    tables.(nar := tables.nar[narHash := entry])
  }

  function Publish(tables: Tables, record: NarInfos.NarInfo): Tables {
    tables.(narinfo := tables.narinfo[record.storePath.hash := record])
  }

  function Republish(tables: Tables, records: seq<NarInfos.NarInfo>): Tables
    decreases |records|
  {
    if records == [] then tables
    else Publish(Republish(tables, records[..|records| - 1]), records[|records| - 1])
  }

  /** Forgets a record together with the row of the NAR it names, whoever else shares that NAR. */
  function Unpublish(tables: Tables, key: StorePaths.Hash): Tables {
    if key !in tables.narinfo then tables
    else Tables(tables.narinfo - {key}, tables.nar - {tables.narinfo[key].narHash})
  }

  /** Every row sits under the hash of its own store path. */
  ghost predicate Keyed(tables: Tables) {
    forall key <- tables.narinfo :: tables.narinfo[key].storePath.hash == key
  }

  // ----- What a delete does to a sibling -----

  ghost predicate EveryRecordHasRow(tables: Tables) {
    forall key <- tables.narinfo :: tables.narinfo[key].narHash in tables.nar
  }

  /**
   Not every record keeps a NAR row: a delete leaves the siblings without one exactly when the record
   it removes shares its NAR with another.
   */
  lemma DeleteStrandsSiblings(tables: Tables, key: StorePaths.Hash)
    requires EveryRecordHasRow(tables) && key in tables.narinfo
    ensures EveryRecordHasRow(Unpublish(tables, key))
        <==> forall other <- tables.narinfo ::
               other != key ==> tables.narinfo[other].narHash != tables.narinfo[key].narHash
  {
    var after := Unpublish(tables, key);
    forall other | other in tables.narinfo && other != key
      ensures other in after.narinfo && after.narinfo[other] == tables.narinfo[other]
    {
    }
  }

  ghost predicate Distinct(keys: seq<StorePaths.Hash>) {
    forall i, j :: 0 <= i < j < |keys| ==> keys[i] != keys[j]
  }

  /** `rows` is every record, each once, in some order. */
  ghost predicate Lists(tables: Tables, keys: seq<StorePaths.Hash>, rows: seq<NarInfos.NarInfo>) {
    && |keys| == |rows| == |tables.narinfo|
    && Distinct(keys)
    && (forall i :: 0 <= i < |keys| ==> keys[i] in tables.narinfo && rows[i] == tables.narinfo[keys[i]])
    && (forall key <- tables.narinfo :: key in keys)
  }

  lemma ListedRows(tables: Tables, keys: seq<StorePaths.Hash>, rows: seq<NarInfos.NarInfo>)
    requires Lists(tables, keys, rows)
    ensures forall row :: row in rows <==> row in tables.narinfo.Values
  {
    hide Distinct;
    forall row | row in tables.narinfo.Values
      ensures row in rows
    {
      var key :| key in tables.narinfo && tables.narinfo[key] == row;
      var i :| 0 <= i < |keys| && keys[i] == key;
      assert rows[i] == row;
    }
    forall row | row in rows
      ensures row in tables.narinfo.Values
    {
      var i :| 0 <= i < |rows| && rows[i] == row;
      assert keys[i] in tables.narinfo;
    }
  }

  // ----- Rewriting a listing -----

  lemma {:induction false} RepublishAppend(tables: Tables, a: seq<NarInfos.NarInfo>, b: seq<NarInfos.NarInfo>)
    ensures Republish(tables, a + b) == Republish(Republish(tables, a), b)
    decreases |b|
  {
    if b == [] {
      assert a + b == a;
    } else {
      var last := |b| - 1;
      assert (a + b)[..|a + b| - 1] == a + b[..last];
      RepublishAppend(tables, a, b[..last]);
    }
  }

  /** `after` holds the rewritten front part of the listing and the rest as it was. */
  ghost predicate Rewrote(
      before: Tables, after: Tables, keys: seq<StorePaths.Hash>,
      rows: seq<NarInfos.NarInfo>, rewritten: seq<NarInfos.NarInfo>)
    requires |rewritten| <= |keys| == |rows|
  {
    && after.nar == before.nar
    && after.narinfo.Keys == before.narinfo.Keys
    && forall i :: 0 <= i < |keys| ==>
         && keys[i] in after.narinfo
         && after.narinfo[keys[i]] == if i < |rewritten| then rewritten[i] else rows[i]
  }

  lemma RewroteOneMore(
      before: Tables, after: Tables, keys: seq<StorePaths.Hash>,
      rows: seq<NarInfos.NarInfo>, rewritten: seq<NarInfos.NarInfo>, next: NarInfos.NarInfo)
    requires |rewritten| < |keys| == |rows|
    requires Distinct(keys)
    requires Rewrote(before, after, keys, rows, rewritten) && next.storePath.hash == keys[|rewritten|]
    ensures Rewrote(before, Publish(after, next), keys, rows, rewritten + [next])
  {
  }

  /** Rewrites of distinct listed rows leave the keys alone and touch exactly the rows rewritten. */
  lemma {:induction false} RepublishListed(
      tables: Tables, keys: seq<StorePaths.Hash>, rows: seq<NarInfos.NarInfo>, rewritten: seq<NarInfos.NarInfo>)
    requires Lists(tables, keys, rows)
    requires |rewritten| <= |rows|
    requires forall i :: 0 <= i < |rewritten| ==> rewritten[i].storePath.hash == keys[i]
    ensures Rewrote(tables, Republish(tables, rewritten), keys, rows, rewritten)
    decreases |rewritten|
  {
    if rewritten != [] {
      var front := rewritten[..|rewritten| - 1];
      hide Rewrote, Publish;
      RepublishListed(tables, keys, rows, front);
      RewroteOneMore(tables, Republish(tables, front), keys, rows, front, rewritten[|front|]);
      Snoc(rewritten);
    }
  }

  function ResignAll(
      c: Cryptos.Crypto, rows: seq<NarInfos.NarInfo>, dir: StorePaths.Dir, key: Cryptos.SecretKey)
      : (r: seq<NarInfos.NarInfo>)
    ensures |r| == |rows|
  {
    seq(|rows|, i requires 0 <= i < |rows| => Fingerprints.Resigned(c, rows[i], dir, key))
  }

  /** Two rows that differ in nothing but who signed them. */
  ghost predicate SamePayload(a: NarInfos.NarInfo, b: NarInfos.NarInfo) {
    a.(sigs := b.sigs) == b
  }

  /** Rewriting rows without changing what they say changes what no row says. */
  lemma PayloadsKept(
      before: Tables, after: Tables, keys: seq<StorePaths.Hash>,
      rows: seq<NarInfos.NarInfo>, rewritten: seq<NarInfos.NarInfo>)
    requires Keyed(before) && Lists(before, keys, rows) && |rewritten| <= |keys|
    requires Rewrote(before, after, keys, rows, rewritten)
    requires forall i :: 0 <= i < |rewritten| ==> SamePayload(rewritten[i], rows[i])
    ensures Keyed(after)
    ensures forall k <- before.narinfo :: SamePayload(after.narinfo[k], before.narinfo[k])
  {
    forall k | k in before.narinfo
      ensures SamePayload(after.narinfo[k], before.narinfo[k])
    {
      var i :| 0 <= i < |keys| && keys[i] == k;
    }
  }

  lemma ResignedRows(
      c: Cryptos.Crypto, rows: seq<NarInfos.NarInfo>, dir: StorePaths.Dir, key: Cryptos.SecretKey)
    requires Cryptos.LawfulSigner(c)
    ensures forall i :: 0 <= i < |rows| ==>
      && SamePayload(ResignAll(c, rows, dir, key)[i], rows[i])
      && Fingerprints.SignedBy(c, ResignAll(c, rows, dir, key)[i], dir, key)
  {
    forall i | 0 <= i < |rows|
      ensures Fingerprints.SignedBy(c, ResignAll(c, rows, dir, key)[i], dir, key)
    {
      Fingerprints.ResignedVerifies(c, rows[i], dir, key);
    }
  }

  /**
   A rotation stopped after any number of its records: no row appeared or went, every row says what
   it said before, the records rewritten so far verify under the new key and the others are as they
   were.
   */
  lemma RotationPrefix(
      c: Cryptos.Crypto, dir: StorePaths.Dir, key: Cryptos.SecretKey,
      tables: Tables, keys: seq<StorePaths.Hash>, rows: seq<NarInfos.NarInfo>, count: nat)
    requires Cryptos.LawfulSigner(c) && Keyed(tables) && Lists(tables, keys, rows) && count <= |rows|
    ensures var after := Republish(tables, ResignAll(c, rows, dir, key)[..count]);
            && after.nar == tables.nar
            && after.narinfo.Keys == tables.narinfo.Keys
            && Keyed(after)
            && (forall k <- tables.narinfo :: SamePayload(after.narinfo[k], tables.narinfo[k]))
            && (forall i :: 0 <= i < count ==> Fingerprints.SignedBy(c, after.narinfo[keys[i]], dir, key))
            && (forall i :: count <= i < |rows| ==> after.narinfo[keys[i]] == tables.narinfo[keys[i]])
  {
    hide Fingerprints.Fingerprint, Fingerprints.SignedBy, Republish, Distinct;
    var resigned := ResignAll(c, rows, dir, key)[..count];
    ResignedRows(c, rows, dir, key);
    RepublishListed(tables, keys, rows, resigned);
    PayloadsKept(tables, Republish(tables, resigned), keys, rows, resigned);
  }

  /**
   Running a rotation to its end, whatever an earlier one left behind, leaves every record verifying
   under the new key.
   */
  lemma RotationCompletes(
      c: Cryptos.Crypto, dir: StorePaths.Dir, key: Cryptos.SecretKey,
      tables: Tables, keys: seq<StorePaths.Hash>, rows: seq<NarInfos.NarInfo>)
    requires Cryptos.LawfulSigner(c) && Keyed(tables) && Lists(tables, keys, rows)
    ensures var after := Republish(tables, ResignAll(c, rows, dir, key));
            && after.nar == tables.nar
            && after.narinfo.Keys == tables.narinfo.Keys
            && forall k <- after.narinfo ::
                 && SamePayload(after.narinfo[k], tables.narinfo[k])
                 && Fingerprints.SignedBy(c, after.narinfo[k], dir, key)
  {
    hide Fingerprints.SignedBy, Republish, Keyed;
    var resigned := ResignAll(c, rows, dir, key);
    assert resigned[..|rows|] == resigned;
    RotationPrefix(c, dir, key, tables, keys, rows, |rows|);
    forall k | k in tables.narinfo
      ensures Fingerprints.SignedBy(c, Republish(tables, resigned).narinfo[k], dir, key)
    {
      var i :| 0 <= i < |keys| && keys[i] == k;
    }
  }
}

/** The index: transactions over the tables, each of which happens whole or not at all. */
module Indexes {
  import opened Prelude
  import Digests
  import NarInfos
  import StorePaths
  import opened IndexTables

  datatype Error = BeginRead | BeginWrite | Table | Read | Write | Commit | Encode | Decode

  class Index {
    var tables: Tables
    /** How many transactions have failed so far. */
    ghost var faults: nat

    constructor (tables: Tables)
      ensures this.tables == tables
    {
      this.tables := tables;
      faults := 0;
    }

    /** A transaction that fails to begin, or is dropped unfinished, leaves no trace. */
    method NarInfo(key: StorePaths.Hash) returns (r: Result<Option<NarInfos.NarInfo>, Error>)
      modifies this`faults
      ensures r.Ok? ==>
        r.value == if key in tables.narinfo then Some(tables.narinfo[key]) else None
      ensures Counted(old(faults), faults, r.Err?)
    {
      if * {
        faults := faults + 1;
        return Err(Error.Read);
      }
      if key !in tables.narinfo {
        return Ok(None);
      }
      return Ok(Some(tables.narinfo[key]));
    }

    method Nar(narHash: Digests.Digest) returns (r: Result<Option<Entry>, Error>)
      modifies this`faults
      ensures r.Ok? ==>
        r.value == if narHash in tables.nar then Some(tables.nar[narHash]) else None
      ensures Counted(old(faults), faults, r.Err?)
    {
      if * {
        faults := faults + 1;
        return Err(Error.Read);
      }
      if narHash !in tables.nar {
        return Ok(None);
      }
      return Ok(Some(tables.nar[narHash]));
    }

    method PutNar(narHash: Digests.Digest, entry: Entry) returns (r: Result<(), Error>)
      modifies this
      ensures tables == if r.Ok? then IndexTables.PutNar(old(tables), narHash, entry) else old(tables)
      ensures Counted(old(faults), faults, r.Err?)
    {
      if * {
        faults := faults + 1;
        return Err(Commit);
      }
      tables := tables.(nar := tables.nar[narHash := entry]);
      return Ok(());
    }

    method Publish(record: NarInfos.NarInfo) returns (r: Result<(), Error>)
      modifies this
      ensures tables == if r.Ok? then IndexTables.Publish(old(tables), record) else old(tables)
      ensures Counted(old(faults), faults, r.Err?)
    {
      if * {
        faults := faults + 1;
        return Err(Commit);
      }
      tables := tables.(narinfo := tables.narinfo[record.storePath.hash := record]);
      return Ok(());
    }

    /** Many records in one transaction: an insert that fails takes the earlier ones with it. */
    method Republish(records: seq<NarInfos.NarInfo>) returns (r: Result<(), Error>)
      modifies this
      ensures tables == if r.Ok? then IndexTables.Republish(old(tables), records) else old(tables)
      ensures Counted(old(faults), faults, r.Err?)
    {
      var pending := tables;
      for i := 0 to |records|
        invariant tables == old(tables) && faults == old(faults)
        invariant pending == IndexTables.Republish(old(tables), records[..i])
      {
        if * {
          faults := faults + 1;
          return Err(Encode);
        }
        pending := pending.(narinfo := pending.narinfo[records[i].storePath.hash := records[i]]);
        assert records[..i + 1][..i] == records[..i];
      }
      if * {
        faults := faults + 1;
        return Err(Commit);
      }
      assert records[..|records|] == records;
      tables := pending;
      return Ok(());
    }

    method Unpublish(key: StorePaths.Hash) returns (r: Result<Option<NarInfos.NarInfo>, Error>)
      modifies this
      ensures tables == if r.Ok? then IndexTables.Unpublish(old(tables), key) else old(tables)
      ensures r.Ok? ==>
        r.value == if key in old(tables).narinfo then Some(old(tables).narinfo[key]) else None
      ensures Counted(old(faults), faults, r.Err?)
    {
      if * {
        faults := faults + 1;
        return Err(Commit);
      }
      if key !in tables.narinfo {
        return Ok(None);
      }
      var record := tables.narinfo[key];
      tables := Tables(tables.narinfo - {key}, tables.nar - {record.narHash});
      return Ok(Some(record));
    }

    /** Every record of one snapshot, with the keys the rows were read under. */
    method Records() returns (r: Result<seq<NarInfos.NarInfo>, Error>, ghost keys: seq<StorePaths.Hash>)
      modifies this`faults
      ensures Counted(old(faults), faults, r.Err?)
      ensures r.Ok? ==> Lists(tables, keys, r.value)
      ensures r.Ok? ==>
        |r.value| == |tables.narinfo| && forall row :: row in r.value <==> row in tables.narinfo.Values
    {
      keys := [];
      var records: seq<NarInfos.NarInfo> := [];
      var left := tables.narinfo.Keys;
      while left != {}
        invariant left <= tables.narinfo.Keys
        invariant |keys| == |records| && |keys| + |left| == |tables.narinfo|
        invariant Distinct(keys)
        invariant forall i :: 0 <= i < |keys| ==>
          keys[i] in tables.narinfo && keys[i] !in left && records[i] == tables.narinfo[keys[i]]
        invariant forall key <- tables.narinfo :: key in left || key in keys
        decreases left
      {
        if * {
          faults := faults + 1;
          return Err(Decode), keys;
        }
        var key :| key in left;
        left := left - {key};
        keys := keys + [key];
        records := records + [tables.narinfo[key]];
      }
      assert Lists(tables, keys, records);
      ListedRows(tables, keys, records);
      return Ok(records), keys;
    }

    method Count() returns (r: Result<nat, Error>)
      modifies this`faults
      ensures r.Ok? ==> r.value == |tables.narinfo|
      ensures Counted(old(faults), faults, r.Err?)
    {
      if * {
        faults := faults + 1;
        return Err(Error.Read);
      }
      return Ok(|tables.narinfo|);
    }
  }
}
