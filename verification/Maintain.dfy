/** The three commands that run on the tables while no server does. */
module Maintain {
  import opened Prelude
  import Cryptos
  import Disks
  import Fingerprints
  import IndexTables
  import Indexes
  import NarInfos
  import NarUrls
  import StorePaths
  import Stores

  const BATCH: nat := 1000

  datatype Error = Index(index: Indexes.Error) | Scan(store: Stores.Error)

  datatype Deleted = Removed | Absent

  datatype Reconciliation = Reconciliation(
    orphanArtifacts: seq<NarUrls.NarUrl>,
    recordsWithoutArtifacts: seq<StorePaths.Path>,
    unrecognizedFiles: seq<Disks.Location>)

  /** One `Unpublish` transaction; nothing on disk is touched. */
  method Delete(index: Indexes.Index, key: StorePaths.Hash) returns (r: Result<Deleted, Error>)
    modifies index
    ensures Counted(old(index.faults), index.faults, r.Err?)
    ensures r.Ok? ==>
      && index.tables == IndexTables.Unpublish(old(index.tables), key)
      && (r.value == Removed <==> key in old(index.tables).narinfo)
    ensures r.Err? ==> index.tables == old(index.tables)
  {
    var removed := index.Unpublish(key);
    if removed.Err? {
      return Err(Error.Index(removed.error));
    }
    if removed.value.None? {
      return Ok(Absent);
    }
    return Ok(Removed);
  }

  // ----- Reconciliation -----

  /** Some file under `nar/` has a name that spells this artifact. */
  ghost predicate Present(disk: Disks.Disk, url: NarUrls.NarUrl) {
    exists file :: file in disk.artifacts && NarUrls.Parse(file.name) == Ok(url)
  }

  /** Some record points at this artifact. */
  ghost predicate Claimed(tables: IndexTables.Tables, url: NarUrls.NarUrl) {
    exists row :: row in tables.narinfo.Values && NarInfos.Nar(row) == url
  }

  /** The comparison in both directions, by value. */
  ghost predicate Compared(disk: Disks.Disk, tables: IndexTables.Tables, found: Reconciliation) {
    && (forall url :: url in found.orphanArtifacts <==> Present(disk, url) && !Claimed(tables, url))
    && (forall path ::
          path in found.recordsWithoutArtifacts
          <==> exists row :: row in tables.narinfo.Values && row.storePath == path
                             && !Present(disk, NarInfos.Nar(row)))
    && (forall file :: file in found.unrecognizedFiles
          <==> file in disk.artifacts && NarUrls.Parse(file.name).Err?)
  }

  method NamesOfRecords(records: seq<NarInfos.NarInfo>) returns (names: set<string>)
    ensures forall url: NarUrls.NarUrl ::
      NarUrls.Name(url) in names <==> exists row :: row in records && NarInfos.Nar(row) == url
  {
    hide NarUrls.Name;
    names := {};
    for i := 0 to |records|
      invariant forall url: NarUrls.NarUrl ::
        NarUrls.Name(url) in names <==> exists row :: row in records[..i] && NarInfos.Nar(row) == url
    {
      forall url: NarUrls.NarUrl | NarUrls.Name(url) == NarUrls.Name(NarInfos.Nar(records[i]))
        ensures url == NarInfos.Nar(records[i])
      {
        NarUrls.NameInjective(url, NarInfos.Nar(records[i]));
      }
      names := names + {NarUrls.Name(NarInfos.Nar(records[i]))};
    }
  }

  method NamesOfArtifacts(artifacts: seq<NarUrls.NarUrl>) returns (names: set<string>)
    ensures forall url: NarUrls.NarUrl :: NarUrls.Name(url) in names <==> url in artifacts
  {
    hide NarUrls.Name;
    names := {};
    for i := 0 to |artifacts|
      invariant forall url: NarUrls.NarUrl :: NarUrls.Name(url) in names <==> url in artifacts[..i]
    {
      forall url: NarUrls.NarUrl | NarUrls.Name(url) == NarUrls.Name(artifacts[i])
        ensures url == artifacts[i]
      {
        NarUrls.NameInjective(url, artifacts[i]);
      }
      names := names + {NarUrls.Name(artifacts[i])};
    }
  }

  method Orphans(artifacts: seq<NarUrls.NarUrl>, claimed: set<string>) returns (orphans: seq<NarUrls.NarUrl>)
    ensures forall url :: url in orphans <==> url in artifacts && NarUrls.Name(url) !in claimed
  {
    hide NarUrls.Name;
    orphans := [];
    for i := 0 to |artifacts|
      invariant forall url :: url in orphans <==> url in artifacts[..i] && NarUrls.Name(url) !in claimed
    {
      if NarUrls.Name(artifacts[i]) !in claimed {
        orphans := orphans + [artifacts[i]];
      }
    }
  }

  method Missing(records: seq<NarInfos.NarInfo>, present: set<string>) returns (paths: seq<StorePaths.Path>)
    ensures forall path ::
      path in paths
      <==> exists row :: row in records && row.storePath == path
                         && NarUrls.Name(NarInfos.Nar(row)) !in present
  {
    hide NarUrls.Name;
    paths := [];
    for i := 0 to |records|
      invariant forall path ::
        path in paths
        <==> exists row :: row in records[..i] && row.storePath == path
                           && NarUrls.Name(NarInfos.Nar(row)) !in present
    {
      if NarUrls.Name(NarInfos.Nar(records[i])) !in present {
        paths := paths + [records[i].storePath];
      }
    }
  }

  /** Compares rendered names, which finds exactly what comparing artifacts and records by value would. */
  method Reconcile(store: Stores.Store, index: Indexes.Index) returns (r: Result<Reconciliation, Error>)
    modifies store`faults, index`faults
    ensures Counted(old(store.faults) + old(index.faults), store.faults + index.faults, r.Err?)
    ensures r.Ok? ==> Compared(store.disk, index.tables, r.value)
  {
    hide NarUrls.Parse, NarUrls.Name, IndexTables.Lists;
    var scan := store.Scan();
    if scan.Err? {
      return Err(Error.Scan(scan.error));
    }
    var artifacts, unrecognized := scan.value.0, scan.value.1;
    var records, keys := index.Records();
    if records.Err? {
      return Err(Error.Index(records.error));
    }
    var claimed := NamesOfRecords(records.value);
    var present := NamesOfArtifacts(artifacts);
    var orphans := Orphans(artifacts, claimed);
    var missing := Missing(records.value, present);
    IndexTables.ListedRows(index.tables, keys, records.value);
    return Ok(Reconciliation(orphans, missing, unrecognized));
  }

  // ----- Rotation -----

  /** How far a rotation can have got: whole batches, or everything. */
  ghost predicate WholeBatches(count: nat, total: nat) {
    count <= total && (count == total || count % BATCH == 0)
  }

  function BatchEnd(start: nat, total: nat): (end: nat)
    requires start < total
    ensures start < end <= total
    ensures WholeBatches(start, total) ==> WholeBatches(end, total)
  {
    Min(start + BATCH, total)
  }

  /** One transaction per batch; a failure leaves the batches before it committed. */
  method CommitBatches(index: Indexes.Index, records: seq<NarInfos.NarInfo>)
      returns (r: Result<(), Indexes.Error>, ghost count: nat)
    modifies index
    ensures Counted(old(index.faults), index.faults, r.Err?)
    ensures WholeBatches(count, |records|) && (r.Ok? ==> count == |records|)
    ensures index.tables == IndexTables.Republish(old(index.tables), records[..count])
  {
    var start: nat := 0;
    assert records[..start] == [];
    assert WholeBatches(start, |records|);
    while start < |records|
      invariant WholeBatches(start, |records|) && old(index.faults) <= index.faults
      invariant index.tables == IndexTables.Republish(old(index.tables), records[..start])
    {
      hide WholeBatches, IndexTables.Republish;
      var end := BatchEnd(start, |records|);
      IndexTables.RepublishAppend(old(index.tables), records[..start], records[start..end]);
      assert records[..start] + records[start..end] == records[..end];
      var committed := index.Republish(records[start..end]);
      if committed.Err? {
        return Err(committed.error), start;
      }
      start := end;
    }
    return Ok(()), start;
  }

  /**
   Re-signs every record under `key`. However it ends, the table is the old one with some front part
   of its listing re-signed; on success with all of it.
   */
  method Rotate(c: Cryptos.Crypto, index: Indexes.Index, dir: StorePaths.Dir, key: Cryptos.SecretKey)
      returns (r: Result<nat, Error>, ghost keys: seq<StorePaths.Hash>, ghost rows: seq<NarInfos.NarInfo>,
               ghost count: nat)
    modifies index
    ensures Counted(old(index.faults), index.faults, r.Err?)
    ensures r.Ok? ==> r.value == |old(index.tables).narinfo| && count == |rows|
    ensures count > 0 || r.Ok? ==> IndexTables.Lists(old(index.tables), keys, rows)
    ensures WholeBatches(count, |rows|)
    ensures index.tables
         == IndexTables.Republish(old(index.tables), IndexTables.ResignAll(c, rows, dir, key)[..count])
  {
    hide IndexTables.Lists;
    var listed;
    listed, keys := index.Records();
    if listed.Err? {
      assert IndexTables.ResignAll(c, [], dir, key)[..0] == [];
      return Err(Error.Index(listed.error)), keys, [], 0;
    }
    rows := listed.value;
    var records := ResignRecords(c, listed.value, dir, key);
    var committed;
    committed, count := CommitBatches(index, records);
    if committed.Err? {
      return Err(Error.Index(committed.error)), keys, rows, count;
    }
    return Ok(|records|), keys, rows, count;
  }

  method ResignRecords(c: Cryptos.Crypto, rows: seq<NarInfos.NarInfo>, dir: StorePaths.Dir, key: Cryptos.SecretKey)
      returns (records: seq<NarInfos.NarInfo>)
    ensures records == IndexTables.ResignAll(c, rows, dir, key)
  {
    hide Fingerprints.Fingerprint;
    records := rows;
    for i := 0 to |rows|
      invariant |records| == |rows|
      invariant forall j :: 0 <= j < i ==> records[j] == Fingerprints.Resigned(c, rows[j], dir, key)
      invariant forall j :: i <= j < |rows| ==> records[j] == rows[j]
    {
      var fingerprint := Fingerprints.ComputeFingerprint(records[i], dir);
      records := records[i := records[i].(sigs := [Cryptos.Sign(c, key, fingerprint)])];
    }
  }
}
