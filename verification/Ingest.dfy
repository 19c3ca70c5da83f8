/** The two writes a client performs: opening an upload, and publishing a record for one. */
module Ingests {
  import opened Prelude
  import Compressions
  import Cryptos
  import Digests
  import Fingerprints
  import IndexTables
  import Indexes
  import NarInfoParsing
  import NarInfos
  import NarUrls
  import StorePaths
  import opened Disks
  import Stores
  import UploadStates
  import Uploads

  datatype Error =
    | PreCompressed(declared: Compressions.Compression)
    | Stage(store: Stores.Error)
    | Upload(upload: UploadStates.Error)
    | Narinfo(narinfo: NarInfoParsing.Error)
    | UnknownNar(narHash: Digests.Digest)
    | NarSizeMismatch(declaredSize: nat, received: nat)
    | Index(index: Indexes.Error)

  function FaultOf(error: Error): UploadStates.Fault {
    match error
    case Stage(_) => UploadStates.Server
    case Index(_) => UploadStates.Server
    case Upload(upload) => UploadStates.FaultOf(upload)
    case _ => UploadStates.Client
  }

  /** The record a declaration becomes: what was measured, not what was claimed, under this key. */
  function Built(
      c: Cryptos.Crypto, dir: StorePaths.Dir, key: Cryptos.SecretKey,
      declared: NarInfos.NarInfo, entry: IndexTables.Entry): NarInfos.NarInfo
  {
    Fingerprints.Resigned(
      c,
      NarInfos.NarInfo(
        declared.storePath, entry.compression, entry.fileHash, entry.fileSize,
        declared.narHash, declared.narSize, declared.references, declared.deriver, [], declared.ca),
      dir, key)
  }

  /** What a publish decides from the one NAR row it reads. */
  function Prepared(
      c: Cryptos.Crypto, dir: StorePaths.Dir, key: Cryptos.SecretKey,
      tables: IndexTables.Tables, body: string): Result<NarInfos.NarInfo, Error>
  {
    match NarInfoParsing.Parsed(body, dir)
    case Err(error) => Err(Narinfo(error))
    case Ok(declared) =>
      if declared.narHash !in tables.nar then Err(UnknownNar(declared.narHash))
      else
        var entry := tables.nar[declared.narHash];
        if entry.narSize != declared.narSize then Err(NarSizeMismatch(declared.narSize, entry.narSize))
        else Ok(Built(c, dir, key, declared, entry))
  }

  /** Whatever keeps a record from being prepared is the client's to act on. */
  lemma PreparedFaults(
      c: Cryptos.Crypto, dir: StorePaths.Dir, key: Cryptos.SecretKey, tables: IndexTables.Tables, body: string)
    ensures var prepared := Prepared(c, dir, key, tables, body);
            prepared.Err? ==> !prepared.error.Index? && FaultOf(prepared.error) == UploadStates.Client
  {
    hide NarInfoParsing.Parsed;
  }

  /** The row a record was built from, read back off the record. */
  function EntryNamed(record: NarInfos.NarInfo): IndexTables.Entry {
    IndexTables.Entry(record.fileHash, record.fileSize, record.narSize, record.compression)
  }

  /** A record agrees with its declaration wherever a reference, the deriver or the CA is concerned. */
  ghost predicate Declared(record: NarInfos.NarInfo, declared: NarInfos.NarInfo) {
    && record.storePath == declared.storePath
    && record.narHash == declared.narHash
    && record.narSize == declared.narSize
    && record.references == declared.references
    && record.deriver == declared.deriver
    && record.ca == declared.ca
  }

  /**
   A prepared record names exactly the artifact its NAR row measured, in hash, size and compression;
   the client's word is taken for nothing about the payload, and its signatures are replaced by one
   that verifies under this server's key.
   */
  lemma PreparedFromRow(
      c: Cryptos.Crypto, dir: StorePaths.Dir, key: Cryptos.SecretKey, tables: IndexTables.Tables, body: string)
    requires Cryptos.LawfulSigner(c) && Prepared(c, dir, key, tables, body).Ok?
    ensures var record := Prepared(c, dir, key, tables, body).value;
            && record.narHash in tables.nar && tables.nar[record.narHash] == EntryNamed(record)
            && NarInfos.Nar(record) == IndexTables.Url(EntryNamed(record))
            && Fingerprints.SignedBy(c, record, dir, key)
            && Declared(record, NarInfoParsing.Parsed(body, dir).value)
  {
    hide NarInfoParsing.Parsed, Fingerprints.Fingerprint;
    var declared := NarInfoParsing.Parsed(body, dir).value;
    var entry := tables.nar[declared.narHash];
    Fingerprints.ResignedVerifies(c, Built(c, dir, key, declared, entry).(sigs := []), dir, key);
  }

  /** An upload that did not start: no file was created, or one was and then dropped. */
  ghost predicate StagedOrNot(before: Disk, after: Disk, name: string) {
    || after == before
    || exists inode :: Opens(before, name, inode) && Uploads.Dropped(Created(before, name, inode), after, name, false)
  }

  class Ingest {
    const crypto: Cryptos.Crypto
    const store: Stores.Store
    const index: Indexes.Index
    const key: Cryptos.SecretKey
    const dir: StorePaths.Dir

    constructor (
        crypto: Cryptos.Crypto, store: Stores.Store, index: Indexes.Index,
        key: Cryptos.SecretKey, dir: StorePaths.Dir)
      ensures this.crypto == crypto && this.store == store && this.index == index
      ensures this.key == key && this.dir == dir
    {
      this.crypto := crypto;
      this.store := store;
      this.index := index;
      this.key := key;
      this.dir := dir;
    }

    /** Opens an upload for an uncompressed target; anything else is refused before touching disk. */
    method Receive(target: NarUrls.NarUrl) returns (r: Result<Uploads.Upload, Error>)
      requires Cryptos.LawfulEncoder(crypto) && WithinLimits(store.disk)
      modifies store
      ensures WithinLimits(store.disk) && store.disk.artifacts == old(store.disk).artifacts
      ensures target.compression != Compressions.None_ ==>
        r == Err(PreCompressed(target.compression)) && store.disk == old(store.disk)
      ensures r.Ok? ==>
        && fresh(r.value) && fresh(r.value.staged)
        && r.value.crypto == crypto && r.value.staged.store == store && r.value.expected == target.fileHash
        && r.value.Valid() && r.value.state == UploadStates.FRESH && r.value.received == []
        && r.value.staged.name == Stores.StagingName(store.pid, old(store.sequence)) && !r.value.staged.committed
        && Opens(old(store.disk), r.value.staged.name, r.value.staged.inode)
        && store.disk == Created(old(store.disk), r.value.staged.name, r.value.staged.inode)
      ensures r.Err? && target.compression == Compressions.None_ ==>
        && FaultOf(r.error) == UploadStates.Server
        && StagedOrNot(old(store.disk), store.disk, Stores.StagingName(store.pid, old(store.sequence)))
      ensures store.sequence
           == if target.compression == Compressions.None_ then Stores.Following(old(store.sequence))
              else old(store.sequence)
      ensures Counted(old(store.faults), store.faults, r.Err? && target.compression == Compressions.None_)
    {
      if target.compression != Compressions.None_ {
        return Err(PreCompressed(target.compression));
      }
      var staged := store.Stage();
      if staged.Err? {
        return Err(Stage(staged.error));
      }
      var starts: bool := *;
      if !starts {
        store.faults := store.faults + 1;
        staged.value.Drop();
        return Err(Error.Upload(UploadStates.Compress));
      }
      var upload := new Uploads.Upload(crypto, staged.value, target.fileHash);
      return Ok(upload);
    }

    /** Reads the NAR row, builds and signs the record, and commits it, in two separate transactions. */
    method Publish(body: string) returns (r: Result<NarInfos.NarInfo, Error>)
      modifies index
      ensures r.Ok? ==>
        && r == Prepared(crypto, dir, key, old(index.tables), body)
        && index.tables == IndexTables.Publish(old(index.tables), r.value)
      ensures r.Err? ==>
        && index.tables == old(index.tables)
        && (r.error.Index? || r == Prepared(crypto, dir, key, index.tables, body))
      ensures Counted(old(index.faults), index.faults, r.Err? && r.error.Index?)
    {
      hide NarInfoParsing.Parsed, Fingerprints.Fingerprint;
      var parsed := NarInfoParsing.Parse(body, dir);
      if parsed.Err? {
        return Err(Narinfo(parsed.error));
      }
      var declared := parsed.value;
      var found := index.Nar(declared.narHash);
      if found.Err? {
        return Err(Index(found.error));
      }
      if found.value.None? {
        return Err(UnknownNar(declared.narHash));
      }
      var entry := found.value.value;
      if entry.narSize != declared.narSize {
        return Err(NarSizeMismatch(declared.narSize, entry.narSize));
      }
      var record := NarInfos.NarInfo(
        declared.storePath, entry.compression, entry.fileHash, entry.fileSize,
        declared.narHash, declared.narSize, declared.references, declared.deriver, [], declared.ca);
      var fingerprint := Fingerprints.ComputeFingerprint(record, dir);
      record := record.(sigs := [Cryptos.Sign(crypto, key, fingerprint)]);
      var published := index.Publish(record);
      if published.Err? {
        return Err(Index(published.error));
      }
      return Ok(record);
    }
  }
}
