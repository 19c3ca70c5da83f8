/**
 Everything that can happen to a cache directory, one effect at a time: any number of uploads and
 publishes in flight, a crash between any two effects, boots that sweep, and operator commands while
 the server is down. Only one process has the index open at a time.
 */
module Protocols {
  import opened Prelude
  import Cryptos
  import Digests
  import Fingerprints
  import opened Disks
  import IndexTables
  import Ingests
  import Maintain
  import NarInfos
  import NarUrls
  import StorePaths
  import Stores
  import opened UploadStates

  /**
   One upload. `inflight` is what a write in progress has yet to put in the file; `received` is what
   the client sent, kept for the record only.
   */
  datatype Live = Live(
    inode: nat,
    expected: Digests.Digest,
    state: UploadStates.State,
    received: seq<seq<byte>>,
    inflight: seq<byte>,
    committed: bool)

  datatype Mode =
    | Down
    | Booting(pid: nat, key: Cryptos.SecretKey)
    | Serving(pid: nat, key: Cryptos.SecretKey, sequence: nat,
              uploads: map<nat, Live>, publishes: map<nat, NarInfos.NarInfo>)
    | Rotating(key: Cryptos.SecretKey, todo: seq<NarInfos.NarInfo>)

  /**
   `ledger` is every content ever renamed into place, and `signers` the key each record was last
   written under: history that no step reads.
   */
  datatype State = State(
    disk: Disk,
    tables: IndexTables.Tables,
    mode: Mode,
    ledger: set<seq<byte>>,
    signers: map<StorePaths.Hash, Cryptos.SecretKey>)

  const INITIAL: State := State(Disks.EMPTY, IndexTables.EMPTY, Down, {}, map[])

  /** One effect of one upload. */
  datatype Move =
    | Feed(chunk: seq<byte>)
    | Drain
    | Write(count: nat)
    | Flush
    | Verify
    | Rename
    | PutNar
    | Abandon(unlinks: bool)

  datatype Step =
    | Boot(pid: nat, key: Cryptos.SecretKey)
    | Sweep(name: string)
    | Listen
    | Stage(inode: nat, expected: Digests.Digest)
    | StageFails
    | Upload(id: nat, move: Move)
    | ReadRow(id: nat, body: string)
    | Publish(id: nat)
    | Forget(id: nat)
    | Crash
    | Delete(hash: StorePaths.Hash)
    | Rotate(key: Cryptos.SecretKey, keys: seq<StorePaths.Hash>, rows: seq<NarInfos.NarInfo>)
    | Batch
    | Rotated

  // ----- The transition relation -----

  /** The ordinal an upload stages under: the counter behind it has 64 bits, upload numbers do not wrap. */
  ghost function Ordinal(id: nat): u64 {
    id % U64_LIMIT
  }

  ghost function NameOf(pid: nat, id: nat): string {
    Stores.StagingName(pid, Ordinal(id))
  }

  /** No upload that is still writing stages under this number's name. */
  ghost predicate NameFree(uploads: map<nat, Live>, id: nat) {
    forall other <- uploads :: !uploads[other].committed ==> Ordinal(other) != Ordinal(id)
  }

  ghost predicate Uploading(s: State, id: nat) {
    s.mode.Serving? && id in s.mode.uploads && !s.mode.uploads[id].committed
  }

  ghost predicate MoveEnabled(c: Cryptos.Crypto, s: State, id: nat, move: Move)
    requires Cryptos.LawfulEncoder(c) && s.mode.Serving? && id in s.mode.uploads
  {
    var live := s.mode.uploads[id];
    match move
    case Feed(chunk) =>
      Uploading(s, id) && live.state.Receiving? && live.inflight == [] && live.state.narSize + |chunk| < U64_LIMIT
    case Drain => Uploading(s, id) && live.state.Receiving? && live.inflight == []
    case Write(count) => Uploading(s, id) && count <= |live.inflight|
    case Flush =>
      Uploading(s, id) && live.state.Receiving? && live.inflight == []
      && |Content(s.disk, live.inode)| + |Tail(c, live.state.encoder)| < U64_LIMIT
    case Verify =>
      Uploading(s, id) && live.state.Compressed? && live.inflight == [] && Gate(live.state, live.expected).Ok?
    case Rename =>
      Uploading(s, id) && live.state.Verified? && live.inflight == []
      && NameOf(s.mode.pid, id) in s.disk.staging
    case PutNar => live.committed && live.state.Verified?
    case Abandon(unlinks) => unlinks ==> !live.committed
  }

  ghost predicate Enabled(c: Cryptos.Crypto, dir: StorePaths.Dir, s: State, step: Step)
    requires Cryptos.LawfulEncoder(c)
  {
    match step
    case Boot(_, _) => s.mode.Down?
    case Sweep(name) => s.mode.Booting? && name in s.disk.staging
    case Listen => s.mode.Booting? && s.disk.staging == map[]
    case Stage(inode, _) =>
      s.mode.Serving? && NameFree(s.mode.uploads, s.mode.sequence)
      && Opens(s.disk, NameOf(s.mode.pid, s.mode.sequence), inode)
    case StageFails => s.mode.Serving?
    case Upload(id, move) => s.mode.Serving? && id in s.mode.uploads && MoveEnabled(c, s, id, move)
    case ReadRow(_, body) => s.mode.Serving? && Ingests.Prepared(c, dir, s.mode.key, s.tables, body).Ok?
    case Publish(id) => s.mode.Serving? && id in s.mode.publishes
    case Forget(id) => s.mode.Serving? && id in s.mode.publishes
    case Crash => !s.mode.Down?
    case Delete(_) => s.mode.Down?
    case Rotate(_, keys, rows) => s.mode.Down? && IndexTables.Lists(s.tables, keys, rows)
    case Batch => s.mode.Rotating? && s.mode.todo != []
    case Rotated => s.mode.Rotating? && s.mode.todo == []
  }

  ghost function WithUpload(s: State, id: nat, live: Live): State
    requires s.mode.Serving?
  {
    s.(mode := s.mode.(uploads := s.mode.uploads[id := live]))
  }

  ghost function Moved(c: Cryptos.Crypto, s: State, id: nat, move: Move): State
    requires Cryptos.LawfulEncoder(c) && s.mode.Serving? && id in s.mode.uploads && MoveEnabled(c, s, id, move)
  {
    match move
    case Feed(chunk) => FedSome(c, s, id, chunk)
    case Drain => DrainedSome(s, id)
    case Write(count) => WroteSome(s, id, count)
    case Flush => FlushedAll(c, s, id)
    case Verify => Gated(s, id)
    case Rename => Committed(s, id)
    case PutNar => Recorded(s, id)
    case Abandon(unlinks) => Abandoned(s, id, unlinks)
  }

  ghost function After(c: Cryptos.Crypto, dir: StorePaths.Dir, s: State, step: Step): State
    requires Cryptos.LawfulEncoder(c) && Enabled(c, dir, s, step)
  {
    match step
    case Boot(pid, key) => s.(mode := Booting(pid, key))
    case Sweep(name) => s.(disk := Unlinked(s.disk, name))
    case Listen => s.(mode := Serving(s.mode.pid, s.mode.key, 0, map[], map[]))
    case Stage(inode, expected) => Staged(s, inode, expected)
    case StageFails => s.(mode := s.mode.(sequence := s.mode.sequence + 1))
    case Upload(id, move) => Moved(c, s, id, move)
    case ReadRow(id, body) =>
      Prepared(s, id, Ingests.Prepared(c, dir, s.mode.key, s.tables, body).value)
    case Publish(id) => Published(s, id)
    case Forget(id) => Forgotten(s, id)
    case Crash => s.(mode := Down)
    case Delete(hash) => s.(tables := IndexTables.Unpublish(s.tables, hash))
    case Rotate(key, _, rows) => s.(mode := Rotating(key, IndexTables.ResignAll(c, rows, dir, key)))
    case Batch => Batched(s)
    case Rotated => s.(mode := Down)
  }

  ghost function Staged(s: State, inode: nat, expected: Digests.Digest): State
    requires s.mode.Serving?
  {
    var id := s.mode.sequence;
    s.(disk := Created(s.disk, NameOf(s.mode.pid, id), inode),
       mode := s.mode.(
         sequence := id + 1,
         uploads := s.mode.uploads[id := Live(inode, expected, FRESH, [], [], false)]))
  }

  ghost function FedSome(c: Cryptos.Crypto, s: State, id: nat, chunk: seq<byte>): State
    requires Cryptos.LawfulEncoder(c) && Uploading(s, id) && s.mode.uploads[id].state.Receiving?
    requires s.mode.uploads[id].state.narSize + |chunk| < U64_LIMIT
  {
    var live := s.mode.uploads[id];
    WithUpload(s, id, live.(state := Fed(c, live.state, chunk), received := live.received + [chunk]))
  }

  ghost function DrainedSome(s: State, id: nat): State
    requires Uploading(s, id) && s.mode.uploads[id].state.Receiving?
  {
    var live := s.mode.uploads[id];
    WithUpload(s, id, live.(state := Drained(live.state), inflight := live.state.encoder.buffer))
  }

  ghost function FlushedAll(c: Cryptos.Crypto, s: State, id: nat): State
    requires Cryptos.LawfulEncoder(c) && Uploading(s, id) && s.mode.uploads[id].state.Receiving?
    requires |Content(s.disk, s.mode.uploads[id].inode)| + |Tail(c, s.mode.uploads[id].state.encoder)| < U64_LIMIT
  {
    var live := s.mode.uploads[id];
    var tail := Tail(c, live.state.encoder);
    WithUpload(s, id, live.(state := Flushed(c, live.state, |Content(s.disk, live.inode)| + |tail|), inflight := tail))
  }

  ghost function Gated(s: State, id: nat): State
    requires Uploading(s, id) && s.mode.uploads[id].state.Compressed?
    requires Gate(s.mode.uploads[id].state, s.mode.uploads[id].expected).Ok?
  {
    var live := s.mode.uploads[id];
    WithUpload(s, id, live.(state := Gate(live.state, live.expected).value))
  }

  ghost function Recorded(s: State, id: nat): State
    requires s.mode.Serving? && id in s.mode.uploads && s.mode.uploads[id].state.Verified?
  {
    var state := s.mode.uploads[id].state;
    s.(tables := IndexTables.PutNar(s.tables, state.narHash, EntryOf(state)),
       mode := s.mode.(uploads := s.mode.uploads - {id}))
  }

  ghost function Abandoned(s: State, id: nat, unlinks: bool): State
    requires s.mode.Serving?
  {
    s.(disk := if unlinks then Unlinked(s.disk, NameOf(s.mode.pid, id)) else s.disk,
       mode := s.mode.(uploads := s.mode.uploads - {id}))
  }

  /** Some of the bytes in flight reach the file at its end. */
  ghost function WroteSome(s: State, id: nat, count: nat): State
    requires Uploading(s, id) && count <= |s.mode.uploads[id].inflight|
  {
    var live := s.mode.uploads[id];
    WithUpload(
      s.(disk := Written(s.disk, live.inode, |Content(s.disk, live.inode)|, live.inflight[..count])),
      id, live.(inflight := live.inflight[count..]))
  }

  ghost function Committed(s: State, id: nat): State
    requires Uploading(s, id) && s.mode.uploads[id].state.Verified?
    requires NameOf(s.mode.pid, id) in s.disk.staging
  {
    var live := s.mode.uploads[id];
    var name := NameOf(s.mode.pid, id);
    WithUpload(
      s.(disk := Renamed(s.disk, name, LocationOf(IndexTables.Url(EntryOf(live.state)))),
         ledger := s.ledger + {Content(s.disk, s.disk.staging[name])}),
      id, live.(committed := true))
  }

  ghost function Prepared(s: State, id: nat, record: NarInfos.NarInfo): State
    requires s.mode.Serving?
  {
    s.(mode := s.mode.(publishes := s.mode.publishes[id := record]))
  }

  ghost function Published(s: State, id: nat): State
    requires s.mode.Serving? && id in s.mode.publishes
  {
    var record := s.mode.publishes[id];
    s.(tables := IndexTables.Publish(s.tables, record),
       mode := s.mode.(publishes := s.mode.publishes - {id}),
       signers := s.signers[record.storePath.hash := s.mode.key])
  }

  ghost function Forgotten(s: State, id: nat): State
    requires s.mode.Serving?
  {
    s.(mode := s.mode.(publishes := s.mode.publishes - {id}))
  }

  ghost function Batched(s: State): State
    requires s.mode.Rotating? && s.mode.todo != []
  {
    var end := Maintain.BatchEnd(0, |s.mode.todo|);
    s.(tables := IndexTables.Republish(s.tables, s.mode.todo[..end]),
       mode := s.mode.(todo := s.mode.todo[end..]),
       signers := SignedOver(s.signers, s.mode.todo[..end], s.mode.key))
  }

  ghost function SignedOver(
      signers: map<StorePaths.Hash, Cryptos.SecretKey>, rows: seq<NarInfos.NarInfo>, key: Cryptos.SecretKey)
      : map<StorePaths.Hash, Cryptos.SecretKey>
  {
    if rows == [] then signers
    else SignedOver(signers, rows[..|rows| - 1], key)[rows[|rows| - 1].storePath.hash := key]
  }

  // ----- What holds in every state -----

  /** The bytes a row points at are there and are what the row says they are. */
  ghost predicate RowHolds(c: Cryptos.Crypto, disk: Disk, narHash: Digests.Digest, entry: IndexTables.Entry) {
    && Artifact(disk, IndexTables.Url(entry)).Some?
    && Describes(c, Artifact(disk, IndexTables.Url(entry)).value, narHash, entry)
  }

  ghost predicate RecordHolds(
      c: Cryptos.Crypto, dir: StorePaths.Dir, disk: Disk, record: NarInfos.NarInfo, key: Cryptos.SecretKey)
  {
    && RowHolds(c, disk, record.narHash, Ingests.EntryNamed(record))
    && Fingerprints.SignedBy(c, record, dir, key)
  }

  /** A file under `nar/` sits at the location its own bytes name and was committed by an upload. */
  ghost predicate Genuine(c: Cryptos.Crypto, content: seq<byte>, ledger: set<seq<byte>>, location: Location) {
    && content in ledger
    && NarUrls.Parse(location.name).Ok?
    && LocationOf(NarUrls.Parse(location.name).value) == location
    && NarUrls.Parse(location.name).value == NarUrls.NarUrl(c.sha(content), STORED_AS)
  }

  ghost predicate DiskOk(c: Cryptos.Crypto, disk: Disk, ledger: set<seq<byte>>) {
    && (forall name <- disk.staging :: disk.staging[name] in disk.inodes)
    && (forall location <- disk.artifacts :: disk.artifacts[location] in disk.inodes)
    && (forall a, b | a in disk.staging && b in disk.staging :: a != b ==> disk.staging[a] != disk.staging[b])
    && (forall name, location | name in disk.staging && location in disk.artifacts ::
          disk.staging[name] != disk.artifacts[location])
    && (forall location <- disk.artifacts ::
          Genuine(c, Content(disk, disk.artifacts[location]), ledger, location))
  }

  /** Only non-empty NARs that passed verification were ever committed. */
  ghost predicate LedgerOk(c: Cryptos.Crypto, ledger: set<seq<byte>>) {
    forall content <- ledger :: c.inflate(content).Some? && c.inflate(content).value != []
  }

  ghost predicate RowsOk(
      c: Cryptos.Crypto, dir: StorePaths.Dir, disk: Disk, tables: IndexTables.Tables,
      signers: map<StorePaths.Hash, Cryptos.SecretKey>)
  {
    && IndexTables.Keyed(tables)
    && (forall narHash <- tables.nar :: RowHolds(c, disk, narHash, tables.nar[narHash]))
    && (forall hash <- tables.narinfo ::
          hash in signers && RecordHolds(c, dir, disk, tables.narinfo[hash], signers[hash]))
  }

  ghost predicate LiveOk(c: Cryptos.Crypto, disk: Disk, pid: nat, id: nat, live: Live) {
    (live.state.Verified? ==> live.state.narHash == live.expected) &&
    if live.committed then
      live.state.Verified? && RowHolds(c, disk, live.state.narHash, EntryOf(live.state))
    else
      && NameOf(pid, id) in disk.staging
      && disk.staging[NameOf(pid, id)] == live.inode
      && Tracks(c, live.state, live.received, Content(disk, live.inode) + live.inflight)
  }

  /** Uploads that are still writing stage under different names. */
  ghost predicate NamesApart(uploads: map<nat, Live>) {
    forall a, b | a in uploads && b in uploads && a != b && !uploads[a].committed && !uploads[b].committed ::
      Ordinal(a) != Ordinal(b)
  }

  ghost predicate ServingOk(
      c: Cryptos.Crypto, dir: StorePaths.Dir, disk: Disk, pid: nat, key: Cryptos.SecretKey, sequence: nat,
      uploads: map<nat, Live>, publishes: map<nat, NarInfos.NarInfo>)
  {
    && (forall id <- uploads :: id < sequence && LiveOk(c, disk, pid, id, uploads[id]))
    && NamesApart(uploads)
    && (forall id <- publishes :: RecordHolds(c, dir, disk, publishes[id], key))
  }

  ghost predicate RotatingOk(
      c: Cryptos.Crypto, dir: StorePaths.Dir, tables: IndexTables.Tables,
      signers: map<StorePaths.Hash, Cryptos.SecretKey>, key: Cryptos.SecretKey, todo: seq<NarInfos.NarInfo>)
  {
    && (forall row <- todo ::
          && row.storePath.hash in tables.narinfo
          && IndexTables.SamePayload(row, tables.narinfo[row.storePath.hash])
          && Fingerprints.SignedBy(c, row, dir, key))
    && (forall hash <- tables.narinfo ::
          (hash in signers && signers[hash] == key) || exists row :: row in todo && row.storePath.hash == hash)
  }

  ghost predicate ModeOk(c: Cryptos.Crypto, dir: StorePaths.Dir, s: State) {
    match s.mode
    case Down => true
    case Booting(_, _) => true
    case Serving(pid, key, sequence, uploads, publishes) =>
      ServingOk(c, dir, s.disk, pid, key, sequence, uploads, publishes)
    case Rotating(key, todo) => RotatingOk(c, dir, s.tables, s.signers, key, todo)
  }

  ghost predicate Inv(c: Cryptos.Crypto, dir: StorePaths.Dir, s: State) {
    && DiskOk(c, s.disk, s.ledger)
    && LedgerOk(c, s.ledger)
    && RowsOk(c, dir, s.disk, s.tables, s.signers)
    && ModeOk(c, dir, s)
  }

  ghost predicate Lawful(c: Cryptos.Crypto) {
    Cryptos.LawfulEncoder(c) && Cryptos.LawfulSigner(c)
  }

  // ----- What an effect on the disk keeps -----

  /** Every artifact is still there with the same bytes. */
  ghost predicate Kept(before: Disk, after: Disk) {
    forall location <- before.artifacts ::
      && location in after.artifacts
      && Content(after, after.artifacts[location]) == Content(before, before.artifacts[location])
  }

  /** The file behind a staging name is untouched. */
  ghost predicate SameFile(before: Disk, after: Disk, name: string) {
    name in before.staging ==>
      && name in after.staging
      && after.staging[name] == before.staging[name]
      && Content(after, after.staging[name]) == Content(before, before.staging[name])
  }

  lemma UnlinkedKeeps(c: Cryptos.Crypto, disk: Disk, ledger: set<seq<byte>>, name: string)
    requires DiskOk(c, disk, ledger)
    ensures DiskOk(c, Unlinked(disk, name), ledger) && Kept(disk, Unlinked(disk, name))
    ensures forall other: string | other != name :: SameFile(disk, Unlinked(disk, name), other)
  {
    hide Genuine;
  }

  lemma CreatedKeeps(c: Cryptos.Crypto, disk: Disk, ledger: set<seq<byte>>, name: string, inode: nat)
    requires DiskOk(c, disk, ledger) && Opens(disk, name, inode)
    ensures var after := Created(disk, name, inode);
            && DiskOk(c, after, ledger) && Kept(disk, after)
            && after.staging == disk.staging[name := inode] && Content(after, inode) == []
            && forall other: string | other != name :: SameFile(disk, after, other)
  {
    hide Genuine;
    if name in disk.staging {
      assert disk.staging[name := inode] == disk.staging;
    }
  }

  lemma WrittenKeeps(c: Cryptos.Crypto, disk: Disk, ledger: set<seq<byte>>, name: string, bytes: seq<byte>)
    requires DiskOk(c, disk, ledger) && name in disk.staging
    ensures var inode := disk.staging[name];
            var after := Written(disk, inode, |Content(disk, inode)|, bytes);
            && DiskOk(c, after, ledger) && Kept(disk, after) && after.staging == disk.staging
            && Content(after, inode) == Content(disk, inode) + bytes
            && forall other: string | other != name :: SameFile(disk, after, other)
  {
    hide Genuine, Spliced;
    WrittenAppends(disk, disk.staging[name], bytes);
  }

  /**
   The rename. A location that was already taken held the same bytes, since its name is their hash;
   this is the one place that needs SHA-256 not to collide, on contents that were really committed.
   */
  lemma RenamedKeeps(
      c: Cryptos.Crypto, disk: Disk, ledger: set<seq<byte>>, name: string, url: NarUrls.NarUrl)
    requires DiskOk(c, disk, ledger) && name in disk.staging
    requires url == NarUrls.NarUrl(c.sha(Content(disk, disk.staging[name])), STORED_AS)
    requires Cryptos.CollisionFree(c, ledger + {Content(disk, disk.staging[name])})
    ensures var after := Renamed(disk, name, LocationOf(url));
            && DiskOk(c, after, ledger + {Content(disk, disk.staging[name])})
            && Kept(disk, after)
            && Artifact(after, url) == Some(Content(disk, disk.staging[name]))
            && forall other: string | other != name :: SameFile(disk, after, other)
  {
    hide NarUrls.Parse, NarUrls.Name, LocationOf;
    var content := Content(disk, disk.staging[name]);
    var location := LocationOf(url);
    var after := Renamed(disk, name, location);
    RenamedGenuine(c, content, ledger, url);
    GenuineGrows(c, disk, ledger, content);
    if location in disk.artifacts {
      SameBytes(c, Content(disk, disk.artifacts[location]), content, ledger, location);
    }
  }

  lemma RenamedGenuine(c: Cryptos.Crypto, content: seq<byte>, ledger: set<seq<byte>>, url: NarUrls.NarUrl)
    requires url == NarUrls.NarUrl(c.sha(content), STORED_AS)
    ensures Genuine(c, content, ledger + {content}, LocationOf(url))
  {
    hide NarUrls.Parse;
    NarUrls.ParseOfName(url);
    assert LocationOf(url).name == NarUrls.Name(url);
  }

  lemma GenuineGrows(c: Cryptos.Crypto, disk: Disk, ledger: set<seq<byte>>, content: seq<byte>)
    requires DiskOk(c, disk, ledger)
    ensures DiskOk(c, disk, ledger + {content})
  {
    hide NarUrls.Parse, LocationOf;
    assert ledger <= ledger + {content};
  }

  lemma SameBytes(
      c: Cryptos.Crypto, older: seq<byte>, newer: seq<byte>, ledger: set<seq<byte>>, location: Location)
    requires Genuine(c, older, ledger, location)
    requires Genuine(c, newer, ledger + {newer}, location)
    requires Cryptos.CollisionFree(c, ledger + {newer})
    ensures older == newer
  {
    hide NarUrls.Parse, LocationOf;
    assert c.sha(older) == c.sha(newer);
    assert older in ledger + {newer} && newer in ledger + {newer};
  }

  // ----- What keeping the artifacts keeps -----

  lemma RowKept(c: Cryptos.Crypto, before: Disk, after: Disk, narHash: Digests.Digest, entry: IndexTables.Entry)
    requires Kept(before, after) && RowHolds(c, before, narHash, entry)
    ensures RowHolds(c, after, narHash, entry)
    ensures Artifact(after, IndexTables.Url(entry)) == Artifact(before, IndexTables.Url(entry))
  {
    hide Describes, LocationOf;
  }

  lemma RecordKept(
      c: Cryptos.Crypto, dir: StorePaths.Dir, before: Disk, after: Disk,
      record: NarInfos.NarInfo, key: Cryptos.SecretKey)
    requires Kept(before, after) && RecordHolds(c, dir, before, record, key)
    ensures RecordHolds(c, dir, after, record, key)
  {
    hide RowHolds, Kept, Fingerprints.SignedBy;
    RowKept(c, before, after, record.narHash, Ingests.EntryNamed(record));
  }

  lemma RowsKept(
      c: Cryptos.Crypto, dir: StorePaths.Dir, before: Disk, after: Disk, tables: IndexTables.Tables,
      signers: map<StorePaths.Hash, Cryptos.SecretKey>)
    requires Kept(before, after) && RowsOk(c, dir, before, tables, signers)
    ensures RowsOk(c, dir, after, tables, signers)
  {
    hide Kept, RowHolds, RecordHolds, IndexTables.Keyed;
    forall narHash | narHash in tables.nar
      ensures RowHolds(c, after, narHash, tables.nar[narHash])
    {
      RowKept(c, before, after, narHash, tables.nar[narHash]);
    }
    forall hash | hash in tables.narinfo
      ensures RecordHolds(c, dir, after, tables.narinfo[hash], signers[hash])
    {
      RecordKept(c, dir, before, after, tables.narinfo[hash], signers[hash]);
    }
  }

  lemma LiveKept(c: Cryptos.Crypto, before: Disk, after: Disk, pid: nat, id: nat, live: Live)
    requires Kept(before, after) && LiveOk(c, before, pid, id, live)
    requires live.committed || SameFile(before, after, NameOf(pid, id))
    ensures LiveOk(c, after, pid, id, live)
  {
    hide Kept, RowHolds, Tracks;
    if live.committed {
      RowKept(c, before, after, live.state.narHash, EntryOf(live.state));
    }
  }

  // ----- Steps of a serving process -----

  /** One upload moved on; every other file is as it was. */
  lemma OtherUploadsKept(
      c: Cryptos.Crypto, dir: StorePaths.Dir, before: Disk, after: Disk, pid: nat, key: Cryptos.SecretKey,
      sequence: nat, uploads: map<nat, Live>, publishes: map<nat, NarInfos.NarInfo>, id: nat)
    requires ServingOk(c, dir, before, pid, key, sequence, uploads, publishes)
    requires Kept(before, after) && NameFree(uploads - {id}, id)
    requires forall other: string | other != NameOf(pid, id) :: SameFile(before, after, other)
    ensures ServingOk(c, dir, after, pid, key, sequence, uploads - {id}, publishes)
  {
    hide Kept, SameFile, LiveOk, RecordHolds, Ordinal, Stores.StagingName;
    forall other | other in uploads - {id}
      ensures LiveOk(c, after, pid, other, uploads[other])
    {
      if NameOf(pid, other) == NameOf(pid, id) {
        Stores.StagingNameInjective(pid, Ordinal(other), Ordinal(id));
        assert (uploads - {id})[other] == uploads[other];
      }
      LiveKept(c, before, after, pid, other, uploads[other]);
    }
    forall publish | publish in publishes
      ensures RecordHolds(c, dir, after, publishes[publish], key)
    {
      RecordKept(c, dir, before, after, publishes[publish], key);
    }
  }

  /** Losing an upload that changed nothing on disk. */
  lemma UploadGone(
      c: Cryptos.Crypto, dir: StorePaths.Dir, disk: Disk, pid: nat, key: Cryptos.SecretKey,
      sequence: nat, uploads: map<nat, Live>, publishes: map<nat, NarInfos.NarInfo>, id: nat)
    requires ServingOk(c, dir, disk, pid, key, sequence, uploads, publishes)
    ensures ServingOk(c, dir, disk, pid, key, sequence, uploads - {id}, publishes)
  {
    hide LiveOk, RecordHolds, Ordinal;
    assert forall other :: other in uploads - {id} ==> other in uploads && (uploads - {id})[other] == uploads[other];
  }

  lemma OwnNameFree(uploads: map<nat, Live>, id: nat)
    requires NamesApart(uploads) && id in uploads && !uploads[id].committed
    ensures NameFree(uploads - {id}, id)
  {
    hide Ordinal;
  }

  lemma UploadBack(
      c: Cryptos.Crypto, dir: StorePaths.Dir, disk: Disk, pid: nat, key: Cryptos.SecretKey,
      sequence: nat, uploads: map<nat, Live>, publishes: map<nat, NarInfos.NarInfo>, id: nat, live: Live)
    requires ServingOk(c, dir, disk, pid, key, sequence, uploads - {id}, publishes)
    requires id < sequence && LiveOk(c, disk, pid, id, live)
    requires !live.committed ==> NameFree(uploads - {id}, id)
    ensures ServingOk(c, dir, disk, pid, key, sequence, uploads[id := live], publishes)
  {
    hide LiveOk, RecordHolds, NameOf, Ordinal;
    var all := uploads[id := live];
    assert forall other :: other in uploads && other != id ==> (uploads - {id})[other] == uploads[other];
    assert NamesApart(all);
    forall other | other in all
      ensures other < sequence && LiveOk(c, disk, pid, other, all[other])
    {
      assert other != id ==> other in uploads - {id} && (uploads - {id})[other] == uploads[other];
    }
  }

  /** The invariant after an upload's own step, from what that step did to the disk and to the upload. */
  lemma UploadMoved(c: Cryptos.Crypto, dir: StorePaths.Dir, s: State, t: State, id: nat)
    requires Inv(c, dir, s) && Uploading(s, id)
    requires t.tables == s.tables && t.signers == s.signers && t.mode.Serving?
    requires id in t.mode.uploads && t.mode == s.mode.(uploads := s.mode.uploads[id := t.mode.uploads[id]])
    requires DiskOk(c, t.disk, t.ledger) && LedgerOk(c, t.ledger) && Kept(s.disk, t.disk)
    requires forall other: string | other != NameOf(s.mode.pid, id) :: SameFile(s.disk, t.disk, other)
    requires LiveOk(c, t.disk, s.mode.pid, id, t.mode.uploads[id])
    ensures Inv(c, dir, t)
  {
    hide DiskOk, LedgerOk, RowsOk, ServingOk, Kept, SameFile, LiveOk, NameOf;
    UploadOrdinal(c, dir, s, id);
    hide NameFree, NamesApart;
    OwnNameFree(s.mode.uploads, id);
    RowsKept(c, dir, s.disk, t.disk, s.tables, s.signers);
    OtherUploadsKept(c, dir, s.disk, t.disk, s.mode.pid, s.mode.key, s.mode.sequence,
                     s.mode.uploads, s.mode.publishes, id);
    UploadBack(c, dir, t.disk, s.mode.pid, s.mode.key, s.mode.sequence,
               s.mode.uploads, s.mode.publishes, id, t.mode.uploads[id]);
  }

  lemma UploadOrdinal(c: Cryptos.Crypto, dir: StorePaths.Dir, s: State, id: nat)
    requires Inv(c, dir, s) && s.mode.Serving? && id in s.mode.uploads
    ensures id < s.mode.sequence && LiveOk(c, s.disk, s.mode.pid, id, s.mode.uploads[id])
    ensures NamesApart(s.mode.uploads)
  {
    hide DiskOk, LedgerOk, RowsOk, LiveOk, NameOf;
  }

  lemma UploadTracks(c: Cryptos.Crypto, dir: StorePaths.Dir, s: State, id: nat)
    requires Inv(c, dir, s) && Uploading(s, id)
    ensures var live := s.mode.uploads[id];
            && Tracks(c, live.state, live.received, Content(s.disk, live.inode) + live.inflight)
            && (live.state.Verified? ==> live.state.narHash == live.expected)
            && (live.inflight == [] ==> Tracks(c, live.state, live.received, Content(s.disk, live.inode)))
  {
    var live := s.mode.uploads[id];
    hide Inv, Tracks, NameOf;
    UploadOrdinal(c, dir, s, id);
    assert Content(s.disk, live.inode) + [] == Content(s.disk, live.inode);
  }

  /** Steps that only change what an upload holds in memory. */
  lemma MemoryStep(c: Cryptos.Crypto, dir: StorePaths.Dir, s: State, id: nat, live: Live)
    requires Inv(c, dir, s) && Uploading(s, id)
    requires live.inode == s.mode.uploads[id].inode && !live.committed
    requires live.state.Verified? ==> live.state.narHash == live.expected
    requires Tracks(c, live.state, live.received, Content(s.disk, live.inode) + live.inflight)
    ensures Inv(c, dir, WithUpload(s, id, live))
  {
    UploadOrdinal(c, dir, s, id);
    hide Inv, Kept, SameFile, Tracks, NameOf;
    SameDisk(s.disk);
    InvParts(c, dir, s);
    UploadMoved(c, dir, s, WithUpload(s, id, live), id);
  }

  lemma FeedStep(c: Cryptos.Crypto, dir: StorePaths.Dir, s: State, id: nat, chunk: seq<byte>)
    requires Lawful(c) && Inv(c, dir, s) && Uploading(s, id) && s.mode.uploads[id].state.Receiving?
    requires s.mode.uploads[id].state.narSize + |chunk| < U64_LIMIT
    ensures Inv(c, dir, FedSome(c, s, id, chunk))
  {
    hide Inv, Tracks;
    var live := s.mode.uploads[id];
    UploadTracks(c, dir, s, id);
    FedTracks(c, live.state, live.received, Content(s.disk, live.inode) + live.inflight, chunk);
    MemoryStep(c, dir, s, id, live.(state := Fed(c, live.state, chunk), received := live.received + [chunk]));
  }

  lemma DrainStep(c: Cryptos.Crypto, dir: StorePaths.Dir, s: State, id: nat)
    requires Lawful(c) && Inv(c, dir, s) && Uploading(s, id) && s.mode.uploads[id].state.Receiving?
    requires s.mode.uploads[id].inflight == []
    ensures Inv(c, dir, DrainedSome(s, id))
  {
    hide Inv, Tracks;
    var live := s.mode.uploads[id];
    var stored := Content(s.disk, live.inode);
    UploadTracks(c, dir, s, id);
    DrainedTracks(c, live.state, live.received, stored);
    MemoryStep(c, dir, s, id, live.(state := Drained(live.state), inflight := live.state.encoder.buffer));
  }

  lemma FlushStep(c: Cryptos.Crypto, dir: StorePaths.Dir, s: State, id: nat)
    requires Lawful(c) && Inv(c, dir, s) && Uploading(s, id) && s.mode.uploads[id].state.Receiving?
    requires s.mode.uploads[id].inflight == []
    requires |Content(s.disk, s.mode.uploads[id].inode)| + |Tail(c, s.mode.uploads[id].state.encoder)| < U64_LIMIT
    ensures Inv(c, dir, FlushedAll(c, s, id))
  {
    hide Inv, Tracks, Tail, Content, Cryptos.LawfulEncoder, Cryptos.LawfulSigner;
    var live := s.mode.uploads[id];
    var stored := Content(s.disk, live.inode);
    var tail := Tail(c, live.state.encoder);
    UploadTracks(c, dir, s, id);
    FlushedTracks(c, live.state, live.received, stored);
    MemoryStep(c, dir, s, id, live.(state := Flushed(c, live.state, |stored| + |tail|), inflight := tail));
  }

  lemma VerifyStep(c: Cryptos.Crypto, dir: StorePaths.Dir, s: State, id: nat)
    requires Lawful(c) && Inv(c, dir, s) && Uploading(s, id) && s.mode.uploads[id].state.Compressed?
    requires Gate(s.mode.uploads[id].state, s.mode.uploads[id].expected).Ok?
    ensures Inv(c, dir, Gated(s, id))
  {
    hide Inv, Tracks;
    var live := s.mode.uploads[id];
    UploadTracks(c, dir, s, id);
    assert Gate(live.state, live.expected).value.narHash == live.expected;
    GateTracks(c, live.state, live.received, Content(s.disk, live.inode) + live.inflight, live.expected);
    MemoryStep(c, dir, s, id, live.(state := Gate(live.state, live.expected).value));
  }

  lemma SameDisk(disk: Disk)
    ensures Kept(disk, disk) && forall name: string :: SameFile(disk, disk, name)
  {
  }

  lemma InvParts(c: Cryptos.Crypto, dir: StorePaths.Dir, s: State)
    requires Inv(c, dir, s)
    ensures DiskOk(c, s.disk, s.ledger) && LedgerOk(c, s.ledger)
    ensures RowsOk(c, dir, s.disk, s.tables, s.signers) && ModeOk(c, dir, s)
  {
  }

  lemma WrittenLive(c: Cryptos.Crypto, before: Disk, after: Disk, pid: nat, id: nat, live: Live, count: nat)
    requires LiveOk(c, before, pid, id, live) && !live.committed && count <= |live.inflight|
    requires after.staging == before.staging
    requires Content(after, live.inode) == Content(before, live.inode) + live.inflight[..count]
    ensures LiveOk(c, after, pid, id, live.(inflight := live.inflight[count..]))
  {
    var stored := Content(before, live.inode);
    assert stored + live.inflight == stored + live.inflight[..count] + live.inflight[count..];
    hide Tracks, Content, NameOf;
  }

  lemma WriteStep(c: Cryptos.Crypto, dir: StorePaths.Dir, s: State, id: nat, count: nat)
    requires Lawful(c) && Inv(c, dir, s) && Uploading(s, id) && count <= |s.mode.uploads[id].inflight|
    ensures Inv(c, dir, WroteSome(s, id, count)) && Kept(s.disk, WroteSome(s, id, count).disk)
  {
    var live := s.mode.uploads[id];
    var name := NameOf(s.mode.pid, id);
    var t := WroteSome(s, id, count);
    UploadOrdinal(c, dir, s, id);
    InvParts(c, dir, s);
    hide Inv, DiskOk, LedgerOk, RowsOk, Kept, SameFile, Tracks, Written, NameOf;
    assert s.disk.staging[name] == live.inode;
    WrittenKeeps(c, s.disk, s.ledger, name, live.inflight[..count]);
    WrittenLive(c, s.disk, t.disk, s.mode.pid, id, live, count);
    UploadMoved(c, dir, s, t, id);
  }

  lemma RenameStep(c: Cryptos.Crypto, dir: StorePaths.Dir, s: State, id: nat)
    requires Lawful(c) && Inv(c, dir, s) && Uploading(s, id) && s.mode.uploads[id].state.Verified?
    requires s.mode.uploads[id].inflight == [] && NameOf(s.mode.pid, id) in s.disk.staging
    requires Cryptos.CollisionFree(c, Committed(s, id).ledger)
    ensures Inv(c, dir, Committed(s, id)) && Kept(s.disk, Committed(s, id).disk)
  {
    var live := s.mode.uploads[id];
    var name := NameOf(s.mode.pid, id);
    var stored := Content(s.disk, live.inode);
    UploadOrdinal(c, dir, s, id);
    InvParts(c, dir, s);
    assert stored + [] == stored && s.disk.staging[name] == live.inode;
    VerifiedDescribes(c, live.state, live.received, stored);
    LedgerGrows(c, s.ledger, stored, live);
    assert IndexTables.Url(EntryOf(live.state)) == NarUrls.NarUrl(c.sha(stored), STORED_AS);
    hide Inv, DiskOk, LedgerOk, RowsOk, Kept, SameFile, Tracks, Describes, Renamed, LocationOf, NameOf,
         Cryptos.CollisionFree;
    RenamedKeeps(c, s.disk, s.ledger, name, IndexTables.Url(EntryOf(live.state)));
    UploadMoved(c, dir, s, Committed(s, id), id);
  }

  lemma LedgerGrows(c: Cryptos.Crypto, ledger: set<seq<byte>>, stored: seq<byte>, live: Live)
    requires Lawful(c) && LedgerOk(c, ledger) && live.state.Verified?
    requires Tracks(c, live.state, live.received, stored)
    ensures LedgerOk(c, ledger + {stored})
  {
  }

  /**
   A new upload stages under a name no upload is still writing to, so what its create truncates, if
   anything, is a file nobody has open.
   */
  lemma StageStep(c: Cryptos.Crypto, dir: StorePaths.Dir, s: State, inode: nat, expected: Digests.Digest)
    requires Lawful(c) && Inv(c, dir, s) && s.mode.Serving? && NameFree(s.mode.uploads, s.mode.sequence)
    requires Opens(s.disk, NameOf(s.mode.pid, s.mode.sequence), inode)
    ensures Inv(c, dir, Staged(s, inode, expected)) && Kept(s.disk, Staged(s, inode, expected).disk)
    ensures forall id | Uploading(s, id) ::
      SameFile(s.disk, Staged(s, inode, expected).disk, NameOf(s.mode.pid, id))
  {
    var pid, id := s.mode.pid, s.mode.sequence;
    var name := NameOf(pid, id);
    var t := Staged(s, inode, expected);
    InvParts(c, dir, s);
    NumberUnused(c, dir, s.disk, pid, s.mode.key, id, s.mode.uploads, s.mode.publishes);
    FreshTracks(c);
    hide Inv, DiskOk, LedgerOk, RowsOk, Kept, SameFile, Created, NameFree, Ordinal, Opens, NameOf, Tracks;
    CreatedKeeps(c, s.disk, s.ledger, name, inode);
    RowsKept(c, dir, s.disk, t.disk, s.tables, s.signers);
    NextNumber(c, dir, s.disk, pid, s.mode.key, id, s.mode.uploads, s.mode.publishes);
    assert s.mode.uploads - {id} == s.mode.uploads;
    hide ServingOk;
    OtherUploadsKept(c, dir, s.disk, t.disk, pid, s.mode.key, id + 1, s.mode.uploads, s.mode.publishes, id);
    StagedBack(c, dir, s, t, Live(inode, expected, FRESH, [], [], false));
    forall other | Uploading(s, other)
      ensures SameFile(s.disk, t.disk, NameOf(pid, other))
    {
      FreeNameDiffers(s.mode.uploads, pid, other, id);
    }
  }

  lemma FreeNameDiffers(uploads: map<nat, Live>, pid: nat, other: nat, id: nat)
    requires NameFree(uploads, id) && other in uploads && !uploads[other].committed
    ensures NameOf(pid, other) != NameOf(pid, id)
  {
    hide Stores.StagingName, Ordinal;
    if NameOf(pid, other) == NameOf(pid, id) {
      Stores.StagingNameInjective(pid, Ordinal(other), Ordinal(id));
    }
  }

  /**
   The condition is needed: were an upload still writing under the name the wrapped counter comes back
   to, the create would empty its file.
   */
  lemma WrappedNameTruncates(c: Cryptos.Crypto, dir: StorePaths.Dir, s: State, id: nat, inode: nat)
    requires Inv(c, dir, s) && Uploading(s, id) && Ordinal(s.mode.sequence) == Ordinal(id)
    ensures Content(Created(s.disk, NameOf(s.mode.pid, s.mode.sequence), inode), s.mode.uploads[id].inode) == []
  {
    hide Stores.StagingName, Ordinal;
    UploadOrdinal(c, dir, s, id);
  }

  lemma StagedBack(c: Cryptos.Crypto, dir: StorePaths.Dir, s: State, t: State, live: Live)
    requires s.mode.Serving? && t.mode.Serving?
    requires t.mode == s.mode.(sequence := s.mode.sequence + 1, uploads := s.mode.uploads[s.mode.sequence := live])
    requires DiskOk(c, t.disk, t.ledger) && LedgerOk(c, t.ledger)
    requires RowsOk(c, dir, t.disk, t.tables, t.signers)
    requires ServingOk(c, dir, t.disk, s.mode.pid, s.mode.key, s.mode.sequence + 1,
                       s.mode.uploads - {s.mode.sequence}, s.mode.publishes)
    requires LiveOk(c, t.disk, s.mode.pid, s.mode.sequence, live)
    requires NameFree(s.mode.uploads - {s.mode.sequence}, s.mode.sequence)
    ensures Inv(c, dir, t)
  {
    hide DiskOk, LedgerOk, RowsOk, ServingOk, LiveOk, NameFree;
    UploadBack(c, dir, t.disk, s.mode.pid, s.mode.key, s.mode.sequence + 1, s.mode.uploads, s.mode.publishes,
               s.mode.sequence, live);
  }

  lemma NumberUnused(
      c: Cryptos.Crypto, dir: StorePaths.Dir, disk: Disk, pid: nat, key: Cryptos.SecretKey,
      sequence: nat, uploads: map<nat, Live>, publishes: map<nat, NarInfos.NarInfo>)
    requires ServingOk(c, dir, disk, pid, key, sequence, uploads, publishes)
    ensures sequence !in uploads
  {
    hide LiveOk, RecordHolds, NameOf;
  }

  lemma NextNumber(
      c: Cryptos.Crypto, dir: StorePaths.Dir, disk: Disk, pid: nat, key: Cryptos.SecretKey,
      sequence: nat, uploads: map<nat, Live>, publishes: map<nat, NarInfos.NarInfo>)
    requires ServingOk(c, dir, disk, pid, key, sequence, uploads, publishes)
    ensures ServingOk(c, dir, disk, pid, key, sequence + 1, uploads, publishes)
  {
    hide LiveOk, RecordHolds, NameOf;
  }

  lemma StageFailsStep(c: Cryptos.Crypto, dir: StorePaths.Dir, s: State)
    requires Inv(c, dir, s) && s.mode.Serving?
    ensures Inv(c, dir, s.(mode := s.mode.(sequence := s.mode.sequence + 1)))
  {
    hide DiskOk, LedgerOk, RowsOk, ServingOk;
    NextNumber(c, dir, s.disk, s.mode.pid, s.mode.key, s.mode.sequence, s.mode.uploads, s.mode.publishes);
  }

  lemma AbandonStep(c: Cryptos.Crypto, dir: StorePaths.Dir, s: State, id: nat, unlinks: bool)
    requires Inv(c, dir, s) && s.mode.Serving? && id in s.mode.uploads
    requires unlinks ==> !s.mode.uploads[id].committed
    ensures Inv(c, dir, Abandoned(s, id, unlinks)) && Kept(s.disk, Abandoned(s, id, unlinks).disk)
  {
    var t := Abandoned(s, id, unlinks);
    UploadOrdinal(c, dir, s, id);
    InvParts(c, dir, s);
    SameDisk(s.disk);
    hide Inv, DiskOk, LedgerOk, RowsOk, ServingOk, Kept, SameFile, LiveOk, Unlinked, NameOf, NamesApart, NameFree;
    if unlinks {
      OwnNameFree(s.mode.uploads, id);
      UnlinkedKeeps(c, s.disk, s.ledger, NameOf(s.mode.pid, id));
      RowsKept(c, dir, s.disk, t.disk, s.tables, s.signers);
      OtherUploadsKept(c, dir, s.disk, t.disk, s.mode.pid, s.mode.key, s.mode.sequence,
                       s.mode.uploads, s.mode.publishes, id);
    } else {
      UploadGone(c, dir, s.disk, s.mode.pid, s.mode.key, s.mode.sequence,
                 s.mode.uploads, s.mode.publishes, id);
    }
    InvWhole(c, dir, t);
  }

  /** Recording where a NAR landed adds a row that holds. */
  lemma RecordStep(c: Cryptos.Crypto, dir: StorePaths.Dir, s: State, id: nat)
    requires Inv(c, dir, s) && s.mode.Serving? && id in s.mode.uploads
    requires s.mode.uploads[id].committed && s.mode.uploads[id].state.Verified?
    ensures Inv(c, dir, Recorded(s, id))
  {
    hide Inv, DiskOk, LedgerOk, RowHolds, RecordHolds, ServingOk, NameOf;
    var state := s.mode.uploads[id].state;
    UploadOrdinal(c, dir, s, id);
    InvParts(c, dir, s);
    assert RowHolds(c, s.disk, state.narHash, EntryOf(state));
    assert RowsOk(c, dir, s.disk, IndexTables.PutNar(s.tables, state.narHash, EntryOf(state)), s.signers);
    hide RowsOk, LiveOk, IndexTables.PutNar;
    UploadGone(c, dir, s.disk, s.mode.pid, s.mode.key, s.mode.sequence,
               s.mode.uploads, s.mode.publishes, id);
    InvWhole(c, dir, Recorded(s, id));
  }

  // ----- Publishing -----

  lemma OnePublish(
      c: Cryptos.Crypto, dir: StorePaths.Dir, disk: Disk, pid: nat, key: Cryptos.SecretKey, sequence: nat,
      uploads: map<nat, Live>, publishes: map<nat, NarInfos.NarInfo>, id: nat, record: NarInfos.NarInfo)
    requires ServingOk(c, dir, disk, pid, key, sequence, uploads, publishes)
    ensures ServingOk(c, dir, disk, pid, key, sequence, uploads, publishes - {id})
    ensures id in publishes ==> RecordHolds(c, dir, disk, publishes[id], key)
    ensures RecordHolds(c, dir, disk, record, key)
            ==> ServingOk(c, dir, disk, pid, key, sequence, uploads, publishes[id := record])
  {
    hide RecordHolds, LiveOk, NameOf;
  }

  /** What a publish read is still true when it commits, whatever replaced the row in between. */
  lemma ReadStep(c: Cryptos.Crypto, dir: StorePaths.Dir, s: State, id: nat, body: string)
    requires Lawful(c) && Inv(c, dir, s) && s.mode.Serving?
    requires Ingests.Prepared(c, dir, s.mode.key, s.tables, body).Ok?
    ensures Inv(c, dir, Prepared(s, id, Ingests.Prepared(c, dir, s.mode.key, s.tables, body).value))
  {
    var record := Ingests.Prepared(c, dir, s.mode.key, s.tables, body).value;
    InvParts(c, dir, s);
    hide Inv, DiskOk, LedgerOk, ServingOk, Ingests.Prepared, Ingests.Declared, RowHolds, Fingerprints.SignedBy,
         IndexTables.Keyed;
    Ingests.PreparedFromRow(c, dir, s.mode.key, s.tables, body);
    assert RecordHolds(c, dir, s.disk, record, s.mode.key);
    hide RowsOk, RecordHolds;
    OnePublish(c, dir, s.disk, s.mode.pid, s.mode.key, s.mode.sequence, s.mode.uploads, s.mode.publishes, id, record);
    InvWhole(c, dir, Prepared(s, id, record));
  }

  lemma InvWhole(c: Cryptos.Crypto, dir: StorePaths.Dir, s: State)
    requires DiskOk(c, s.disk, s.ledger) && LedgerOk(c, s.ledger)
    requires RowsOk(c, dir, s.disk, s.tables, s.signers) && ModeOk(c, dir, s)
    ensures Inv(c, dir, s)
  {
  }

  lemma PublishStep(c: Cryptos.Crypto, dir: StorePaths.Dir, s: State, id: nat)
    requires Inv(c, dir, s) && s.mode.Serving? && id in s.mode.publishes
    ensures Inv(c, dir, Published(s, id))
  {
    var record := s.mode.publishes[id];
    hide DiskOk, LedgerOk, RowsOk, RecordHolds, ServingOk;
    OnePublish(c, dir, s.disk, s.mode.pid, s.mode.key, s.mode.sequence, s.mode.uploads, s.mode.publishes, id, record);
    PublishKeeps(c, dir, s.disk, s.tables, s.signers, record, s.mode.key);
  }

  /** Writing a record that holds, under the key that signed it. */
  lemma PublishKeeps(
      c: Cryptos.Crypto, dir: StorePaths.Dir, disk: Disk, tables: IndexTables.Tables,
      signers: map<StorePaths.Hash, Cryptos.SecretKey>, record: NarInfos.NarInfo, key: Cryptos.SecretKey)
    requires RowsOk(c, dir, disk, tables, signers) && RecordHolds(c, dir, disk, record, key)
    ensures RowsOk(c, dir, disk, IndexTables.Publish(tables, record), signers[record.storePath.hash := key])
  {
    hide RowHolds, RecordHolds;
  }

  lemma ForgetStep(c: Cryptos.Crypto, dir: StorePaths.Dir, s: State, id: nat)
    requires Inv(c, dir, s) && s.mode.Serving?
    ensures Inv(c, dir, Forgotten(s, id))
  {
    hide DiskOk, LedgerOk, RowsOk, RecordHolds, ServingOk;
    if id in s.mode.publishes {
      OnePublish(c, dir, s.disk, s.mode.pid, s.mode.key, s.mode.sequence, s.mode.uploads, s.mode.publishes,
                 id, s.mode.publishes[id]);
    } else {
      assert s.mode.publishes - {id} == s.mode.publishes;
    }
  }

  // ----- Steps outside a serving process -----

  lemma SweepStep(c: Cryptos.Crypto, dir: StorePaths.Dir, s: State, name: string)
    requires Inv(c, dir, s) && s.mode.Booting?
    ensures Inv(c, dir, s.(disk := Unlinked(s.disk, name))) && Kept(s.disk, Unlinked(s.disk, name))
  {
    hide DiskOk, LedgerOk, RowsOk, Kept, SameFile, Unlinked;
    UnlinkedKeeps(c, s.disk, s.ledger, name);
    RowsKept(c, dir, s.disk, Unlinked(s.disk, name), s.tables, s.signers);
  }

  lemma DeleteStep(c: Cryptos.Crypto, dir: StorePaths.Dir, s: State, hash: StorePaths.Hash)
    requires Inv(c, dir, s) && s.mode.Down?
    ensures Inv(c, dir, s.(tables := IndexTables.Unpublish(s.tables, hash)))
  {
    hide DiskOk, LedgerOk, RowHolds, RecordHolds;
  }

  lemma RotateStep(
      c: Cryptos.Crypto, dir: StorePaths.Dir, s: State, key: Cryptos.SecretKey,
      keys: seq<StorePaths.Hash>, rows: seq<NarInfos.NarInfo>)
    requires Lawful(c) && Inv(c, dir, s) && IndexTables.Lists(s.tables, keys, rows)
    ensures RotatingOk(c, dir, s.tables, s.signers, key, IndexTables.ResignAll(c, rows, dir, key))
  {
    hide Inv, Fingerprints.SignedBy, IndexTables.ResignAll, IndexTables.Lists, IndexTables.SamePayload;
    IndexTables.ResignedRows(c, rows, dir, key);
    KeyedListing(c, dir, s, keys, rows);
    RewriteCovers(c, dir, s.tables, s.signers, key, rows, IndexTables.ResignAll(c, rows, dir, key));
  }

  lemma RewriteCovers(
      c: Cryptos.Crypto, dir: StorePaths.Dir, tables: IndexTables.Tables,
      signers: map<StorePaths.Hash, Cryptos.SecretKey>, key: Cryptos.SecretKey,
      rows: seq<NarInfos.NarInfo>, rewritten: seq<NarInfos.NarInfo>)
    requires |rewritten| == |rows|
    requires forall i :: 0 <= i < |rows| ==>
      IndexTables.SamePayload(rewritten[i], rows[i]) && Fingerprints.SignedBy(c, rewritten[i], dir, key)
    requires forall row <- rows ::
      row.storePath.hash in tables.narinfo && tables.narinfo[row.storePath.hash] == row
    requires forall hash <- tables.narinfo ::
      tables.narinfo[hash].storePath.hash == hash && tables.narinfo[hash] in rows
    ensures RotatingOk(c, dir, tables, signers, key, rewritten)
  {
    hide Fingerprints.SignedBy;
    forall row | row in rewritten
      ensures row.storePath.hash in tables.narinfo
      ensures IndexTables.SamePayload(row, tables.narinfo[row.storePath.hash])
    {
      var i :| 0 <= i < |rewritten| && rewritten[i] == row;
      assert rows[i] in rows;
    }
    forall hash | hash in tables.narinfo
      ensures exists row :: row in rewritten && row.storePath.hash == hash
    {
      var i :| 0 <= i < |rows| && rows[i] == tables.narinfo[hash];
      assert rewritten[i] in rewritten;
    }
  }

  lemma KeyedListing(
      c: Cryptos.Crypto, dir: StorePaths.Dir, s: State, keys: seq<StorePaths.Hash>, rows: seq<NarInfos.NarInfo>)
    requires Inv(c, dir, s) && IndexTables.Lists(s.tables, keys, rows)
    ensures forall row <- rows ::
      row.storePath.hash in s.tables.narinfo && s.tables.narinfo[row.storePath.hash] == row
    ensures forall hash <- s.tables.narinfo ::
      s.tables.narinfo[hash].storePath.hash == hash && s.tables.narinfo[hash] in rows
  {
    assert IndexTables.Keyed(s.tables);
    hide Inv, IndexTables.Lists;
    IndexTables.ListedRows(s.tables, keys, rows);
  }

  /** One row of a batch: it still holds, and one less is left to do. */
  lemma RotateOne(
      c: Cryptos.Crypto, dir: StorePaths.Dir, disk: Disk, tables: IndexTables.Tables,
      signers: map<StorePaths.Hash, Cryptos.SecretKey>, key: Cryptos.SecretKey, todo: seq<NarInfos.NarInfo>)
    requires RowsOk(c, dir, disk, tables, signers) && todo != []
    requires RotatingOk(c, dir, tables, signers, key, todo)
    ensures var after := IndexTables.Publish(tables, todo[0]);
            var signed := signers[todo[0].storePath.hash := key];
            && RowsOk(c, dir, disk, after, signed)
            && RotatingOk(c, dir, after, signed, key, todo[1..])
  {
    var row := todo[0];
    var before := tables.narinfo[row.storePath.hash];
    assert IndexTables.SamePayload(row, before);
    assert Ingests.EntryNamed(row) == Ingests.EntryNamed(before) && row.narHash == before.narHash;
    assert RecordHolds(c, dir, disk, before, signers[row.storePath.hash]);
    hide RowHolds, Fingerprints.SignedBy, IndexTables.Keyed;
    PublishKeeps(c, dir, disk, tables, signers, row, key);
    hide RowsOk;
    TodoShrinks(c, dir, tables, signers, key, todo);
  }

  lemma TodoShrinks(
      c: Cryptos.Crypto, dir: StorePaths.Dir, tables: IndexTables.Tables,
      signers: map<StorePaths.Hash, Cryptos.SecretKey>, key: Cryptos.SecretKey, todo: seq<NarInfos.NarInfo>)
    requires todo != [] && RotatingOk(c, dir, tables, signers, key, todo)
    ensures RotatingOk(c, dir, IndexTables.Publish(tables, todo[0]), signers[todo[0].storePath.hash := key],
                       key, todo[1..])
  {
    hide Fingerprints.SignedBy;
    var after := IndexTables.Publish(tables, todo[0]);
    var signed := signers[todo[0].storePath.hash := key];
    forall hash | hash in after.narinfo
      ensures (hash in signed && signed[hash] == key)
              || exists row :: row in todo[1..] && row.storePath.hash == hash
    {
      if hash != todo[0].storePath.hash && !(hash in signers && signers[hash] == key) {
        var row :| row in todo && row.storePath.hash == hash;
        assert row in todo[1..];
      }
    }
  }

  lemma {:induction false} RotateMany(
      c: Cryptos.Crypto, dir: StorePaths.Dir, disk: Disk, tables: IndexTables.Tables,
      signers: map<StorePaths.Hash, Cryptos.SecretKey>, key: Cryptos.SecretKey,
      todo: seq<NarInfos.NarInfo>, count: nat)
    requires RowsOk(c, dir, disk, tables, signers) && count <= |todo|
    requires RotatingOk(c, dir, tables, signers, key, todo)
    ensures var after := IndexTables.Republish(tables, todo[..count]);
            var signed := SignedOver(signers, todo[..count], key);
            && RowsOk(c, dir, disk, after, signed)
            && RotatingOk(c, dir, after, signed, key, todo[count..])
  {
    hide RowsOk, RotatingOk, IndexTables.Publish;
    if count == 0 {
      assert todo[0..] == todo;
    } else {
      RotateMany(c, dir, disk, tables, signers, key, todo, count - 1);
      assert todo[..count][..count - 1] == todo[..count - 1];
      assert todo[count - 1..][0] == todo[count - 1] && todo[count - 1..][1..] == todo[count..];
      RotateOne(c, dir, disk, IndexTables.Republish(tables, todo[..count - 1]),
                SignedOver(signers, todo[..count - 1], key), key, todo[count - 1..]);
    }
  }

  lemma BatchStep(c: Cryptos.Crypto, dir: StorePaths.Dir, s: State)
    requires Inv(c, dir, s) && s.mode.Rotating? && s.mode.todo != []
    ensures Inv(c, dir, Batched(s))
  {
    hide DiskOk, LedgerOk, RowsOk, RotatingOk;
    RotateMany(c, dir, s.disk, s.tables, s.signers, s.mode.key, s.mode.todo,
               Maintain.BatchEnd(0, |s.mode.todo|));
  }
}
