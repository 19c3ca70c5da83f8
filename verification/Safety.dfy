/** What holds of whole runs of the protocol, whatever interleaves and wherever processes die. */
module Safety {
  import opened Prelude
  import Cryptos
  import Digests
  import Fingerprints
  import opened Disks
  import IndexTables
  import Ingests
  import Maintain
  import NarInfos
  import NarUrls
  import Routes
  import StorePaths
  import Stores
  import UploadStates
  import opened Protocols

  // ----- One step -----

  lemma MoveKeeps(c: Cryptos.Crypto, dir: StorePaths.Dir, s: State, id: nat, move: Move)
    requires Lawful(c) && Inv(c, dir, s) && s.mode.Serving? && id in s.mode.uploads && MoveEnabled(c, s, id, move)
    requires Cryptos.CollisionFree(c, Moved(c, s, id, move).ledger)
    ensures Inv(c, dir, Moved(c, s, id, move)) && Kept(s.disk, Moved(c, s, id, move).disk)
    ensures s.ledger <= Moved(c, s, id, move).ledger
  {
    SameDisk(s.disk);
    hide Inv, UploadStates.Fed, UploadStates.Flushed, UploadStates.Gate, UploadStates.Tail, UploadStates.Drained,
         Written, Renamed, Unlinked, LocationOf, Kept, SameFile, NameOf, Cryptos.CollisionFree;
    match move {
      case Feed(chunk) => FeedStep(c, dir, s, id, chunk);
      case Drain => DrainStep(c, dir, s, id);
      case Write(count) => WriteStep(c, dir, s, id, count);
      case Flush => FlushStep(c, dir, s, id);
      case Verify => VerifyStep(c, dir, s, id);
      case Rename => RenameStep(c, dir, s, id);
      case PutNar => RecordStep(c, dir, s, id);
      case Abandon(unlinks) => AbandonStep(c, dir, s, id, unlinks);
    }
  }

  lemma ServingStepKeeps(c: Cryptos.Crypto, dir: StorePaths.Dir, s: State, step: Step)
    requires Lawful(c) && Inv(c, dir, s) && s.mode.Serving? && Enabled(c, dir, s, step) && !step.Crash?
    requires Cryptos.CollisionFree(c, After(c, dir, s, step).ledger)
    ensures Inv(c, dir, After(c, dir, s, step)) && Kept(s.disk, After(c, dir, s, step).disk)
    ensures s.ledger <= After(c, dir, s, step).ledger
  {
    SameDisk(s.disk);
    hide Inv, Kept, SameFile, Moved, MoveEnabled, Ingests.Prepared, Created, NameOf, Cryptos.CollisionFree;
    match step {
      case Stage(inode, expected) => StageStep(c, dir, s, inode, expected);
      case StageFails => StageFailsStep(c, dir, s);
      case Upload(id, move) => MoveKeeps(c, dir, s, id, move);
      case ReadRow(id, body) => ReadStep(c, dir, s, id, body);
      case Publish(id) => PublishStep(c, dir, s, id);
      case Forget(id) => ForgetStep(c, dir, s, id);
    }
  }

  lemma OfflineStepKeeps(c: Cryptos.Crypto, dir: StorePaths.Dir, s: State, step: Step)
    requires Lawful(c) && Inv(c, dir, s) && Enabled(c, dir, s, step) && (!s.mode.Serving? || step.Crash?)
    ensures Inv(c, dir, After(c, dir, s, step)) && Kept(s.disk, After(c, dir, s, step).disk)
    ensures s.ledger == After(c, dir, s, step).ledger
  {
    SameDisk(s.disk);
    InvParts(c, dir, s);
    var t := After(c, dir, s, step);
    hide DiskOk, LedgerOk, RowsOk, RotatingOk, Kept, SameFile, Unlinked, IndexTables.Lists, IndexTables.Unpublish;
    match step {
      case Boot(_, _) =>
      case Sweep(name) => SweepStep(c, dir, s, name);
      case Listen =>
      case Crash =>
      case Delete(hash) => DeleteStep(c, dir, s, hash);
      case Rotate(key, keys, rows) => RotateStep(c, dir, s, key, keys, rows);
      case Batch => BatchStep(c, dir, s);
      case Rotated =>
    }
  }

  /** Any step at all keeps the invariant and every artifact, and forgets no committed content. */
  lemma StepKeeps(c: Cryptos.Crypto, dir: StorePaths.Dir, s: State, step: Step)
    requires Lawful(c) && Inv(c, dir, s) && Enabled(c, dir, s, step)
    requires Cryptos.CollisionFree(c, After(c, dir, s, step).ledger)
    ensures Inv(c, dir, After(c, dir, s, step)) && Kept(s.disk, After(c, dir, s, step).disk)
    ensures s.ledger <= After(c, dir, s, step).ledger
  {
    hide Inv, After, Enabled, Kept, Cryptos.CollisionFree;
    if s.mode.Serving? && !step.Crash? {
      ServingStepKeeps(c, dir, s, step);
    } else {
      OfflineStepKeeps(c, dir, s, step);
    }
  }

  lemma LedgerGrowsOnly(c: Cryptos.Crypto, dir: StorePaths.Dir, s: State, step: Step)
    requires Cryptos.LawfulEncoder(c) && Enabled(c, dir, s, step)
    ensures s.ledger <= After(c, dir, s, step).ledger
  {
    hide Ingests.Prepared, Created, Written, Renamed, Unlinked, UploadStates.Fed, UploadStates.Flushed,
         UploadStates.Gate, UploadStates.Tail, IndexTables.Lists, IndexTables.ResignAll, IndexTables.Republish, SignedOver;
  }

  // ----- Runs -----

  ghost predicate Run(c: Cryptos.Crypto, dir: StorePaths.Dir, states: seq<State>, steps: seq<Step>)
    requires Cryptos.LawfulEncoder(c)
  {
    && |states| == |steps| + 1
    && states[0] == INITIAL
    && forall i :: 0 <= i < |steps| ==>
         Enabled(c, dir, states[i], steps[i]) && states[i + 1] == After(c, dir, states[i], steps[i])
  }

  lemma {:induction false} LedgerWithin(
      c: Cryptos.Crypto, dir: StorePaths.Dir, states: seq<State>, steps: seq<Step>, i: nat, j: nat)
    requires Cryptos.LawfulEncoder(c) && Run(c, dir, states, steps) && i <= j < |states|
    ensures states[i].ledger <= states[j].ledger
    decreases j - i
  {
    hide Enabled, After;
    if i < j {
      LedgerGrowsOnly(c, dir, states[j - 1], steps[j - 1]);
      LedgerWithin(c, dir, states, steps, i, j - 1);
    }
  }

  /** No two different contents committed anywhere in the run share a hash. */
  ghost predicate NoCollision(c: Cryptos.Crypto, states: seq<State>)
    requires states != []
  {
    Cryptos.CollisionFree(c, states[|states| - 1].ledger)
  }

  lemma {:induction false} RunKeeps(
      c: Cryptos.Crypto, dir: StorePaths.Dir, states: seq<State>, steps: seq<Step>, i: nat)
    requires Lawful(c) && Run(c, dir, states, steps) && NoCollision(c, states) && i < |states|
    ensures Inv(c, dir, states[i])
    ensures i > 0 ==> Kept(states[i - 1].disk, states[i].disk)
  {
    hide Enabled, After, Kept;
    if i == 0 {
      InitialHolds(c, dir);
    } else {
      RunKeeps(c, dir, states, steps, i - 1);
      LedgerWithin(c, dir, states, steps, i, |steps|);
      hide Inv;
      StepKeeps(c, dir, states[i - 1], steps[i - 1]);
    }
  }

  lemma InitialHolds(c: Cryptos.Crypto, dir: StorePaths.Dir)
    ensures Inv(c, dir, INITIAL)
  {
  }

  // ----- Never a lie -----

  /** A client that fetches `url` gets bytes of the promised hash and size that inflate to the promised NAR. */
  ghost predicate Downloads(
      c: Cryptos.Crypto, disk: Disk, url: NarUrls.NarUrl, fileSize: nat, narHash: Digests.Digest, narSize: nat)
  {
    match Artifact(disk, url)
    case None => false
    case Some(content) =>
      c.sha(content) == url.fileHash && |content| == fileSize
      && match c.inflate(content)
         case None => false
         case Some(nar) => c.sha(nar) == narHash && |nar| == narSize
  }

  ghost predicate RowTrue(c: Cryptos.Crypto, s: State, narHash: Digests.Digest)
    requires narHash in s.tables.nar
  {
    var entry := s.tables.nar[narHash];
    Downloads(c, s.disk, IndexTables.Url(entry), entry.fileSize, narHash, entry.narSize)
  }

  /** The record is filed under its own path, verifies under the key it was last written with, and downloads. */
  ghost predicate RecordTrue(c: Cryptos.Crypto, dir: StorePaths.Dir, s: State, hash: StorePaths.Hash)
    requires hash in s.tables.narinfo
  {
    var record := s.tables.narinfo[hash];
    && record.storePath.hash == hash
    && Downloads(c, s.disk, NarInfos.Nar(record), record.fileSize, record.narHash, record.narSize)
    && |record.sigs| == 1
    && hash in s.signers
    && Cryptos.Verifies(c, Cryptos.Public(c, s.signers[hash]), Fingerprints.Fingerprint(record, dir), record.sigs[0])
  }

  lemma RowHoldsDownloads(c: Cryptos.Crypto, disk: Disk, narHash: Digests.Digest, entry: IndexTables.Entry)
    requires RowHolds(c, disk, narHash, entry)
    ensures Downloads(c, disk, IndexTables.Url(entry), entry.fileSize, narHash, entry.narSize)
  {
    hide LocationOf;
  }

  lemma InvIsTrue(c: Cryptos.Crypto, dir: StorePaths.Dir, s: State)
    requires Inv(c, dir, s)
    ensures forall narHash <- s.tables.nar :: RowTrue(c, s, narHash)
    ensures forall hash <- s.tables.narinfo :: RecordTrue(c, dir, s, hash)
  {
    InvParts(c, dir, s);
    hide Inv, ModeOk, DiskOk, RowHolds, Downloads, Fingerprints.Fingerprint;
    forall narHash | narHash in s.tables.nar
      ensures RowTrue(c, s, narHash)
    {
      RowHoldsDownloads(c, s.disk, narHash, s.tables.nar[narHash]);
    }
    forall hash | hash in s.tables.narinfo
      ensures RecordTrue(c, dir, s, hash)
    {
      var record := s.tables.narinfo[hash];
      assert RecordHolds(c, dir, s.disk, record, s.signers[hash]);
      RowHoldsDownloads(c, s.disk, record.narHash, Ingests.EntryNamed(record));
      assert NarInfos.Nar(record) == IndexTables.Url(Ingests.EntryNamed(record));
    }
  }

  /** Every row of both tables is true of the disk, and every record's signature verifies under some key. */
  ghost predicate TablesTrue(c: Cryptos.Crypto, dir: StorePaths.Dir, disk: Disk, tables: IndexTables.Tables) {
    && (forall narHash <- tables.nar ::
          var entry := tables.nar[narHash];
          Downloads(c, disk, IndexTables.Url(entry), entry.fileSize, narHash, entry.narSize))
    && (forall hash <- tables.narinfo ::
          var record := tables.narinfo[hash];
          && record.storePath.hash == hash
          && Downloads(c, disk, NarInfos.Nar(record), record.fileSize, record.narHash, record.narSize)
          && exists key :: Fingerprints.SignedBy(c, record, dir, key))
  }

  lemma InvMeansTrue(c: Cryptos.Crypto, dir: StorePaths.Dir, s: State)
    requires Inv(c, dir, s)
    ensures TablesTrue(c, dir, s.disk, s.tables)
  {
    hide Inv, Downloads, Fingerprints.Fingerprint;
    InvIsTrue(c, dir, s);
    forall narHash | narHash in s.tables.nar
      ensures RowTrue(c, s, narHash)
    {
    }
    forall hash | hash in s.tables.narinfo
      ensures Fingerprints.SignedBy(c, s.tables.narinfo[hash], dir, s.signers[hash])
    {
      assert RecordTrue(c, dir, s, hash);
    }
  }

  /**
   In every state of every run, whatever interleaved and wherever processes died, every row of both
   tables is true of the bytes on disk. What a crash can leave behind is at most a file no row names.
   */
  lemma NeverALie(c: Cryptos.Crypto, dir: StorePaths.Dir, states: seq<State>, steps: seq<Step>, i: nat)
    requires Lawful(c) && Run(c, dir, states, steps) && NoCollision(c, states) && i < |states|
    ensures forall narHash <- states[i].tables.nar :: RowTrue(c, states[i], narHash)
    ensures forall hash <- states[i].tables.narinfo :: RecordTrue(c, dir, states[i], hash)
  {
    hide Run, NoCollision, Inv, RowTrue, RecordTrue;
    RunKeeps(c, dir, states, steps, i);
    InvIsTrue(c, dir, states[i]);
  }

  // ----- A resolved record stays fetchable -----

  lemma {:induction false} KeptThroughout(
      c: Cryptos.Crypto, dir: StorePaths.Dir, states: seq<State>, steps: seq<Step>, i: nat, j: nat)
    requires Lawful(c) && Run(c, dir, states, steps) && NoCollision(c, states) && i <= j < |states|
    ensures Kept(states[i].disk, states[j].disk)
    decreases j - i
  {
    hide Run, NoCollision, Kept, Inv;
    if i == j {
      SameDisk(states[i].disk);
    } else {
      KeptThroughout(c, dir, states, steps, i, j - 1);
      RunKeeps(c, dir, states, steps, j);
      KeptTransitive(states[i].disk, states[j - 1].disk, states[j].disk);
    }
  }

  lemma KeptTransitive(a: Disk, b: Disk, d: Disk)
    requires Kept(a, b) && Kept(b, d)
    ensures Kept(a, d)
  {
  }

  /**
   Once a record is readable, requesting its URL finds the same bytes in every later state, even after
   the record, or a sibling sharing its NAR, is deleted.
   */
  lemma StaysFetchable(
      c: Cryptos.Crypto, dir: StorePaths.Dir, states: seq<State>, steps: seq<Step>, i: nat, j: nat,
      hash: StorePaths.Hash)
    requires Lawful(c) && Run(c, dir, states, steps) && NoCollision(c, states) && i <= j < |states|
    requires hash in states[i].tables.narinfo
    ensures var record := states[i].tables.narinfo[hash];
            && Routes.Resolve("/" + NarUrls.Url(NarInfos.Nar(record))) == Ok(Routes.Nar(NarInfos.Nar(record)))
            && Downloads(c, states[j].disk, NarInfos.Nar(record), record.fileSize, record.narHash, record.narSize)
            && Artifact(states[j].disk, NarInfos.Nar(record)) == Artifact(states[i].disk, NarInfos.Nar(record))
  {
    hide Run, NoCollision, LocationOf, Routes.Resolve, NarUrls.Url, Fingerprints.Fingerprint;
    Routes.UrlRoutesBack(NarInfos.Nar(states[i].tables.narinfo[hash]));
    NeverALie(c, dir, states, steps, i);
    assert RecordTrue(c, dir, states[i], hash);
    KeptThroughout(c, dir, states, steps, i, j);
  }

  // ----- Staging isolation -----

  /** Live uploads share no name and no file, and none of them can reach an artifact's bytes. */
  lemma StagingIsolated(
      c: Cryptos.Crypto, dir: StorePaths.Dir, states: seq<State>, steps: seq<Step>, i: nat, a: nat, b: nat)
    requires Lawful(c) && Run(c, dir, states, steps) && NoCollision(c, states) && i < |states|
    requires Uploading(states[i], a) && Uploading(states[i], b)
    ensures var s := states[i];
            && (a != b ==> NameOf(s.mode.pid, a) != NameOf(s.mode.pid, b))
            && (a != b ==> s.mode.uploads[a].inode != s.mode.uploads[b].inode)
            && (forall location <- s.disk.artifacts :: s.disk.artifacts[location] != s.mode.uploads[a].inode)
  {
    var s := states[i];
    RunKeeps(c, dir, states, steps, i);
    hide Run, NoCollision, Genuine, UploadStates.Tracks, RowsOk, Ordinal, Stores.StagingName;
    UploadOrdinal(c, dir, s, a);
    UploadOrdinal(c, dir, s, b);
    if NameOf(s.mode.pid, a) == NameOf(s.mode.pid, b) {
      Stores.StagingNameInjective(s.mode.pid, Ordinal(a), Ordinal(b));
    }
  }

  /**
   Artifacts appear in one way only: the rename of an upload whose bytes hashed to what its request
   target declared, under the hash of what was stored.
   */
  lemma OnlyVerifiedUploadsAppear(
      c: Cryptos.Crypto, dir: StorePaths.Dir, states: seq<State>, steps: seq<Step>, i: nat)
    requires Lawful(c) && Run(c, dir, states, steps) && NoCollision(c, states) && i < |steps|
    requires states[i + 1].disk.artifacts != states[i].disk.artifacts
    ensures && steps[i].Upload? && steps[i].move.Rename? && Uploading(states[i], steps[i].id)
            && var live := states[i].mode.uploads[steps[i].id];
               var content := Content(states[i].disk, live.inode);
               var url := NarUrls.NarUrl(c.sha(content), UploadStates.STORED_AS);
               && c.sha(Concat(live.received)) == live.expected && Concat(live.received) != []
               && c.inflate(content) == Some(Concat(live.received))
               && states[i + 1].disk.artifacts == states[i].disk.artifacts[LocationOf(url) := live.inode]
  {
    var s := states[i];
    RunKeeps(c, dir, states, steps, i);
    OnlyRenameAdds(c, dir, s, steps[i]);
    var id := steps[i].id;
    hide Run, NoCollision, Inv, LocationOf, NameOf;
    UploadTracks(c, dir, s, id);
    UploadOrdinal(c, dir, s, id);
    UploadStates.VerifiedDescribes(
      c, s.mode.uploads[id].state, s.mode.uploads[id].received, Content(s.disk, s.mode.uploads[id].inode));
  }

  lemma OnlyRenameAdds(c: Cryptos.Crypto, dir: StorePaths.Dir, s: State, step: Step)
    requires Cryptos.LawfulEncoder(c) && Enabled(c, dir, s, step)
    requires After(c, dir, s, step).disk.artifacts != s.disk.artifacts
    ensures step.Upload? && step.move.Rename?
  {
    hide Ingests.Prepared, Cryptos.LawfulEncoder, UploadStates.Fed, UploadStates.Flushed,
         UploadStates.Gate, UploadStates.Tail, IndexTables.Lists, IndexTables.ResignAll, IndexTables.Republish, SignedOver;
  }

  /** A boot removes what is staged and nothing else; serving starts with staging empty. */
  lemma {:induction false} BootLeavesArtifacts(
      c: Cryptos.Crypto, dir: StorePaths.Dir, states: seq<State>, steps: seq<Step>, i: nat, j: nat)
    requires Cryptos.LawfulEncoder(c) && Run(c, dir, states, steps) && i <= j < |states|
    requires forall k :: i <= k < j ==> steps[k].Boot? || steps[k].Sweep? || steps[k].Listen?
    ensures states[j].disk.artifacts == states[i].disk.artifacts && states[j].disk.inodes == states[i].disk.inodes
    ensures states[j].tables == states[i].tables
    ensures i < j && steps[j - 1].Listen? ==> states[j].disk.staging == map[] && states[j].mode.Serving?
    decreases j - i
  {
    if i < j {
      BootLeavesArtifacts(c, dir, states, steps, i, j - 1);
      assert Enabled(c, dir, states[j - 1], steps[j - 1]);
      assert states[j] == After(c, dir, states[j - 1], steps[j - 1]);
    }
  }

  // ----- Reconciliation -----

  lemma PresentMeansLocated(c: Cryptos.Crypto, disk: Disk, ledger: set<seq<byte>>, url: NarUrls.NarUrl)
    requires DiskOk(c, disk, ledger)
    ensures Maintain.Present(disk, url) <==> LocationOf(url) in disk.artifacts
    ensures forall file <- disk.artifacts :: NarUrls.Parse(file.name).Ok?
  {
    hide NarUrls.Parse;
    NarUrls.ParseOfName(url);
    assert LocationOf(url).name == NarUrls.Name(url);
    hide LocationOf, NarUrls.Name;
    forall file | file in disk.artifacts
      ensures Genuine(c, Content(disk, disk.artifacts[file]), ledger, file)
    {
    }
  }

  /**
   In every state of every run a reconciliation finds no foreign file and no record without its bytes,
   and reports as orphans exactly the artifacts no record claims.
   */
  lemma ReconcileExact(
      c: Cryptos.Crypto, dir: StorePaths.Dir, states: seq<State>, steps: seq<Step>, i: nat,
      found: Maintain.Reconciliation)
    requires Lawful(c) && Run(c, dir, states, steps) && NoCollision(c, states) && i < |states|
    requires Maintain.Compared(states[i].disk, states[i].tables, found)
    ensures found.unrecognizedFiles == [] && found.recordsWithoutArtifacts == []
    ensures forall url ::
      url in found.orphanArtifacts
      <==> LocationOf(url) in states[i].disk.artifacts && !Maintain.Claimed(states[i].tables, url)
  {
    var s := states[i];
    RunKeeps(c, dir, states, steps, i);
    NeverALie(c, dir, states, steps, i);
    InvParts(c, dir, s);
    hide Run, NoCollision, Inv, DiskOk, RowsOk, ModeOk, LocationOf, NarUrls.Parse, Maintain.Present, Maintain.Claimed;
    forall url: NarUrls.NarUrl
      ensures Maintain.Present(s.disk, url) <==> LocationOf(url) in s.disk.artifacts
    {
      PresentMeansLocated(c, s.disk, s.ledger, url);
    }
    forall row | row in s.tables.narinfo.Values
      ensures Maintain.Present(s.disk, NarInfos.Nar(row))
    {
      var hash :| hash in s.tables.narinfo && s.tables.narinfo[hash] == row;
      assert RecordTrue(c, dir, s, hash);
    }
    PresentMeansLocated(c, s.disk, s.ledger, NarUrls.NarUrl(c.sha([]), UploadStates.STORED_AS));
    FirstIsIn(found.unrecognizedFiles);
    FirstIsIn(found.recordsWithoutArtifacts);
  }

  // ----- Rotation -----

  ghost predicate AllSigned(
      c: Cryptos.Crypto, dir: StorePaths.Dir, tables: IndexTables.Tables, key: Cryptos.SecretKey)
  {
    forall hash <- tables.narinfo :: Fingerprints.SignedBy(c, tables.narinfo[hash], dir, key)
  }

  lemma NothingLeftToSign(c: Cryptos.Crypto, dir: StorePaths.Dir, s: State)
    requires Inv(c, dir, s) && s.mode.Rotating? && s.mode.todo == []
    ensures AllSigned(c, dir, s.tables, s.mode.key)
  {
    hide DiskOk, LedgerOk, RowHolds, Fingerprints.SignedBy;
    forall hash | hash in s.tables.narinfo
      ensures Fingerprints.SignedBy(c, s.tables.narinfo[hash], dir, s.mode.key)
    {
      assert RecordHolds(c, dir, s.disk, s.tables.narinfo[hash], s.signers[hash]);
    }
  }

  /** When a rotation ends, after however many crashed attempts, every record verifies under its key. */
  lemma RotationEndsSigned(c: Cryptos.Crypto, dir: StorePaths.Dir, states: seq<State>, steps: seq<Step>, i: nat)
    requires Lawful(c) && Run(c, dir, states, steps) && NoCollision(c, states) && i < |steps|
    requires steps[i].Rotated?
    ensures AllSigned(c, dir, states[i + 1].tables, states[i].mode.key)
  {
    assert Enabled(c, dir, states[i], steps[i]) && states[i + 1] == After(c, dir, states[i], steps[i]);
    assert states[i + 1].tables == states[i].tables && states[i].mode.Rotating? && states[i].mode.todo == [];
    hide Run, NoCollision, Inv, AllSigned, Enabled, After;
    RunKeeps(c, dir, states, steps, i);
    NothingLeftToSign(c, dir, states[i]);
  }
}
