/**
 Each call on the classes, whether it succeeds or fails, is a sequence of protocol steps, so what holds
 of all runs holds of the store and the index the classes update.
 */
module Stepwise {
  import opened Prelude
  import Compressions
  import Cryptos
  import Digests
  import opened Disks
  import IndexTables
  import Indexes
  import Ingests
  import Maintain
  import NarInfos
  import NarUrls
  import StorePaths
  import Stores
  import UploadStates
  import Uploads
  import opened Protocols
  import Safety

  // ----- Sequences of steps -----

  ghost predicate Steps(c: Cryptos.Crypto, dir: StorePaths.Dir, s: State, steps: seq<Step>, t: State)
    requires Cryptos.LawfulEncoder(c)
    decreases |steps|
  {
    if steps == [] then t == s
    else Enabled(c, dir, s, steps[0]) && Steps(c, dir, After(c, dir, s, steps[0]), steps[1..], t)
  }

  lemma {:induction false} Append(
      c: Cryptos.Crypto, dir: StorePaths.Dir, s: State, a: seq<Step>, m: State, b: seq<Step>, t: State)
    requires Cryptos.LawfulEncoder(c) && Steps(c, dir, s, a, m) && Steps(c, dir, m, b, t)
    ensures Steps(c, dir, s, a + b, t)
    decreases |a|
  {
    hide Enabled, After, Cryptos.LawfulEncoder;
    if a == [] {
      assert a + b == b;
    } else {
      AppendTail(a, b);
      Append(c, dir, After(c, dir, s, a[0]), a[1..], m, b, t);
    }
  }

  lemma One(c: Cryptos.Crypto, dir: StorePaths.Dir, s: State, step: Step)
    requires Cryptos.LawfulEncoder(c) && Enabled(c, dir, s, step)
    ensures Steps(c, dir, s, [step], After(c, dir, s, step))
  {
    hide Enabled, After, Cryptos.LawfulEncoder;
    assert [step][1..] == [];
    assert Steps(c, dir, After(c, dir, s, step), [], After(c, dir, s, step));
  }

  /** One more step at the end. */
  lemma Then(c: Cryptos.Crypto, dir: StorePaths.Dir, s: State, steps: seq<Step>, t: State, step: Step)
    requires Cryptos.LawfulEncoder(c) && Steps(c, dir, s, steps, t) && Enabled(c, dir, t, step)
    ensures Steps(c, dir, s, steps + [step], After(c, dir, t, step))
  {
    hide Enabled, After, Steps, Cryptos.LawfulEncoder;
    One(c, dir, t, step);
    Append(c, dir, s, steps, t, [step], After(c, dir, t, step));
  }

  lemma {:induction false} LedgerOnlyGrows(
      c: Cryptos.Crypto, dir: StorePaths.Dir, s: State, steps: seq<Step>, t: State)
    requires Cryptos.LawfulEncoder(c) && Steps(c, dir, s, steps, t)
    ensures s.ledger <= t.ledger
    decreases |steps|
  {
    hide Enabled, After, Cryptos.LawfulEncoder;
    if steps != [] {
      Safety.LedgerGrowsOnly(c, dir, s, steps[0]);
      LedgerOnlyGrows(c, dir, After(c, dir, s, steps[0]), steps[1..], t);
    }
  }

  /** What every step keeps, a sequence of them keeps. */
  lemma {:induction false} StepsKeep(
      c: Cryptos.Crypto, dir: StorePaths.Dir, s: State, steps: seq<Step>, t: State)
    requires Lawful(c) && Inv(c, dir, s) && Steps(c, dir, s, steps, t) && Cryptos.CollisionFree(c, t.ledger)
    ensures Inv(c, dir, t) && Kept(s.disk, t.disk)
    decreases |steps|
  {
    hide Enabled, After, Inv, Kept;
    if steps == [] {
      SameDisk(s.disk);
    } else {
      var next := After(c, dir, s, steps[0]);
      LedgerOnlyGrows(c, dir, next, steps[1..], t);
      Safety.StepKeeps(c, dir, s, steps[0]);
      StepsKeep(c, dir, next, steps[1..], t);
      Safety.KeptTransitive(s.disk, next.disk, t.disk);
    }
  }

  /** Some sequence of steps leads from `s` to `t`. */
  ghost predicate Reaches(c: Cryptos.Crypto, dir: StorePaths.Dir, s: State, t: State)
    requires Cryptos.LawfulEncoder(c)
  {
    exists steps :: Steps(c, dir, s, steps, t)
  }

  lemma ReachedBy(c: Cryptos.Crypto, dir: StorePaths.Dir, s: State, steps: seq<Step>, t: State)
    requires Cryptos.LawfulEncoder(c) && Steps(c, dir, s, steps, t)
    ensures Reaches(c, dir, s, t)
  {
  }

  lemma ReachesItself(c: Cryptos.Crypto, dir: StorePaths.Dir, s: State)
    requires Cryptos.LawfulEncoder(c)
    ensures Reaches(c, dir, s, s)
  {
    ReachedBy(c, dir, s, [], s);
  }

  lemma ReachesThrough(c: Cryptos.Crypto, dir: StorePaths.Dir, s: State, m: State, t: State)
    requires Cryptos.LawfulEncoder(c) && Reaches(c, dir, s, m) && Reaches(c, dir, m, t)
    ensures Reaches(c, dir, s, t)
  {
    hide Steps, Cryptos.LawfulEncoder;
    var a :| Steps(c, dir, s, a, m);
    var b :| Steps(c, dir, m, b, t);
    Append(c, dir, s, a, m, b, t);
    ReachedBy(c, dir, s, a + b, t);
  }

  /** The hypothesis on collisions, once it holds of where a run got to, held on the way. */
  lemma NoCollisionBefore(c: Cryptos.Crypto, dir: StorePaths.Dir, s: State, t: State)
    requires Cryptos.LawfulEncoder(c) && Reaches(c, dir, s, t) && Cryptos.CollisionFree(c, t.ledger)
    ensures Cryptos.CollisionFree(c, s.ledger)
  {
    hide Steps, Cryptos.LawfulEncoder;
    var steps :| Steps(c, dir, s, steps, t);
    LedgerOnlyGrows(c, dir, s, steps, t);
  }

  /** So calls, each of which gets from one state to another by steps, leave tables that are true of the disk. */
  lemma CallsStayTrue(c: Cryptos.Crypto, dir: StorePaths.Dir, s: State, t: State)
    requires Lawful(c) && Inv(c, dir, s) && Reaches(c, dir, s, t) && Cryptos.CollisionFree(c, t.ledger)
    ensures Inv(c, dir, t) && Kept(s.disk, t.disk)
    ensures forall narHash <- t.tables.nar :: Safety.RowTrue(c, t, narHash)
    ensures forall hash <- t.tables.narinfo :: Safety.RecordTrue(c, dir, t, hash)
  {
    hide Steps, Inv, Safety.RowTrue, Safety.RecordTrue, Kept, Cryptos.CollisionFree;
    var steps :| Steps(c, dir, s, steps, t);
    StepsKeep(c, dir, s, steps, t);
    Safety.InvIsTrue(c, dir, t);
  }

  // ----- How the objects show a state -----

  /** The store and the index are those of a serving process in state `s`. */
  ghost predicate Serves(s: State, store: Stores.Store, index: Indexes.Index)
    reads store`disk, store`sequence, index`tables
  {
    && s.disk == store.disk && s.tables == index.tables
    && s.mode.Serving? && s.mode.pid == store.pid && Ordinal(s.mode.sequence) == store.sequence
  }

  /** The upload is number `id` of that process, with no write in progress. */
  ghost predicate Carries(s: State, id: nat, upload: Uploads.Upload)
    reads upload, upload.staged
  {
    && Uploading(s, id)
    && upload.staged.name == NameOf(s.mode.pid, id) && !upload.staged.committed
    && s.mode.uploads[id]
       == Live(upload.staged.inode, upload.expected, upload.state, upload.received, [], false)
  }

  /** Nothing but the given upload moved. */
  ghost predicate OthersStay(s: State, t: State, id: nat) {
    && s.mode.Serving? && t.mode.Serving?
    && t.mode.uploads - {id} == s.mode.uploads - {id}
    && t.mode == s.mode.(uploads := t.mode.uploads)
    && t.signers == s.signers
  }

  lemma OthersThrough(s: State, m: State, t: State, id: nat)
    requires OthersStay(s, m, id) && OthersStay(m, t, id)
    ensures OthersStay(s, t, id)
  {
  }

  lemma StaysThrough(c: Cryptos.Crypto, dir: StorePaths.Dir, s: State, m: State, t: State, id: nat)
    requires Cryptos.LawfulEncoder(c) && Reaches(c, dir, s, m) && Reaches(c, dir, m, t)
    requires OthersStay(s, m, id) && OthersStay(m, t, id)
    ensures OthersStay(s, t, id) && Reaches(c, dir, s, t)
  {
    hide Cryptos.LawfulEncoder, Reaches, OthersStay;
    OthersThrough(s, m, t, id);
    ReachesThrough(c, dir, s, m, t);
  }

  lemma StaysItself(
      c: Cryptos.Crypto, dir: StorePaths.Dir, s: State, id: nat, store: Stores.Store, index: Indexes.Index)
    requires Cryptos.LawfulEncoder(c) && Serves(s, store, index)
    ensures OthersStay(s, s, id) && Reaches(c, dir, s, s)
  {
    ReachesItself(c, dir, s);
  }

  lemma ValidParts(upload: Uploads.Upload)
    requires upload.Valid()
    ensures Cryptos.LawfulEncoder(upload.crypto) && WithinLimits(upload.staged.store.disk)
  {
  }

  /** An upload came and went. */
  lemma BackToIdle(s: State, m: State, t: State, id: nat)
    requires s.mode.Serving? && m.mode.Serving? && s.mode.uploads == map[] && m.mode.uploads - {id} == s.mode.uploads
    requires m.mode == s.mode.(uploads := m.mode.uploads, sequence := m.mode.sequence)
    requires OthersStay(m, t, id) && id !in t.mode.uploads
    ensures t.mode.Serving? && t.mode.uploads == map[]
    ensures t.mode.key == s.mode.key && t.mode.publishes == s.mode.publishes
  {
    assert t.mode.uploads - {id} == t.mode.uploads;
  }

  // ----- Step sequences of one upload -----

  /** `s` after the upload's state, what it received, its bytes in flight and the disk have changed. */
  ghost function Turned(s: State, id: nat, disk: Disk, live: Live): State
    requires s.mode.Serving?
  {
    WithUpload(s.(disk := disk), id, live)
  }

  lemma TurnedIs(s: State, id: nat, disk: Disk, live: Live)
    requires Uploading(s, id) && !live.committed
    ensures var t := Turned(s, id, disk, live);
            && Uploading(t, id) && t.mode.uploads[id] == live && t.disk == disk
            && OthersStay(s, t, id) && t.tables == s.tables && t.ledger == s.ledger
            && t.mode.(uploads := s.mode.uploads) == s.mode && t.mode.pid == s.mode.pid
  {
  }

  lemma TurnedTwice(s: State, id: nat, disk: Disk, live: Live, disk': Disk, live': Live)
    requires s.mode.Serving?
    ensures Turned(Turned(s, id, disk, live), id, disk', live') == Turned(s, id, disk', live')
  {
    assert s.mode.uploads[id := live][id := live'] == s.mode.uploads[id := live'];
  }

  /** One move of one upload, as a step. */
  lemma OneMove(c: Cryptos.Crypto, dir: StorePaths.Dir, s: State, id: nat, move: Move)
    requires Cryptos.LawfulEncoder(c) && s.mode.Serving? && id in s.mode.uploads && MoveEnabled(c, s, id, move)
    ensures Enabled(c, dir, s, Upload(id, move))
    ensures After(c, dir, s, Upload(id, move)) == Moved(c, s, id, move)
    ensures Steps(c, dir, s, [Upload(id, move)], Moved(c, s, id, move))
  {
    hide Cryptos.LawfulEncoder, MoveEnabled, Moved, Steps;
    One(c, dir, s, Upload(id, move));
  }

  lemma TwoMoves(c: Cryptos.Crypto, dir: StorePaths.Dir, s: State, id: nat, a: Move, b: Move)
    requires Cryptos.LawfulEncoder(c) && s.mode.Serving? && id in s.mode.uploads && MoveEnabled(c, s, id, a)
    requires var m := Moved(c, s, id, a);
             m.mode.Serving? && id in m.mode.uploads && MoveEnabled(c, m, id, b)
    ensures Steps(c, dir, s, [Upload(id, a), Upload(id, b)], Moved(c, Moved(c, s, id, a), id, b))
  {
    hide Cryptos.LawfulEncoder, MoveEnabled, Moved, Steps, Enabled, After;
    var m := Moved(c, s, id, a);
    OneMove(c, dir, s, id, a);
    OneMove(c, dir, m, id, b);
    Append(c, dir, s, [Upload(id, a)], m, [Upload(id, b)], Moved(c, m, id, b));
    assert [Upload(id, a)] + [Upload(id, b)] == [Upload(id, a), Upload(id, b)];
  }

  lemma FeedSteps(c: Cryptos.Crypto, dir: StorePaths.Dir, s: State, id: nat, chunk: seq<byte>) returns (t: State)
    requires Cryptos.LawfulEncoder(c) && Uploading(s, id)
    requires s.mode.uploads[id].state.Receiving? && s.mode.uploads[id].inflight == []
    requires s.mode.uploads[id].state.narSize + |chunk| < U64_LIMIT
    ensures var live := s.mode.uploads[id];
            t == Turned(s, id, s.disk, live.(state := UploadStates.Fed(c, live.state, chunk), received := live.received + [chunk]))
    ensures Steps(c, dir, s, [Upload(id, Feed(chunk))], t)
  {
    hide Cryptos.LawfulEncoder, UploadStates.Fed, Steps, Enabled, After;
    OneMove(c, dir, s, id, Feed(chunk));
    t := Moved(c, s, id, Feed(chunk));
  }

  /** A drain of which `count` octets reach the file. */
  lemma DrainSteps(c: Cryptos.Crypto, dir: StorePaths.Dir, s: State, id: nat, count: nat) returns (t: State)
    requires Cryptos.LawfulEncoder(c) && Uploading(s, id)
    requires s.mode.uploads[id].state.Receiving? && s.mode.uploads[id].inflight == []
    requires count <= |s.mode.uploads[id].state.encoder.buffer|
    ensures var live := s.mode.uploads[id];
            var buffer := live.state.encoder.buffer;
            t == Turned(
              s, id, Written(s.disk, live.inode, |Content(s.disk, live.inode)|, buffer[..count]),
              live.(state := UploadStates.Drained(live.state), inflight := buffer[count..]))
    ensures Steps(c, dir, s, [Upload(id, Drain), Upload(id, Move.Write(count))], t)
  {
    hide Cryptos.LawfulEncoder, UploadStates.Drained, Steps, Written, Enabled, After;
    var m := Moved(c, s, id, Drain);
    TwoMoves(c, dir, s, id, Drain, Move.Write(count));
    t := Moved(c, m, id, Move.Write(count));
    assert s.mode.uploads[id := m.mode.uploads[id]][id := t.mode.uploads[id]]
        == s.mode.uploads[id := t.mode.uploads[id]];
  }

  /** A flush of which `count` octets reach the file. */
  lemma FlushSteps(c: Cryptos.Crypto, dir: StorePaths.Dir, s: State, id: nat, count: nat) returns (t: State)
    requires Cryptos.LawfulEncoder(c) && Uploading(s, id)
    requires s.mode.uploads[id].state.Receiving? && s.mode.uploads[id].inflight == []
    requires count <= |UploadStates.Tail(c, s.mode.uploads[id].state.encoder)|
    requires |Content(s.disk, s.mode.uploads[id].inode)| + |UploadStates.Tail(c, s.mode.uploads[id].state.encoder)| < U64_LIMIT
    ensures var live := s.mode.uploads[id];
            var tail, end := UploadStates.Tail(c, live.state.encoder), |Content(s.disk, live.inode)|;
            t == Turned(
              s, id, Written(s.disk, live.inode, end, tail[..count]),
              live.(state := UploadStates.Flushed(c, live.state, end + |tail|), inflight := tail[count..]))
    ensures Steps(c, dir, s, [Upload(id, Flush), Upload(id, Move.Write(count))], t)
  {
    hide Cryptos.LawfulEncoder, UploadStates.Flushed, UploadStates.Tail, Steps, Written, Content, Enabled, After;
    var m := Moved(c, s, id, Flush);
    TwoMoves(c, dir, s, id, Flush, Move.Write(count));
    t := Moved(c, m, id, Move.Write(count));
    assert s.mode.uploads[id := m.mode.uploads[id]][id := t.mode.uploads[id]]
        == s.mode.uploads[id := t.mode.uploads[id]];
  }

  /** The upload is dropped, with or without its staging file. */
  lemma DropSteps(c: Cryptos.Crypto, dir: StorePaths.Dir, s: State, id: nat, after: Disk)
      returns (steps: seq<Step>, t: State)
    requires Cryptos.LawfulEncoder(c) && Uploading(s, id)
    requires Uploads.Dropped(s.disk, after, NameOf(s.mode.pid, id), false)
    ensures t == s.(disk := after, mode := s.mode.(uploads := s.mode.uploads - {id}))
    ensures Steps(c, dir, s, steps, t)
  {
    hide Cryptos.LawfulEncoder, Steps, NameOf, Unlinked, Enabled, After;
    steps := [Upload(id, Abandon(after != s.disk))];
    OneMove(c, dir, s, id, Abandon(after != s.disk));
    t := Moved(c, s, id, Abandon(after != s.disk));
  }

  /** A chunk is fed, and `count` octets of what the encoder then holds are drained into the file. */
  lemma FeedDrainSteps(c: Cryptos.Crypto, dir: StorePaths.Dir, s: State, id: nat, chunk: seq<byte>, count: nat)
      returns (steps: seq<Step>, t: State)
    requires Cryptos.LawfulEncoder(c) && Uploading(s, id)
    requires s.mode.uploads[id].state.Receiving? && s.mode.uploads[id].inflight == []
    requires s.mode.uploads[id].state.narSize + |chunk| < U64_LIMIT
    requires count <= |UploadStates.Fed(c, s.mode.uploads[id].state, chunk).encoder.buffer|
    ensures var live := s.mode.uploads[id];
            var fed := UploadStates.Fed(c, live.state, chunk);
            t == Turned(
              s, id, Written(s.disk, live.inode, |Content(s.disk, live.inode)|, fed.encoder.buffer[..count]),
              live.(state := UploadStates.Drained(fed), received := live.received + [chunk],
                    inflight := fed.encoder.buffer[count..]))
    ensures Steps(c, dir, s, steps, t)
  {
    var fed := UploadStates.Fed(c, s.mode.uploads[id].state, chunk);
    assert fed.Receiving?;
    var live := s.mode.uploads[id];
    var next := live.(state := fed, received := live.received + [chunk]);
    var m := FeedSteps(c, dir, s, id, chunk);
    hide Cryptos.LawfulEncoder, UploadStates.Fed, UploadStates.Drained, Steps, Written, Content, Turned;
    TurnedIs(s, id, s.disk, next);
    t := DrainSteps(c, dir, m, id, count);
    steps := [Upload(id, Feed(chunk))] + [Upload(id, Drain), Upload(id, Move.Write(count))];
    Append(c, dir, s, [Upload(id, Feed(chunk))], m, [Upload(id, Drain), Upload(id, Move.Write(count))], t);
    TurnedTwice(
      s, id, s.disk, next,
      Written(s.disk, live.inode, |Content(s.disk, live.inode)|, fed.encoder.buffer[..count]),
      next.(state := UploadStates.Drained(fed), inflight := fed.encoder.buffer[count..]));
  }

  /** Steps that change an upload and then drop it. */
  lemma ThenDrop(
      c: Cryptos.Crypto, dir: StorePaths.Dir, s: State, steps: seq<Step>, m: State, id: nat, after: Disk)
      returns (all: seq<Step>, t: State)
    requires Cryptos.LawfulEncoder(c) && Steps(c, dir, s, steps, m) && Uploading(m, id) && OthersStay(s, m, id)
    requires Uploads.Dropped(m.disk, after, NameOf(m.mode.pid, id), false)
    ensures OthersStay(s, t, id) && t.mode == s.mode.(uploads := s.mode.uploads - {id})
    ensures t.disk == after && t.tables == m.tables && t.ledger == m.ledger
    ensures Steps(c, dir, s, all, t)
  {
    hide Cryptos.LawfulEncoder, Steps, NameOf, Uploads.Dropped;
    var last;
    last, t := DropSteps(c, dir, m, id, after);
    all := steps + last;
    Append(c, dir, s, steps, m, last, t);
    assert m.mode.uploads - {id} - {id} == m.mode.uploads - {id};
  }

  lemma WriteDone(
      c: Cryptos.Crypto, dir: StorePaths.Dir, s: State, id: nat, chunk: seq<byte>,
      state: UploadStates.State, left: Disk) returns (steps: seq<Step>, t: State)
    requires Cryptos.LawfulEncoder(c) && Uploading(s, id)
    requires s.mode.uploads[id].state.Receiving? && s.mode.uploads[id].inflight == []
    requires s.mode.uploads[id].state.narSize + |chunk| < U64_LIMIT
    requires var live := s.mode.uploads[id];
             Uploads.WroteFrom(c, live.state, chunk, s.disk, live.inode, |Content(s.disk, live.inode)|, state, left)
    ensures OthersStay(s, t, id) && Uploading(t, id) && t.tables == s.tables && t.disk == left
    ensures t.mode.(uploads := s.mode.uploads) == s.mode
    ensures var live := s.mode.uploads[id];
            t.mode.uploads[id] == live.(state := state, received := live.received + [chunk])
    ensures Steps(c, dir, s, steps, t)
  {
    var buffer := UploadStates.Fed(c, s.mode.uploads[id].state, chunk).encoder.buffer;
    hide Cryptos.LawfulEncoder, UploadStates.Fed, UploadStates.Drained, Steps, Written, Content, Turned, OthersStay;
    TurnedIs(s, id, left, s.mode.uploads[id].(state := state, received := s.mode.uploads[id].received + [chunk]));
    if |buffer| >= UploadStates.DRAIN_THRESHOLD {
      assert buffer[..|buffer|] == buffer && buffer[|buffer|..] == [];
      steps, t := FeedDrainSteps(c, dir, s, id, chunk, |buffer|);
    } else {
      steps := [Upload(id, Feed(chunk))];
      t := FeedSteps(c, dir, s, id, chunk);
    }
  }

  lemma WriteFailed(
      c: Cryptos.Crypto, dir: StorePaths.Dir, s: State, id: nat, chunk: seq<byte>, left: Disk, after: Disk)
      returns (steps: seq<Step>, t: State)
    requires Cryptos.LawfulEncoder(c) && Uploading(s, id)
    requires s.mode.uploads[id].state.Receiving? && s.mode.uploads[id].inflight == []
    requires s.mode.uploads[id].state.narSize + |chunk| < U64_LIMIT
    requires var live := s.mode.uploads[id];
             Uploads.WriteCut(c, live.state, chunk, s.disk, live.inode, |Content(s.disk, live.inode)|, left)
    requires Uploads.Dropped(left, after, NameOf(s.mode.pid, id), false)
    ensures OthersStay(s, t, id)
    ensures t.mode.Serving? && t.mode == s.mode.(uploads := s.mode.uploads - {id})
    ensures t.disk == after && t.tables == s.tables
    ensures Steps(c, dir, s, steps, t)
  {
    var live := s.mode.uploads[id];
    var buffer := UploadStates.Fed(c, live.state, chunk).encoder.buffer;
    var drained := UploadStates.Drained(UploadStates.Fed(c, live.state, chunk));
    hide Cryptos.LawfulEncoder, UploadStates.Fed, UploadStates.Drained, Steps, Written, NameOf, Uploads.PartWritten,
         Uploads.Dropped, Content, Turned, OthersStay;
    var k := PartOf(s.disk, left, live.inode, |Content(s.disk, live.inode)|, buffer);
    TurnedIs(s, id, left, live.(state := drained, received := live.received + [chunk], inflight := buffer[k..]));
    var m;
    steps, m := FeedDrainSteps(c, dir, s, id, chunk, k);
    steps, t := ThenDrop(c, dir, s, steps, m, id, after);
  }

  lemma FinishDone(
      c: Cryptos.Crypto, dir: StorePaths.Dir, s: State, id: nat, state: UploadStates.State, left: Disk)
      returns (steps: seq<Step>, t: State)
    requires Cryptos.LawfulEncoder(c) && Uploading(s, id)
    requires s.mode.uploads[id].state.Receiving? && s.mode.uploads[id].inflight == []
    requires s.mode.uploads[id].inode in s.disk.inodes
    requires var live := s.mode.uploads[id];
             Uploads.FinishedFrom(c, live.state, s.disk, live.inode, |Content(s.disk, live.inode)|, state, left)
    ensures OthersStay(s, t, id) && Uploading(t, id) && t.tables == s.tables
    ensures t.mode.(uploads := s.mode.uploads) == s.mode
    ensures t.disk == left && t.mode.uploads[id] == s.mode.uploads[id].(state := state)
    ensures Steps(c, dir, s, steps, t)
  {
    hide Cryptos.LawfulEncoder, UploadStates.Tail, UploadStates.Flushed, Steps, Written, Content,
         Turned, OthersStay;
    var tail := UploadStates.Tail(c, UploadStates.Drained(s.mode.uploads[id].state).encoder);
    assert tail[..|tail|] == tail && tail[|tail|..] == [];
    TurnedIs(s, id, left, s.mode.uploads[id].(state := state));
    steps, t := DrainFlushSteps(c, dir, s, id, |tail|);
  }

  /** The drain of a finish was cut short. */
  lemma DrainCut(
      c: Cryptos.Crypto, dir: StorePaths.Dir, s: State, id: nat, staged: Stores.Staged, after: Disk)
      returns (steps: seq<Step>, m: State)
    requires Cryptos.LawfulEncoder(c) && Uploading(s, id)
    requires s.mode.uploads[id].state.Receiving? && s.mode.uploads[id].inflight == []
    requires staged.inode == s.mode.uploads[id].inode && !staged.committed
    requires var live := s.mode.uploads[id];
             Uploads.Cut(s.disk, after, staged, |Content(s.disk, live.inode)|, live.state.encoder.buffer)
    ensures Uploading(m, id) && OthersStay(s, m, id) && m.tables == s.tables && m.mode.pid == s.mode.pid
    ensures Uploads.Dropped(m.disk, after, staged.name, false)
    ensures Steps(c, dir, s, steps, m)
  {
    hide Cryptos.LawfulEncoder, UploadStates.Drained, Steps, Written, Uploads.PartWritten, Uploads.Dropped,
         Uploads.Cut, Content, Turned, OthersStay;
    var live := s.mode.uploads[id];
    var buffer, offset := live.state.encoder.buffer, |Content(s.disk, live.inode)|;
    var left := CutAt(s.disk, after, staged, offset, buffer);
    var k := PartOf(s.disk, left, live.inode, offset, buffer);
    m := DrainSteps(c, dir, s, id, k);
    TurnedIs(s, id, left, live.(state := UploadStates.Drained(live.state), inflight := buffer[k..]));
    steps := [Upload(id, Drain), Upload(id, Move.Write(k))];
  }

  /** The flush of a finish was. */
  lemma FlushCut(
      c: Cryptos.Crypto, dir: StorePaths.Dir, s: State, id: nat, staged: Stores.Staged, after: Disk)
      returns (steps: seq<Step>, m: State)
    requires Cryptos.LawfulEncoder(c) && Uploading(s, id)
    requires s.mode.uploads[id].state.Receiving? && s.mode.uploads[id].inflight == []
    requires staged.inode == s.mode.uploads[id].inode && staged.inode in s.disk.inodes && !staged.committed
    requires var live := s.mode.uploads[id];
             var buffer, offset := live.state.encoder.buffer, |Content(s.disk, live.inode)|;
             var tail := UploadStates.Tail(c, UploadStates.Drained(live.state).encoder);
             && offset + |buffer| + |tail| < U64_LIMIT
             && Uploads.Cut(Written(s.disk, live.inode, offset, buffer), after, staged, offset + |buffer|, tail)
    ensures Uploading(m, id) && OthersStay(s, m, id) && m.tables == s.tables && m.mode.pid == s.mode.pid
    ensures Uploads.Dropped(m.disk, after, staged.name, false)
    ensures Steps(c, dir, s, steps, m)
  {
    hide Cryptos.LawfulEncoder, UploadStates.Tail, UploadStates.Flushed, Steps, Written,
         Uploads.PartWritten, Uploads.Dropped, Uploads.Cut, Content, Turned, OthersStay;
    var live := s.mode.uploads[id];
    var buffer, offset := live.state.encoder.buffer, |Content(s.disk, live.inode)|;
    var drained := UploadStates.Drained(live.state);
    var tail, full, end := UploadStates.Tail(c, drained.encoder), Written(s.disk, live.inode, offset, buffer),
      offset + |buffer|;
    var left := CutAt(full, after, staged, end, tail);
    var k := PartOf(full, left, live.inode, end, tail);
    steps, m := DrainFlushSteps(c, dir, s, id, k);
    TurnedIs(s, id, left, live.(state := UploadStates.Flushed(c, drained, end + |tail|), inflight := tail[k..]));
  }

  lemma FinishFailed(
      c: Cryptos.Crypto, dir: StorePaths.Dir, s: State, id: nat, staged: Stores.Staged, after: Disk)
      returns (steps: seq<Step>, t: State)
    requires Cryptos.LawfulEncoder(c) && Uploading(s, id)
    requires s.mode.uploads[id].state.Receiving? && s.mode.uploads[id].inflight == []
    requires staged.inode == s.mode.uploads[id].inode && staged.inode in s.disk.inodes
    requires staged.name == NameOf(s.mode.pid, id) && !staged.committed
    requires var live := s.mode.uploads[id];
             Uploads.FinishCut(c, live.state, s.disk, staged, |Content(s.disk, live.inode)|, after)
    ensures OthersStay(s, t, id)
    ensures t.mode.Serving? && t.mode == s.mode.(uploads := s.mode.uploads - {id})
    ensures t.disk == after && t.tables == s.tables
    ensures Steps(c, dir, s, steps, t)
  {
    var live := s.mode.uploads[id];
    hide Cryptos.LawfulEncoder, UploadStates.Drained, UploadStates.Tail, Steps, Written, NameOf, Uploads.Dropped,
         Uploads.Cut, Content, OthersStay;
    var m;
    if Uploads.Cut(s.disk, after, staged, |Content(s.disk, live.inode)|, live.state.encoder.buffer) {
      steps, m := DrainCut(c, dir, s, id, staged, after);
    } else {
      steps, m := FlushCut(c, dir, s, id, staged, after);
    }
    steps, t := ThenDrop(c, dir, s, steps, m, id, after);
  }

  // ----- The calls -----

  /** `Upload.Write`, dropping the upload when it fails, as its caller does. */
  method WriteChunk(
      upload: Uploads.Upload, index: Indexes.Index, chunk: seq<byte>,
      ghost dir: StorePaths.Dir, ghost s: State, ghost id: nat)
      returns (r: Result<(), UploadStates.Error>, ghost t: State)
    requires Serves(s, upload.staged.store, index) && Carries(s, id, upload) && upload.Valid()
    requires upload.state.Receiving? && upload.state.narSize + |chunk| < U64_LIMIT
    modifies upload`state, upload`received, upload.staged`offset, upload.staged.store`disk, upload.staged.store`faults
    ensures Counted(old(upload.staged.store.faults), upload.staged.store.faults, r.Err?)
    ensures OthersStay(s, t, id)
    ensures Serves(t, upload.staged.store, index)
    ensures if r.Ok? then
              && Carries(t, id, upload) && upload.Valid() && upload.state.Receiving?
              && upload.received == old(upload.received) + [chunk]
              && upload.state.narSize == old(upload.state.narSize) + |chunk|
            else id !in t.mode.uploads
    ensures WithinLimits(upload.staged.store.disk)
    ensures upload.staged.store.disk.artifacts == old(upload.staged.store.disk).artifacts
    ensures Reaches(upload.crypto, dir, s, t)
  {
    ghost var steps;
    ghost var c := upload.crypto;
    assert Cryptos.LawfulEncoder(c) && upload.staged.offset == |Content(s.disk, upload.staged.inode)|;
    hide Cryptos.LawfulEncoder, UploadStates.Tracks, Steps, NameOf, Uploads.WroteFrom, Uploads.WriteCut, Ordinal,
         OnlyWrote, Content, WithinLimits, Uploads.Upload.Valid, OthersStay, Reaches;
    r := upload.Write(chunk);
    if r.Ok? {
      steps, t := WriteDone(c, dir, s, id, chunk, upload.state, upload.staged.store.disk);
    } else {
      ghost var left := upload.staged.store.disk;
      upload.staged.Drop();
      steps, t := WriteFailed(c, dir, s, id, chunk, left, upload.staged.store.disk);
    }
    ReachedBy(upload.crypto, dir, s, steps, t);
  }

  /** The whole of the buffer is drained, then `count` octets of the tail reach the file. */
  lemma DrainFlushSteps(c: Cryptos.Crypto, dir: StorePaths.Dir, s: State, id: nat, count: nat)
      returns (steps: seq<Step>, t: State)
    requires Cryptos.LawfulEncoder(c) && Uploading(s, id)
    requires s.mode.uploads[id].state.Receiving? && s.mode.uploads[id].inflight == []
    requires s.mode.uploads[id].inode in s.disk.inodes
    requires var live := s.mode.uploads[id];
             var tail := UploadStates.Tail(c, UploadStates.Drained(live.state).encoder);
             && count <= |tail|
             && |Content(s.disk, live.inode)| + |live.state.encoder.buffer| + |tail| < U64_LIMIT
    ensures var live := s.mode.uploads[id];
            var buffer, drained := live.state.encoder.buffer, UploadStates.Drained(live.state);
            var tail, end := UploadStates.Tail(c, drained.encoder), |Content(s.disk, live.inode)| + |buffer|;
            var full := Written(s.disk, live.inode, |Content(s.disk, live.inode)|, buffer);
            t == Turned(
              s, id, Written(full, live.inode, end, tail[..count]),
              live.(state := UploadStates.Flushed(c, drained, end + |tail|), inflight := tail[count..]))
    ensures Steps(c, dir, s, steps, t)
  {
    hide Cryptos.LawfulEncoder, UploadStates.Tail, UploadStates.Flushed, Steps, Written, Content, Turned;
    var live := s.mode.uploads[id];
    var buffer := live.state.encoder.buffer;
    var drained := UploadStates.Drained(live.state);
    var full := Written(s.disk, live.inode, |Content(s.disk, live.inode)|, buffer);
    var tail, end := UploadStates.Tail(c, drained.encoder), |Content(s.disk, live.inode)| + |buffer|;
    WrittenAppends(s.disk, live.inode, buffer);
    assert buffer[..|buffer|] == buffer && buffer[|buffer|..] == [];
    var m := DrainSteps(c, dir, s, id, |buffer|);
    TurnedIs(s, id, full, live.(state := drained));
    t := FlushSteps(c, dir, m, id, count);
    var first := [Upload(id, Drain), Upload(id, Move.Write(|buffer|))];
    steps := first + [Upload(id, Flush), Upload(id, Move.Write(count))];
    Append(c, dir, s, first, m, [Upload(id, Flush), Upload(id, Move.Write(count))], t);
    TurnedTwice(
      s, id, full, live.(state := drained), Written(full, live.inode, end, tail[..count]),
      live.(state := UploadStates.Flushed(c, drained, end + |tail|), inflight := tail[count..]));
  }

  /** `Upload.Finish`. */
  method FinishUpload(
      upload: Uploads.Upload, index: Indexes.Index, ghost dir: StorePaths.Dir, ghost s: State, ghost id: nat)
      returns (r: Result<(), UploadStates.Error>, ghost t: State)
    requires Serves(s, upload.staged.store, index) && Carries(s, id, upload) && upload.Valid()
    requires upload.state.Receiving?
    modifies upload`state, upload.staged`offset, upload.staged.store`disk, upload.staged.store`faults
    ensures Counted(old(upload.staged.store.faults), upload.staged.store.faults, r.Err?)
    ensures OthersStay(s, t, id)
    ensures Serves(t, upload.staged.store, index)
    ensures if r.Ok? then Carries(t, id, upload) && upload.Valid() && upload.state.Compressed?
            else id !in t.mode.uploads && UploadStates.FaultOf(r.error) == UploadStates.Server
    ensures WithinLimits(upload.staged.store.disk)
    ensures upload.staged.store.disk.artifacts == old(upload.staged.store.disk).artifacts
    ensures Reaches(upload.crypto, dir, s, t)
  {
    ghost var steps;
    ghost var c := upload.crypto;
    assert Cryptos.LawfulEncoder(c) && upload.staged.inode in s.disk.inodes;
    assert upload.staged.offset == |Content(s.disk, upload.staged.inode)|;
    hide Cryptos.LawfulEncoder, UploadStates.Drained, UploadStates.Tail, UploadStates.Flushed, UploadStates.Tracks,
         Steps, NameOf, Uploads.FinishedFrom, Uploads.FinishCut, Ordinal, WithinLimits, OthersStay, OnlyWrote,
         Content, Uploads.Upload.Valid;
    r := upload.Finish();
    if r.Ok? {
      steps, t := FinishDone(c, dir, s, id, upload.state, upload.staged.store.disk);
    } else {
      steps, t := FinishFailed(c, dir, s, id, upload.staged, upload.staged.store.disk);
    }
    ReachedBy(upload.crypto, dir, s, steps, t);
  }

  lemma CutAt(before: Disk, after: Disk, staged: Stores.Staged, offset: nat, bytes: seq<byte>) returns (left: Disk)
    requires Uploads.Cut(before, after, staged, offset, bytes)
    ensures Uploads.PartWritten(before, left, staged.inode, offset, bytes)
    ensures Uploads.Dropped(left, after, staged.name, staged.committed)
  {
    left :|
      Uploads.PartWritten(before, left, staged.inode, offset, bytes)
      && Uploads.Dropped(left, after, staged.name, staged.committed);
  }

  /** `Upload.Verify`. */
  method VerifyUpload(
      upload: Uploads.Upload, index: Indexes.Index, ghost dir: StorePaths.Dir, ghost s: State, ghost id: nat)
      returns (r: Result<(), UploadStates.Error>, ghost t: State)
    requires Serves(s, upload.staged.store, index) && Carries(s, id, upload) && upload.Valid()
    requires upload.state.Compressed?
    modifies upload`state, upload.staged.store`disk
    ensures OthersStay(s, t, id)
    ensures Serves(t, upload.staged.store, index)
    ensures if r.Ok? then Carries(t, id, upload) && upload.Valid() && upload.state.Verified?
            else id !in t.mode.uploads
    ensures r.Ok? <==>
      upload.crypto.sha(Concat(upload.received)) == upload.expected && Concat(upload.received) != []
    ensures r.Err? ==>
      var found := upload.crypto.sha(Concat(upload.received));
      r.error == if found != upload.expected then UploadStates.HashMismatch(upload.expected, found) else UploadStates.Empty
    ensures WithinLimits(upload.staged.store.disk)
    ensures upload.staged.store.disk.artifacts == old(upload.staged.store.disk).artifacts
    ensures Reaches(upload.crypto, dir, s, t)
  {
    ghost var steps;
    ghost var c := upload.crypto;
    assert Cryptos.LawfulEncoder(c);
    hide Cryptos.LawfulEncoder, UploadStates.Gate, UploadStates.Tracks, Steps, NameOf, Uploads.Dropped, Ordinal,
         WithinLimits, Uploads.Upload.Valid;
    r := upload.Verify();
    if r.Ok? {
      steps, t := VerifySteps(c, dir, s, id);
    } else {
      StepsNone(c, dir, s);
      steps, t := ThenDrop(c, dir, s, [], s, id, upload.staged.store.disk);
    }
    ReachedBy(upload.crypto, dir, s, steps, t);
  }

  lemma VerifySteps(c: Cryptos.Crypto, dir: StorePaths.Dir, s: State, id: nat) returns (steps: seq<Step>, t: State)
    requires Cryptos.LawfulEncoder(c) && Uploading(s, id)
    requires s.mode.uploads[id].state.Compressed? && s.mode.uploads[id].inflight == []
    requires UploadStates.Gate(s.mode.uploads[id].state, s.mode.uploads[id].expected).Ok?
    ensures OthersStay(s, t, id) && t.disk == s.disk && t.tables == s.tables
    ensures var live := s.mode.uploads[id];
            && Uploading(t, id) && t.mode.pid == s.mode.pid && t.mode.sequence == s.mode.sequence
            && t.mode.uploads[id] == live.(state := UploadStates.Gate(live.state, live.expected).value)
    ensures Steps(c, dir, s, steps, t)
  {
    hide Cryptos.LawfulEncoder, UploadStates.Gate, Steps, Enabled, After;
    steps := [Upload(id, Move.Verify)];
    OneMove(c, dir, s, id, Move.Verify);
    t := Moved(c, s, id, Move.Verify);
  }

  lemma Idle(c: Cryptos.Crypto, dir: StorePaths.Dir, s: State) returns (steps: seq<Step>, t: State)
    requires Cryptos.LawfulEncoder(c)
    ensures t == s
    ensures Steps(c, dir, s, steps, t)
  {
    steps, t := [], s;
  }

  lemma StepsNone(c: Cryptos.Crypto, dir: StorePaths.Dir, s: State)
    requires Cryptos.LawfulEncoder(c)
    ensures Steps(c, dir, s, [], s)
  {
  }

  /** `Upload.Store`: the rename and the row, the rename alone, or neither. */
  method StoreUpload(
      upload: Uploads.Upload, index: Indexes.Index, ghost dir: StorePaths.Dir, ghost s: State, ghost id: nat)
      returns (r: Result<IndexTables.Entry, UploadStates.Error>, ghost t: State)
    requires Serves(s, upload.staged.store, index) && Carries(s, id, upload) && upload.Valid()
    requires upload.state.Verified?
    modifies upload.staged`committed, upload.staged.store`disk, upload.staged.store`faults, index
    ensures Counted(old(upload.staged.store.faults) + old(index.faults), upload.staged.store.faults + index.faults, r.Err?)
    ensures old(upload.staged.store.faults) <= upload.staged.store.faults && old(index.faults) <= index.faults
    ensures OthersStay(s, t, id) && id !in t.mode.uploads
    ensures Serves(t, upload.staged.store, index)
    ensures WithinLimits(upload.staged.store.disk)
    ensures r.Ok? ==>
      && Artifact(upload.staged.store.disk, IndexTables.Url(r.value)) == Some(old(upload.Stored()))
      && index.tables
         == IndexTables.PutNar(old(index.tables), upload.crypto.sha(Concat(upload.received)), r.value)
      && UploadStates.Describes(
           upload.crypto, old(upload.Stored()), upload.crypto.sha(Concat(upload.received)), r.value)
      && upload.crypto.inflate(old(upload.Stored())) == Some(Concat(upload.received))
    ensures r.Err? ==> index.tables == old(index.tables)
    ensures Reaches(upload.crypto, dir, s, t)
  {
    ghost var steps;
    ghost var c := upload.crypto;
    ghost var state := upload.state;
    assert state.narHash == c.sha(Concat(upload.received));
    hide Cryptos.LawfulEncoder, UploadStates.Tracks, UploadStates.Describes, Steps, NameOf, Ordinal, LocationOf,
         Renamed, Unlinked;
    r := upload.Store(index);
    if r.Err? && r.error.Stage? {
      StepsNone(c, dir, s);
      steps, t := ThenDrop(c, dir, s, [], s, id, upload.staged.store.disk);
    } else {
      steps, t := StoreSteps(c, dir, s, id, r.Ok?);
    }
    ReachedBy(upload.crypto, dir, s, steps, t);
  }

  lemma StoreSteps(c: Cryptos.Crypto, dir: StorePaths.Dir, s: State, id: nat, records: bool)
      returns (steps: seq<Step>, t: State)
    requires Cryptos.LawfulEncoder(c) && Uploading(s, id) && s.mode.uploads[id].state.Verified?
    requires s.mode.uploads[id].inflight == [] && NameOf(s.mode.pid, id) in s.disk.staging
    ensures OthersStay(s, t, id) && id !in t.mode.uploads
    ensures var state := s.mode.uploads[id].state;
            var entry := UploadStates.EntryOf(state);
            && t.disk == Renamed(s.disk, NameOf(s.mode.pid, id), LocationOf(IndexTables.Url(entry)))
            && t.tables == if records then IndexTables.PutNar(s.tables, state.narHash, entry) else s.tables
    ensures Steps(c, dir, s, steps, t)
  {
    hide Cryptos.LawfulEncoder, Steps, NameOf, LocationOf, IndexTables.PutNar, Enabled, After;
    var m := Moved(c, s, id, Move.Rename);
    var last := if records then Move.PutNar else Abandon(false);
    TwoMoves(c, dir, s, id, Move.Rename, last);
    steps := [Upload(id, Move.Rename), Upload(id, last)];
    t := Moved(c, m, id, last);
    assert s.mode.uploads[id := m.mode.uploads[id]] - {id} == s.mode.uploads - {id};
    assert (s.mode.uploads - {id}) - {id} == s.mode.uploads - {id};
  }

  lemma PartOf(before: Disk, after: Disk, inode: nat, offset: nat, bytes: seq<byte>) returns (k: nat)
    requires Uploads.PartWritten(before, after, inode, offset, bytes)
    ensures k <= |bytes| && after == Written(before, inode, offset, bytes[..k])
  {
    k :| 0 <= k <= |bytes| && after == Written(before, inode, offset, bytes[..k]);
  }

  /** The end of an upload nobody will finish, in whatever stage. */
  method DropUpload(
      upload: Uploads.Upload, index: Indexes.Index, ghost dir: StorePaths.Dir, ghost s: State, ghost id: nat)
      returns (ghost t: State)
    requires Cryptos.LawfulEncoder(upload.crypto) && WithinLimits(upload.staged.store.disk)
    requires Serves(s, upload.staged.store, index) && Carries(s, id, upload)
    modifies upload.staged.store`disk
    ensures OthersStay(s, t, id) && id !in t.mode.uploads
    ensures Serves(t, upload.staged.store, index)
    ensures WithinLimits(upload.staged.store.disk)
    ensures upload.staged.store.disk.artifacts == old(upload.staged.store.disk).artifacts
    ensures Reaches(upload.crypto, dir, s, t)
  {
    ghost var steps;
    hide Cryptos.LawfulEncoder, Steps, NameOf, Ordinal;
    ghost var c := upload.crypto;
    upload.staged.Drop();
    StepsNone(c, dir, s);
    steps, t := ThenDrop(c, dir, s, [], s, id, upload.staged.store.disk);
    ReachedBy(upload.crypto, dir, s, steps, t);
  }

  /** `Upload.Abort`, in whatever stage. */
  method AbortUpload(
      upload: Uploads.Upload, index: Indexes.Index, ghost dir: StorePaths.Dir, ghost s: State, ghost id: nat)
      returns (r: Result<(), UploadStates.Error>, ghost t: State)
    requires Cryptos.LawfulEncoder(upload.crypto)
    requires Serves(s, upload.staged.store, index) && Carries(s, id, upload)
    modifies upload.staged`committed, upload.staged.store`disk, upload.staged.store`faults
    ensures OthersStay(s, t, id) && id !in t.mode.uploads
    ensures Serves(t, upload.staged.store, index)
    ensures Reaches(upload.crypto, dir, s, t)
  {
    ghost var steps;
    hide Cryptos.LawfulEncoder, Steps, NameOf, Ordinal;
    ghost var c := upload.crypto;
    r := upload.Abort();
    StepsNone(c, dir, s);
    steps, t := ThenDrop(c, dir, s, [], s, id, upload.staged.store.disk);
    ReachedBy(upload.crypto, dir, s, steps, t);
  }

  /** `Ingest.Receive`: a file for a new upload, a counter that moved, or nothing. */
  method StartUpload(ingest: Ingests.Ingest, target: NarUrls.NarUrl, ghost s: State)
      returns (r: Result<Uploads.Upload, Ingests.Error>, ghost t: State)
    requires Cryptos.LawfulEncoder(ingest.crypto) && WithinLimits(ingest.store.disk)
    requires Serves(s, ingest.store, ingest.index) && s.mode.Serving?
    requires NameFree(s.mode.uploads, s.mode.sequence) && s.mode.sequence !in s.mode.uploads
    modifies ingest.store
    ensures Serves(t, ingest.store, ingest.index)
    ensures r.Ok? ==>
      && Carries(t, s.mode.sequence, r.value) && r.value.Valid() && r.value.state == UploadStates.FRESH
      && t.mode.uploads - {s.mode.sequence} == s.mode.uploads
      && fresh(r.value) && fresh(r.value.staged)
      && r.value.crypto == ingest.crypto && r.value.staged.store == ingest.store
      && r.value.expected == target.fileHash && r.value.received == []
    ensures r.Err? ==> t.mode.uploads == s.mode.uploads
    ensures t.mode == s.mode.(uploads := t.mode.uploads, sequence := t.mode.sequence) && t.signers == s.signers
    ensures target.compression != Compressions.None_ ==> r == Err(Ingests.PreCompressed(target.compression))
    ensures r.Err? && target.compression == Compressions.None_ ==> Ingests.FaultOf(r.error) == UploadStates.Server
    ensures Counted(old(ingest.store.faults), ingest.store.faults, r.Err? && target.compression == Compressions.None_)
    ensures WithinLimits(ingest.store.disk) && ingest.store.disk.artifacts == old(ingest.store.disk).artifacts
    ensures Reaches(ingest.crypto, ingest.dir, s, t)
  {
    ghost var steps;
    hide Cryptos.LawfulEncoder, UploadStates.Tracks, Steps, Serves, Carries, NameFree, Ordinal, Opens, Created,
         Stores.StagingName, Stores.Following, Ingests.StagedOrNot, Ingests.FaultOf, WithinLimits,
         Uploads.Upload.Valid;
    ServesParts(s, ingest.store, ingest.index);
    ghost var c, dir, id := ingest.crypto, ingest.dir, s.mode.sequence;
    WrapsAround(id);
    r := ingest.Receive(target);
    if r.Ok? {
      steps, t := StageSteps(c, dir, s, r.value.staged.inode, target.fileHash);
      ShowsUpload(t, id, r.value);
    } else if target.compression != Compressions.None_ {
      steps, t := Idle(c, dir, s);
    } else {
      steps, t := StageFailed(c, dir, s, ingest.store.disk);
    }
    ShowsServing(t, ingest.store, ingest.index);
    ReachedBy(ingest.crypto, ingest.dir, s, steps, t);
  }

  lemma ServesParts(s: State, store: Stores.Store, index: Indexes.Index)
    requires Serves(s, store, index)
    ensures s.disk == store.disk && s.tables == index.tables
    ensures s.mode.Serving? && s.mode.pid == store.pid && Ordinal(s.mode.sequence) == store.sequence
  {
  }

  lemma ShowsServing(t: State, store: Stores.Store, index: Indexes.Index)
    requires t.disk == store.disk && t.tables == index.tables
    requires t.mode.Serving? && t.mode.pid == store.pid && Ordinal(t.mode.sequence) == store.sequence
    ensures Serves(t, store, index)
  {
  }

  lemma ShowsUpload(t: State, id: nat, upload: Uploads.Upload)
    requires Uploading(t, id) && upload.staged.name == NameOf(t.mode.pid, id) && !upload.staged.committed
    requires t.mode.uploads[id] == Live(upload.staged.inode, upload.expected, upload.state, upload.received, [], false)
    ensures Carries(t, id, upload)
  {
  }

  lemma WrapsAround(id: nat)
    ensures Ordinal(id + 1) == Stores.Following(Ordinal(id))
  {
  }

  lemma StageSteps(
      c: Cryptos.Crypto, dir: StorePaths.Dir, s: State, inode: nat, expected: Digests.Digest)
      returns (steps: seq<Step>, t: State)
    requires Cryptos.LawfulEncoder(c) && s.mode.Serving? && s.mode.sequence !in s.mode.uploads
    requires NameFree(s.mode.uploads, s.mode.sequence) && Opens(s.disk, NameOf(s.mode.pid, s.mode.sequence), inode)
    ensures var id := s.mode.sequence;
            t == s.(disk := Created(s.disk, NameOf(s.mode.pid, id), inode),
                    mode := s.mode.(sequence := id + 1,
                                    uploads := s.mode.uploads[id := Live(inode, expected, UploadStates.FRESH, [], [], false)]))
    ensures t.mode.uploads - {s.mode.sequence} == s.mode.uploads
    ensures Steps(c, dir, s, steps, t)
  {
    hide Cryptos.LawfulEncoder, Steps, NameOf, Created, Opens, NameFree;
    steps := [Stage(inode, expected)];
    One(c, dir, s, steps[0]);
    t := After(c, dir, s, steps[0]);
  }

  lemma StageFailed(c: Cryptos.Crypto, dir: StorePaths.Dir, s: State, after: Disk)
      returns (steps: seq<Step>, t: State)
    requires Cryptos.LawfulEncoder(c) && s.mode.Serving? && s.mode.sequence !in s.mode.uploads
    requires NameFree(s.mode.uploads, s.mode.sequence)
    requires Ingests.StagedOrNot(s.disk, after, NameOf(s.mode.pid, s.mode.sequence))
    ensures t == s.(disk := after, mode := s.mode.(sequence := s.mode.sequence + 1))
    ensures Steps(c, dir, s, steps, t)
  {
    hide Cryptos.LawfulEncoder, Steps, NameOf, NameFree, Created, Opens, Uploads.Dropped;
    if after == s.disk {
      steps, t := NothingStaged(c, dir, s);
    } else {
      var name := NameOf(s.mode.pid, s.mode.sequence);
      var inode :| Opens(s.disk, name, inode) && Uploads.Dropped(Created(s.disk, name, inode), after, name, false);
      steps, t := StagedThenDropped(c, dir, s, inode, after);
    }
  }

  lemma NothingStaged(c: Cryptos.Crypto, dir: StorePaths.Dir, s: State) returns (steps: seq<Step>, t: State)
    requires Cryptos.LawfulEncoder(c) && s.mode.Serving?
    ensures t == s.(mode := s.mode.(sequence := s.mode.sequence + 1))
    ensures Steps(c, dir, s, steps, t)
  {
    hide Cryptos.LawfulEncoder, Steps;
    steps := [StageFails];
    One(c, dir, s, StageFails);
    t := After(c, dir, s, StageFails);
  }

  lemma StagedThenDropped(c: Cryptos.Crypto, dir: StorePaths.Dir, s: State, inode: nat, after: Disk)
      returns (steps: seq<Step>, t: State)
    requires Cryptos.LawfulEncoder(c) && s.mode.Serving? && s.mode.sequence !in s.mode.uploads
    requires NameFree(s.mode.uploads, s.mode.sequence) && Opens(s.disk, NameOf(s.mode.pid, s.mode.sequence), inode)
    requires var name := NameOf(s.mode.pid, s.mode.sequence);
             Uploads.Dropped(Created(s.disk, name, inode), after, name, false)
    ensures t == s.(disk := after, mode := s.mode.(sequence := s.mode.sequence + 1))
    ensures Steps(c, dir, s, steps, t)
  {
    hide Cryptos.LawfulEncoder, Steps, NameOf, NameFree, Created, Opens, Uploads.Dropped;
    var m, last;
    steps, m := StageSteps(c, dir, s, inode, c.sha([]));
    last, t := DropSteps(c, dir, m, s.mode.sequence, after);
    Append(c, dir, s, steps, m, last, t);
    steps := steps + last;
  }

  /** `Ingest.Publish`: its two transactions, or neither. */
  method PublishRecord(ingest: Ingests.Ingest, body: string, ghost s: State, ghost id: nat)
      returns (r: Result<NarInfos.NarInfo, Ingests.Error>, ghost t: State)
    requires Cryptos.LawfulEncoder(ingest.crypto) && Serves(s, ingest.store, ingest.index)
    requires s.mode.key == ingest.key && id !in s.mode.publishes
    modifies ingest.index
    ensures Serves(t, ingest.store, ingest.index) && t.mode == s.mode
    ensures r.Ok? ==>
      && r == Ingests.Prepared(ingest.crypto, ingest.dir, ingest.key, old(ingest.index.tables), body)
      && ingest.index.tables == IndexTables.Publish(old(ingest.index.tables), r.value)
    ensures r.Err? ==>
      && ingest.index.tables == old(ingest.index.tables)
      && (r.error.Index?
          || r == Ingests.Prepared(ingest.crypto, ingest.dir, ingest.key, ingest.index.tables, body))
    ensures Counted(old(ingest.index.faults), ingest.index.faults, r.Err? && r.error.Index?)
    ensures Reaches(ingest.crypto, ingest.dir, s, t)
  {
    ghost var steps;
    ghost var c, dir := ingest.crypto, ingest.dir;
    hide Cryptos.LawfulEncoder, Steps, Ingests.Prepared, IndexTables.Publish;
    r := ingest.Publish(body);
    if r.Ok? {
      steps, t := PublishSteps(c, dir, s, id, body);
    } else {
      steps, t := Idle(c, dir, s);
    }
    ReachedBy(ingest.crypto, ingest.dir, s, steps, t);
  }

  lemma PublishSteps(c: Cryptos.Crypto, dir: StorePaths.Dir, s: State, id: nat, body: string)
      returns (steps: seq<Step>, t: State)
    requires Cryptos.LawfulEncoder(c) && s.mode.Serving? && id !in s.mode.publishes
    requires Ingests.Prepared(c, dir, s.mode.key, s.tables, body).Ok?
    ensures t.disk == s.disk && t.mode == s.mode
    ensures t.tables == IndexTables.Publish(s.tables, Ingests.Prepared(c, dir, s.mode.key, s.tables, body).value)
    ensures Steps(c, dir, s, steps, t)
  {
    hide Cryptos.LawfulEncoder, Steps, Ingests.Prepared, IndexTables.Publish;
    One(c, dir, s, ReadRow(id, body));
    var m := After(c, dir, s, ReadRow(id, body));
    Then(c, dir, s, [ReadRow(id, body)], m, Publish(id));
    steps := [ReadRow(id, body)] + [Publish(id)];
    t := After(c, dir, m, Publish(id));
    assert m.mode.publishes - {id} == s.mode.publishes;
  }

  // ----- The commands, and the boot -----

  /** `Store.SweepStaging`, in a process that boots: one step a name, and no more than that when it fails. */
  method SweepAll(store: Stores.Store, ghost c: Cryptos.Crypto, ghost dir: StorePaths.Dir, ghost s: State)
      returns (r: Result<nat, Stores.Error>, ghost t: State)
    requires Cryptos.LawfulEncoder(c) && s.mode.Booting? && s.disk == store.disk
    modifies store`disk, store`faults
    ensures t == s.(disk := store.disk) && (r.Ok? ==> Enabled(c, dir, t, Listen))
    ensures Reaches(c, dir, s, t)
  {
    ghost var steps;
    hide Cryptos.LawfulEncoder, Steps;
    r := store.SweepStaging();
    t := s.(disk := store.disk);
    steps := SweepSteps(c, dir, s, store.disk.staging);
    ReachedBy(c, dir, s, steps, t);
  }

  lemma {:induction false} SweepSteps(c: Cryptos.Crypto, dir: StorePaths.Dir, s: State, left: map<string, nat>)
      returns (steps: seq<Step>)
    requires Cryptos.LawfulEncoder(c) && s.mode.Booting?
    requires forall name <- left :: name in s.disk.staging && left[name] == s.disk.staging[name]
    ensures Steps(c, dir, s, steps, s.(disk := s.disk.(staging := left)))
    decreases |s.disk.staging|
  {
    hide Cryptos.LawfulEncoder, Steps;
    if name :| name in s.disk.staging && name !in left {
      One(c, dir, s, Sweep(name));
      var next := After(c, dir, s, Sweep(name));
      assert next.disk.staging.Keys == s.disk.staging.Keys - {name};
      var rest := SweepSteps(c, dir, next, left);
      steps := [Sweep(name)] + rest;
      Append(c, dir, s, [Sweep(name)], next, rest, s.(disk := s.disk.(staging := left)));
    } else {
      assert left == s.disk.staging;
      StepsNone(c, dir, s);
      steps := [];
    }
  }

  /** `maintain::delete`. */
  method DeleteRecord(
      index: Indexes.Index, key: StorePaths.Hash, ghost c: Cryptos.Crypto, ghost dir: StorePaths.Dir, ghost s: State)
      returns (r: Result<Maintain.Deleted, Maintain.Error>, ghost t: State)
    requires Cryptos.LawfulEncoder(c) && s.mode.Down? && s.tables == index.tables
    modifies index
    ensures t == s.(tables := index.tables)
    ensures Reaches(c, dir, s, t)
  {
    ghost var steps;
    hide Cryptos.LawfulEncoder, Steps, IndexTables.Unpublish;
    r := Maintain.Delete(index, key);
    if r.Ok? {
      steps := [Delete(key)];
      One(c, dir, s, steps[0]);
      t := After(c, dir, s, steps[0]);
    } else {
      steps, t := Idle(c, dir, s);
    }
    ReachedBy(c, dir, s, steps, t);
  }

  /** Some of a rotation's batches, the way `CommitBatches` leaves them. */
  lemma {:induction false} BatchSteps(c: Cryptos.Crypto, dir: StorePaths.Dir, s: State, count: nat)
      returns (steps: seq<Step>, t: State)
    requires Cryptos.LawfulEncoder(c) && s.mode.Rotating? && Maintain.WholeBatches(count, |s.mode.todo|)
    ensures t.disk == s.disk && t.mode == s.mode.(todo := s.mode.todo[count..])
    ensures t.tables == IndexTables.Republish(s.tables, s.mode.todo[..count])
    ensures Steps(c, dir, s, steps, t)
    decreases count
  {
    hide Cryptos.LawfulEncoder, Steps, IndexTables.Republish, Maintain.WholeBatches, Maintain.BatchEnd, SignedOver,
         Enabled, After;
    var todo := s.mode.todo;
    if count == 0 {
      NothingRepublished(s.tables, todo);
      assert todo[0..] == todo;
      steps, t := Idle(c, dir, s);
    } else {
      FirstBatch(count, |todo|);
      var end := Maintain.BatchEnd(0, |todo|);
      OneBatch(c, dir, s);
      var m := Batched(s);
      var rest;
      rest, t := BatchSteps(c, dir, m, count - end);
      steps := [Batch] + rest;
      Append(c, dir, s, [Batch], m, rest, t);
      BatchSlices(todo, end, count);
      IndexTables.RepublishAppend(s.tables, todo[..end], todo[end..count]);
    }
  }

  lemma OneBatch(c: Cryptos.Crypto, dir: StorePaths.Dir, s: State)
    requires Cryptos.LawfulEncoder(c) && s.mode.Rotating? && s.mode.todo != []
    ensures Steps(c, dir, s, [Batch], Batched(s))
  {
    hide Cryptos.LawfulEncoder, Steps, Batched;
    One(c, dir, s, Batch);
  }

  lemma BatchSlices<T>(todo: seq<T>, end: nat, count: nat)
    requires end <= count <= |todo|
    ensures todo[end..][..count - end] == todo[end..count] && todo[end..][count - end..] == todo[count..]
    ensures todo[..end] + todo[end..count] == todo[..count]
  {
  }

  lemma FirstBatch(count: nat, total: nat)
    requires 0 < count && Maintain.WholeBatches(count, total)
    ensures 0 < total
    ensures var end := Maintain.BatchEnd(0, total);
            0 < end <= count && Maintain.WholeBatches(count - end, total - end)
  {
  }

  /** `maintain::rotate`: the listing, then whole batches, then the end of the command or its death. */
  method RotateAll(
      index: Indexes.Index, key: Cryptos.SecretKey, c: Cryptos.Crypto, dir: StorePaths.Dir, ghost s: State)
      returns (r: Result<nat, Maintain.Error>, ghost t: State)
    requires Cryptos.LawfulEncoder(c) && s.mode.Down? && s.tables == index.tables
    modifies index
    ensures t.disk == s.disk && t.mode.Down? && t.tables == index.tables
    ensures Reaches(c, dir, s, t)
  {
    ghost var steps;
    hide Cryptos.LawfulEncoder, Steps, IndexTables.Republish, IndexTables.ResignAll, IndexTables.Lists,
         Maintain.WholeBatches;
    ghost var keys, rows, count;
    r, keys, rows, count := Maintain.Rotate(c, index, dir, key);
    if count > 0 || r.Ok? {
      steps, t := RotateSteps(c, dir, s, key, keys, rows, count);
    } else {
      NothingRepublished(s.tables, IndexTables.ResignAll(c, rows, dir, key));
      steps, t := Idle(c, dir, s);
    }
    ReachedBy(c, dir, s, steps, t);
  }

  lemma NothingRepublished(tables: IndexTables.Tables, rows: seq<NarInfos.NarInfo>)
    ensures IndexTables.Republish(tables, rows[..0]) == tables
  {
  }

  lemma RotateSteps(
      c: Cryptos.Crypto, dir: StorePaths.Dir, s: State, key: Cryptos.SecretKey,
      keys: seq<StorePaths.Hash>, rows: seq<NarInfos.NarInfo>, count: nat)
      returns (steps: seq<Step>, t: State)
    requires Cryptos.LawfulEncoder(c) && s.mode.Down? && IndexTables.Lists(s.tables, keys, rows)
    requires Maintain.WholeBatches(count, |rows|)
    ensures t.disk == s.disk && t.mode.Down?
    ensures t.tables == IndexTables.Republish(s.tables, IndexTables.ResignAll(c, rows, dir, key)[..count])
    ensures Steps(c, dir, s, steps, t)
  {
    assert count <= |IndexTables.ResignAll(c, rows, dir, key)| == |rows|;
    hide Cryptos.LawfulEncoder, Steps, Enabled, After, IndexTables.Republish, IndexTables.ResignAll, IndexTables.Lists,
         Maintain.WholeBatches;
    RotationStarts(c, dir, s, key, keys, rows);
    One(c, dir, s, Rotate(key, keys, rows));
    var m := After(c, dir, s, Rotate(key, keys, rows));
    var batches, n := BatchSteps(c, dir, m, count);
    Append(c, dir, s, [Rotate(key, keys, rows)], m, batches, n);
    steps := [Rotate(key, keys, rows)] + batches;
    var last := RotationStops(c, dir, n);
    Then(c, dir, s, steps, n, last);
    steps := steps + [last];
    t := n.(mode := Down);
  }

  lemma RotationStarts(
      c: Cryptos.Crypto, dir: StorePaths.Dir, s: State, key: Cryptos.SecretKey,
      keys: seq<StorePaths.Hash>, rows: seq<NarInfos.NarInfo>)
    requires Cryptos.LawfulEncoder(c) && s.mode.Down? && IndexTables.Lists(s.tables, keys, rows)
    ensures Enabled(c, dir, s, Rotate(key, keys, rows))
    ensures After(c, dir, s, Rotate(key, keys, rows))
         == s.(mode := Rotating(key, IndexTables.ResignAll(c, rows, dir, key)))
  {
    hide Cryptos.LawfulEncoder, IndexTables.ResignAll, IndexTables.Lists;
  }

  lemma RotationStops(c: Cryptos.Crypto, dir: StorePaths.Dir, s: State) returns (last: Step)
    requires Cryptos.LawfulEncoder(c) && s.mode.Rotating?
    ensures Enabled(c, dir, s, last) && After(c, dir, s, last) == s.(mode := Down)
  {
    hide Cryptos.LawfulEncoder;
    last := if s.mode.todo == [] then Rotated else Crash;
  }
}
