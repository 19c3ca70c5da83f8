/** Runs that do things, so that what is proved of all runs is proved of these too. */
module Witnesses {
  import opened Prelude
  import Cryptos
  import Digests
  import Fingerprints
  import opened Disks
  import IndexTables
  import Ingests
  import NarInfoParsing
  import NarInfoRoundTrip
  import NarInfos
  import StorePaths
  import UploadStates
  import opened Protocols
  import opened Safety

  function Last(states: seq<State>): State
    requires states != []
  {
    states[|states| - 1]
  }

  lemma Extend(c: Cryptos.Crypto, dir: StorePaths.Dir, states: seq<State>, steps: seq<Step>, step: Step)
      returns (more: seq<State>, longer: seq<Step>)
    requires Cryptos.LawfulEncoder(c) && Run(c, dir, states, steps) && Enabled(c, dir, Last(states), step)
    ensures more != [] && Run(c, dir, more, longer) && Last(more) == After(c, dir, Last(states), step)
    ensures longer == steps + [step] && |more| == |longer| + 1 && more[|steps|] == Last(states)
  {
    hide Enabled, After;
    more, longer := states + [After(c, dir, Last(states), step)], steps + [step];
  }

  /** A first boot reaches a serving process. */
  lemma Booted(c: Cryptos.Crypto, dir: StorePaths.Dir, pid: nat, key: Cryptos.SecretKey)
      returns (states: seq<State>, steps: seq<Step>)
    requires Lawful(c)
    ensures states != [] && Run(c, dir, states, steps)
    ensures Last(states) == INITIAL.(mode := Serving(pid, key, 0, map[], map[]))
  {
    states, steps := [INITIAL], [];
    assert Run(c, dir, states, steps);
    hide Run;
    states, steps := Extend(c, dir, states, steps, Boot(pid, key));
    states, steps := Extend(c, dir, states, steps, Listen);
  }

  /** A process that has just one upload, in a given state, staged in the file `inode`. */
  ghost predicate OneUpload(
      s: State, pid: nat, key: Cryptos.SecretKey, expected: Digests.Digest, state: UploadStates.State, inflight: seq<byte>)
  {
    && s.tables == IndexTables.EMPTY
    && s.mode.Serving? && s.mode.pid == pid && s.mode.key == key
    && Uploading(s, 0)
    && s.mode.uploads[0].expected == expected
    && s.mode.uploads[0].state == state
    && s.mode.uploads[0].inflight == inflight
    && NameOf(pid, 0) in s.disk.staging
  }

  lemma StagedAndFed(c: Cryptos.Crypto, dir: StorePaths.Dir, pid: nat, key: Cryptos.SecretKey, nar: seq<byte>)
      returns (states: seq<State>, steps: seq<Step>)
    requires Lawful(c) && |nar| < U64_LIMIT
    ensures states != [] && Run(c, dir, states, steps)
    ensures OneUpload(Last(states), pid, key, c.sha(nar), UploadStates.Fed(c, UploadStates.FRESH, nar), [])
    ensures Last(states).mode.sequence == 1
    ensures Content(Last(states).disk, Last(states).mode.uploads[0].inode) == []
  {
    hide Run, UploadStates.Fed, NameOf;
    states, steps := Booted(c, dir, pid, key);
    states, steps := Extend(c, dir, states, steps, Stage(0, c.sha(nar)));
    assert OneUpload(Last(states), pid, key, c.sha(nar), UploadStates.FRESH, []);
    states, steps := Extend(c, dir, states, steps, Upload(0, Feed(nar)));
  }

  lemma FlushedAndWritten(c: Cryptos.Crypto, dir: StorePaths.Dir, pid: nat, key: Cryptos.SecretKey, nar: seq<byte>)
      returns (states: seq<State>, steps: seq<Step>)
    requires Lawful(c) && |nar| < U64_LIMIT && |c.total([nar])| < U64_LIMIT
    ensures states != [] && Run(c, dir, states, steps)
    ensures exists size: u64, file: seq<byte> ::
      OneUpload(Last(states), pid, key, c.sha(nar), UploadStates.Compressed(c.sha(nar), |nar|, c.sha(file), size), [])
  {
    states, steps := StagedAndFed(c, dir, pid, key, nar);
    var fed := UploadStates.Fed(c, UploadStates.FRESH, nar);
    var tail := UploadStates.Tail(c, fed.encoder);
    assert [] + [nar] == [nar] && [] + nar == nar;
    assert tail == c.total([nar]);
    var size: u64 := |tail|;
    assert UploadStates.Flushed(c, fed, size)
        == UploadStates.Compressed(c.sha(nar), |nar|, c.sha([] + tail), size);
    hide Run, UploadStates.Fed, UploadStates.Flushed, UploadStates.Tail, NameOf, Written;
    states, steps := Extend(c, dir, states, steps, Upload(0, Flush));
    assert OneUpload(Last(states), pid, key, c.sha(nar), UploadStates.Flushed(c, fed, size), tail);
    states, steps := Extend(c, dir, states, steps, Upload(0, Write(|tail|)));
    assert tail[|tail|..] == [];
    assert OneUpload(Last(states), pid, key, c.sha(nar), UploadStates.Flushed(c, fed, size), []);
  }

  /** Every non-empty NAR can be pushed: its row is there, with its size, and the process goes on serving. */
  lemma PushLands(c: Cryptos.Crypto, dir: StorePaths.Dir, pid: nat, key: Cryptos.SecretKey, nar: seq<byte>)
      returns (states: seq<State>, steps: seq<Step>)
    requires Lawful(c) && nar != [] && |nar| < U64_LIMIT && |c.total([nar])| < U64_LIMIT
    ensures states != [] && Run(c, dir, states, steps)
    ensures var s := Last(states);
            && s.mode.Serving? && s.mode.key == key && s.tables.narinfo == map[]
            && c.sha(nar) in s.tables.nar && s.tables.nar[c.sha(nar)].narSize == |nar|
  {
    states, steps := FlushedAndWritten(c, dir, pid, key, nar);
    hide Run, NameOf, Renamed, LocationOf;
    states, steps := Extend(c, dir, states, steps, Upload(0, Verify));
    states, steps := Extend(c, dir, states, steps, Upload(0, Rename));
    states, steps := Extend(c, dir, states, steps, Upload(0, PutNar));
  }

  /** What a client has to say for its record to be published for a NAR that was pushed. */
  ghost predicate Publishable(
      c: Cryptos.Crypto, dir: StorePaths.Dir, tables: IndexTables.Tables, declared: NarInfos.NarInfo)
  {
    && NarInfoParsing.Renderable(declared) && !NarInfoParsing.CaEndsInCr(declared) && '\n' !in dir
    && declared.narHash in tables.nar && tables.nar[declared.narHash].narSize == declared.narSize
  }

  lemma PublishableIsPrepared(
      c: Cryptos.Crypto, dir: StorePaths.Dir, key: Cryptos.SecretKey, tables: IndexTables.Tables,
      declared: NarInfos.NarInfo)
    requires Publishable(c, dir, tables, declared)
    ensures Ingests.Prepared(c, dir, key, tables, NarInfos.Rendered(declared, dir))
         == Ok(Ingests.Built(c, dir, key, declared, tables.nar[declared.narHash]))
  {
    hide NarInfoParsing.Parsed, NarInfos.Rendered, Ingests.Built;
    NarInfoRoundTrip.RoundTripsExactlyWhenRenderable(declared, dir);
  }

  lemma PublishEffects(c: Cryptos.Crypto, dir: StorePaths.Dir, s: State, body: string)
    requires Cryptos.LawfulEncoder(c) && s.mode.Serving?
    requires Ingests.Prepared(c, dir, s.mode.key, s.tables, body).Ok?
    ensures Enabled(c, dir, s, ReadRow(0, body))
    ensures var read := After(c, dir, s, ReadRow(0, body));
            && Enabled(c, dir, read, Publish(0))
            && After(c, dir, read, Publish(0)).mode.Serving?
            && After(c, dir, read, Publish(0)).mode.key == s.mode.key
            && After(c, dir, read, Publish(0)).tables
               == IndexTables.Publish(s.tables, Ingests.Prepared(c, dir, s.mode.key, s.tables, body).value)
  {
    hide Ingests.Prepared, IndexTables.Publish, Cryptos.LawfulEncoder;
  }

  /** A run that serves can go on to publish any such record. */
  lemma PublishNext(
      c: Cryptos.Crypto, dir: StorePaths.Dir, states: seq<State>, steps: seq<Step>, declared: NarInfos.NarInfo)
      returns (more: seq<State>, longer: seq<Step>)
    requires states != [] && Lawful(c) && Run(c, dir, states, steps) && Last(states).mode.Serving?
    requires Publishable(c, dir, Last(states).tables, declared)
    ensures more != [] && Run(c, dir, more, longer) && Last(more).mode.Serving?
    ensures Last(more).mode.key == Last(states).mode.key
    ensures var tables := Last(states).tables;
            Last(more).tables == IndexTables.Publish(
              tables, Ingests.Built(c, dir, Last(states).mode.key, declared, tables.nar[declared.narHash]))
  {
    var s := Last(states);
    hide Run, Ingests.Prepared, Ingests.Built, NarInfos.Rendered, IndexTables.Publish, Enabled, After;
    PublishableIsPrepared(c, dir, s.mode.key, s.tables, declared);
    PublishEffects(c, dir, s, NarInfos.Rendered(declared, dir));
    more, longer := Extend(c, dir, states, steps, ReadRow(0, NarInfos.Rendered(declared, dir)));
    more, longer := Extend(c, dir, more, longer, Publish(0));
  }

  /**
   A client's record for a NAR it pushed gets published: there is a run from an empty directory in which
   it does, so what is proved of all runs is proved of runs that serve records.
   */
  lemma RecordLands(
      c: Cryptos.Crypto, dir: StorePaths.Dir, pid: nat, key: Cryptos.SecretKey, nar: seq<byte>,
      declared: NarInfos.NarInfo) returns (states: seq<State>, steps: seq<Step>)
    requires Lawful(c) && nar != [] && |c.total([nar])| < U64_LIMIT
    requires declared.narHash == c.sha(nar) && declared.narSize == |nar|
    requires NarInfoParsing.Renderable(declared) && !NarInfoParsing.CaEndsInCr(declared) && '\n' !in dir
    ensures states != [] && Run(c, dir, states, steps)
    ensures Last(states).mode.Serving? && Last(states).mode.key == key
    ensures Publishable(c, dir, Last(states).tables, declared)
    ensures exists entry ::
      Last(states).tables.narinfo == map[declared.storePath.hash := Ingests.Built(c, dir, key, declared, entry)]
  {
    states, steps := PushLands(c, dir, pid, key, nar);
    hide Run, NarInfoParsing.Renderable, NarInfoParsing.CaEndsInCr, Fingerprints.Fingerprint;
    states, steps := PublishNext(c, dir, states, steps, declared);
  }

  /**
   Two records share a NAR, one is deleted: the run ends with a published record that has no NAR row,
   although its artifact is still there.
   */
  lemma SiblingStranded(
      c: Cryptos.Crypto, dir: StorePaths.Dir, pid: nat, key: Cryptos.SecretKey, nar: seq<byte>,
      a: NarInfos.NarInfo, b: NarInfos.NarInfo) returns (states: seq<State>, steps: seq<Step>)
    requires Lawful(c) && nar != [] && |c.total([nar])| < U64_LIMIT
    requires a.narHash == c.sha(nar) && a.narSize == |nar|
    requires b.(storePath := a.storePath) == a && b.storePath.hash != a.storePath.hash
    requires NarInfoParsing.Renderable(a) && !NarInfoParsing.CaEndsInCr(a) && '\n' !in dir
    ensures states != [] && Run(c, dir, states, steps)
    ensures var tables := Last(states).tables;
            && a.storePath.hash !in tables.narinfo && b.storePath.hash in tables.narinfo
            && tables.narinfo[b.storePath.hash].narHash !in tables.nar
            && !IndexTables.EveryRecordHasRow(tables)
  {
    states, steps := RecordLands(c, dir, pid, key, nar, a);
    assert Publishable(c, dir, Last(states).tables, b);
    hide Run, Fingerprints.Fingerprint, Publishable;
    states, steps := PublishNext(c, dir, states, steps, b);
    states, steps := Extend(c, dir, states, steps, Crash);
    states, steps := Extend(c, dir, states, steps, Delete(a.storePath.hash));
  }

  /** A published record can be rotated to another key. */
  lemma RotationLands(
      c: Cryptos.Crypto, dir: StorePaths.Dir, pid: nat, key: Cryptos.SecretKey, nar: seq<byte>,
      declared: NarInfos.NarInfo, next: Cryptos.SecretKey) returns (states: seq<State>, steps: seq<Step>)
    requires Lawful(c) && nar != [] && |c.total([nar])| < U64_LIMIT
    requires declared.narHash == c.sha(nar) && declared.narSize == |nar|
    requires NarInfoParsing.Renderable(declared) && !NarInfoParsing.CaEndsInCr(declared) && '\n' !in dir
    ensures states != [] && Run(c, dir, states, steps) && steps != []
    ensures |states| == |steps| + 1 && steps[|steps| - 1] == Rotated
    ensures states[|steps| - 1].mode.Rotating? && states[|steps| - 1].mode.key == next
    ensures declared.storePath.hash in Last(states).tables.narinfo
  {
    states, steps := RecordLands(c, dir, pid, key, nar, declared);
    var hash := declared.storePath.hash;
    var record := Last(states).tables.narinfo[hash];
    hide Run, Fingerprints.Fingerprint, Publishable, Enabled, After;
    CrashEffect(c, dir, Last(states));
    states, steps := Extend(c, dir, states, steps, Crash);
    OneListed(Last(states).tables, hash, record);
    states, steps := RotateNext(c, dir, states, steps, next, hash, record);
  }

  lemma RotateNext(
      c: Cryptos.Crypto, dir: StorePaths.Dir, states: seq<State>, steps: seq<Step>, key: Cryptos.SecretKey,
      hash: StorePaths.Hash, record: NarInfos.NarInfo) returns (more: seq<State>, longer: seq<Step>)
    requires Cryptos.LawfulEncoder(c) && states != [] && Run(c, dir, states, steps) && Last(states).mode.Down?
    requires IndexTables.Lists(Last(states).tables, [hash], [record]) && record.storePath.hash == hash
    ensures more != [] && longer != [] && Run(c, dir, more, longer)
    ensures |more| == |longer| + 1 && longer[|longer| - 1] == Rotated && more[|longer| - 1].mode.Rotating?
    ensures more[|longer| - 1].mode.key == key && hash in Last(more).tables.narinfo
  {
    hide *;
    var s := Last(states);
    RotateEffect(c, dir, s, key, [hash], [record]);
    more, longer := Extend(c, dir, states, steps, Rotate(key, [hash], [record]));
    OneResigned(c, record, dir, key);
    BatchEffect(c, dir, Last(more), Fingerprints.Resigned(c, record, dir, key));
    more, longer := Extend(c, dir, more, longer, Batch);
    RotatedEffect(c, dir, Last(more));
    more, longer := Extend(c, dir, more, longer, Rotated);
  }

  lemma RotateEffect(
      c: Cryptos.Crypto, dir: StorePaths.Dir, s: State, key: Cryptos.SecretKey,
      keys: seq<StorePaths.Hash>, rows: seq<NarInfos.NarInfo>)
    requires Cryptos.LawfulEncoder(c) && s.mode.Down? && IndexTables.Lists(s.tables, keys, rows)
    ensures Enabled(c, dir, s, Rotate(key, keys, rows))
    ensures After(c, dir, s, Rotate(key, keys, rows))
         == s.(mode := Rotating(key, IndexTables.ResignAll(c, rows, dir, key)))
  {
    hide Cryptos.LawfulEncoder, IndexTables.ResignAll, IndexTables.Lists;
  }

  lemma OneResigned(c: Cryptos.Crypto, record: NarInfos.NarInfo, dir: StorePaths.Dir, key: Cryptos.SecretKey)
    ensures IndexTables.ResignAll(c, [record], dir, key) == [Fingerprints.Resigned(c, record, dir, key)]
    ensures Fingerprints.Resigned(c, record, dir, key).storePath == record.storePath
  {
    hide Fingerprints.Fingerprint;
  }

  lemma BatchEffect(c: Cryptos.Crypto, dir: StorePaths.Dir, s: State, row: NarInfos.NarInfo)
    requires Cryptos.LawfulEncoder(c) && s.mode.Rotating? && s.mode.todo == [row]
    ensures Enabled(c, dir, s, Batch)
    ensures var t := After(c, dir, s, Batch);
            && t.mode.Rotating? && t.mode.key == s.mode.key && t.mode.todo == []
            && row.storePath.hash in t.tables.narinfo
  {
    hide Cryptos.LawfulEncoder;
    assert [row][..1] == [row] && [row][1..] == [] && [row][..0] == [];
    assert IndexTables.Republish(s.tables, [row]) == IndexTables.Publish(IndexTables.Republish(s.tables, []), row);
  }

  lemma RotatedEffect(c: Cryptos.Crypto, dir: StorePaths.Dir, s: State)
    requires Cryptos.LawfulEncoder(c) && s.mode.Rotating? && s.mode.todo == []
    ensures Enabled(c, dir, s, Rotated) && After(c, dir, s, Rotated) == s.(mode := Down)
  {
    hide Cryptos.LawfulEncoder;
  }

  lemma CrashEffect(c: Cryptos.Crypto, dir: StorePaths.Dir, s: State)
    requires Cryptos.LawfulEncoder(c) && !s.mode.Down?
    ensures Enabled(c, dir, s, Crash) && After(c, dir, s, Crash) == s.(mode := Down)
  {
    hide Cryptos.LawfulEncoder;
  }

  lemma OneListed(tables: IndexTables.Tables, hash: StorePaths.Hash, record: NarInfos.NarInfo)
    requires tables.narinfo == map[hash := record]
    ensures IndexTables.Lists(tables, [hash], [record])
  {
  }

  // ----- The counter does come back -----

  lemma FailEffect(c: Cryptos.Crypto, dir: StorePaths.Dir, s: State)
    requires Cryptos.LawfulEncoder(c) && s.mode.Serving?
    ensures Enabled(c, dir, s, StageFails)
    ensures After(c, dir, s, StageFails) == s.(mode := s.mode.(sequence := s.mode.sequence + 1))
  {
    hide Cryptos.LawfulEncoder;
  }

  lemma {:induction false} FailTimes(
      c: Cryptos.Crypto, dir: StorePaths.Dir, states: seq<State>, steps: seq<Step>, count: nat)
      returns (more: seq<State>, longer: seq<Step>)
    requires Cryptos.LawfulEncoder(c) && states != [] && Run(c, dir, states, steps) && Last(states).mode.Serving?
    ensures more != [] && Run(c, dir, more, longer)
    ensures var s := Last(states);
            Last(more) == s.(mode := s.mode.(sequence := s.mode.sequence + count))
    decreases count
  {
    hide Run, Enabled, After, Cryptos.LawfulEncoder;
    if count == 0 {
      more, longer := states, steps;
    } else {
      more, longer := FailTimes(c, dir, states, steps, count - 1);
      FailEffect(c, dir, Last(more));
      more, longer := Extend(c, dir, more, longer, StageFails);
    }
  }

  /** Enough failed creates later, the counter is back at the name of an upload that is still writing. */
  lemma CounterWraps(c: Cryptos.Crypto, dir: StorePaths.Dir, pid: nat, key: Cryptos.SecretKey)
      returns (states: seq<State>, steps: seq<Step>)
    requires Lawful(c)
    ensures states != [] && Run(c, dir, states, steps)
    ensures var s := Last(states);
            && Uploading(s, 0) && s.mode.sequence == U64_LIMIT && Ordinal(s.mode.sequence) == Ordinal(0)
            && !NameFree(s.mode.uploads, s.mode.sequence)
  {
    hide Run, UploadStates.Fed, NameOf, Enabled, After;
    states, steps := StagedAndFed(c, dir, pid, key, []);
    states, steps := FailTimes(c, dir, states, steps, U64_LIMIT - 1);
    assert Ordinal(U64_LIMIT) == 0 && Ordinal(0) == 0;
  }
}
