/** One NAR upload from first byte to recorded artifact: what each stage computes. */
module UploadStates {
  import opened Prelude
  import Compressions
  import Cryptos
  import Digests
  import IndexTables
  import Indexes
  import Stores

  const DRAIN_THRESHOLD: nat := 256 * 1024

  const STORED_AS: Compressions.Compression := Compressions.Zstd

  datatype Error =
    | Stage(store: Stores.Error)
    | Compress
    | HashMismatch(expected: Digests.Digest, found: Digests.Digest)
    | Empty
    | Record(index: Indexes.Error)

  datatype Fault = Client | Server

  function FaultOf(error: Error): Fault {
    if error.HashMismatch? || error.Empty? then Client else Server
  }

  /** The compressor: what it was fed, and the output nobody has taken from it yet. */
  datatype Encoder = Encoder(fed: seq<seq<byte>>, buffer: seq<byte>)

  datatype Hasher = Hasher(absorbed: seq<byte>)

  datatype State =
    | Receiving(encoder: Encoder, nar: Hasher, file: Hasher, narSize: u64)
    | Compressed(narHash: Digests.Digest, size: u64, fileHash: Digests.Digest, fileSize: u64)
    | Verified(narHash: Digests.Digest, narBytes: NonZeroU64, fileHash: Digests.Digest, fileSize: u64)

  const FRESH: State := Receiving(Encoder([], []), Hasher([]), Hasher([]), 0)

  function Update(hasher: Hasher, bytes: seq<byte>): Hasher {
    Hasher(hasher.absorbed + bytes)
  }

  function Encode(c: Cryptos.Crypto, encoder: Encoder, chunk: seq<byte>): Encoder
    requires Cryptos.LawfulEncoder(c)
  {
    var fed := encoder.fed + [chunk];
    Encoder(fed, encoder.buffer + c.emitted(fed)[|c.emitted(encoder.fed)|..])
  }

  function Tail(c: Cryptos.Crypto, encoder: Encoder): seq<byte>
    requires Cryptos.LawfulEncoder(c)
  {
    encoder.buffer + c.total(encoder.fed)[|c.emitted(encoder.fed)|..]
  }

  function Fed(c: Cryptos.Crypto, state: State, chunk: seq<byte>): State
    requires Cryptos.LawfulEncoder(c)
    requires state.Receiving? && state.narSize + |chunk| < U64_LIMIT
  {
    Receiving(
      Encode(c, state.encoder, chunk), Update(state.nar, chunk), state.file, state.narSize + |chunk|)
  }

  /** The encoder's output moves to the file; the caller writes it there. */
  function Drained(state: State): State
    requires state.Receiving?
  {
    state.(encoder := state.encoder.(buffer := []), file := Update(state.file, state.encoder.buffer))
  }

  /** `written` is the length of the staging file once the tail is in it. */
  function Flushed(c: Cryptos.Crypto, state: State, written: u64): State
    requires Cryptos.LawfulEncoder(c) && state.Receiving?
  {
    Compressed(
      c.sha(state.nar.absorbed), state.narSize,
      c.sha(Update(state.file, Tail(c, state.encoder)).absorbed), written)
  }

  function Gate(state: State, expected: Digests.Digest): Result<State, Error>
    requires state.Compressed?
  {
    if state.narHash != expected then Err(HashMismatch(expected, state.narHash))
    else if state.size == 0 then Err(Empty)
    else Ok(Verified(state.narHash, state.size, state.fileHash, state.fileSize))
  }

  function EntryOf(state: State): IndexTables.Entry
    requires state.Verified?
  {
    IndexTables.Entry(state.fileHash, state.fileSize, state.narBytes, STORED_AS)
  }

  // ----- What a stage has established -----

  /**
   `stored` is what the staging file holds. While receiving, it and the encoder's buffer together are
   the encoder's output so far, and each hasher has absorbed its own side of the pipeline; afterwards
   the hashes and sizes are those of everything received and everything stored.
   */
  ghost predicate Tracks(c: Cryptos.Crypto, state: State, received: seq<seq<byte>>, stored: seq<byte>) {
    match state
    case Receiving(encoder, nar, file, narSize) =>
      && encoder.fed == received
      && stored + encoder.buffer == c.emitted(received)
      && file.absorbed == stored
      && nar.absorbed == Concat(received)
      && narSize == |Concat(received)|
    case Compressed(narHash, size, fileHash, fileSize) =>
      && stored == c.total(received)
      && narHash == c.sha(Concat(received)) && size == |Concat(received)|
      && fileHash == c.sha(stored) && fileSize == |stored|
    case Verified(narHash, narBytes, fileHash, fileSize) =>
      && stored == c.total(received)
      && narHash == c.sha(Concat(received)) && narBytes == |Concat(received)|
      && fileHash == c.sha(stored) && fileSize == |stored|
  }

  /** A row tells the truth about the bytes it names, down to the NAR they inflate to. */
  ghost predicate Describes(
      c: Cryptos.Crypto, content: seq<byte>, narHash: Digests.Digest, entry: IndexTables.Entry)
  {
    && c.sha(content) == entry.fileHash
    && |content| == entry.fileSize
    && entry.compression == STORED_AS
    && c.inflate(content).Some?
    && c.sha(c.inflate(content).value) == narHash
    && |c.inflate(content).value| == entry.narSize
  }

  lemma FreshTracks(c: Cryptos.Crypto)
    requires Cryptos.LawfulEncoder(c)
    ensures Tracks(c, FRESH, [], [])
  {
  }

  lemma FedTracks(c: Cryptos.Crypto, state: State, received: seq<seq<byte>>, stored: seq<byte>, chunk: seq<byte>)
    requires Cryptos.LawfulEncoder(c) && Tracks(c, state, received, stored)
    requires state.Receiving? && state.narSize + |chunk| < U64_LIMIT
    ensures Tracks(c, Fed(c, state, chunk), received + [chunk], stored)
  {
    ConcatSnoc(received, chunk);
    var before, after := c.emitted(received), c.emitted(received + [chunk]);
    assert before <= after && before + after[|before|..] == after;
  }

  lemma DrainedTracks(c: Cryptos.Crypto, state: State, received: seq<seq<byte>>, stored: seq<byte>)
    requires Tracks(c, state, received, stored) && state.Receiving?
    ensures Tracks(c, Drained(state), received, stored + state.encoder.buffer)
  {
  }

  lemma FlushedTracks(c: Cryptos.Crypto, state: State, received: seq<seq<byte>>, stored: seq<byte>)
    requires Cryptos.LawfulEncoder(c) && Tracks(c, state, received, stored) && state.Receiving?
    requires |stored| + |Tail(c, state.encoder)| < U64_LIMIT
    ensures Tracks(c, Flushed(c, state, |stored| + |Tail(c, state.encoder)|), received,
                   stored + Tail(c, state.encoder))
  {
    var emitted, total := c.emitted(received), c.total(received);
    assert emitted <= total && emitted + total[|emitted|..] == total;
    assert stored + Tail(c, state.encoder) == total;
  }

  /** The gate opens exactly for a non-empty upload with the declared hash, and keeps what is known. */
  lemma GateTracks(
      c: Cryptos.Crypto, state: State, received: seq<seq<byte>>, stored: seq<byte>, expected: Digests.Digest)
    requires Tracks(c, state, received, stored) && state.Compressed?
    ensures var gated := Gate(state, expected);
            && (gated.Ok? <==> c.sha(Concat(received)) == expected && Concat(received) != [])
            && (gated.Ok? ==> Tracks(c, gated.value, received, stored) && gated.value.Verified?)
  {
  }

  /** What is recorded for a verified upload describes what was stored. */
  lemma VerifiedDescribes(c: Cryptos.Crypto, state: State, received: seq<seq<byte>>, stored: seq<byte>)
    requires Cryptos.LawfulEncoder(c) && Tracks(c, state, received, stored) && state.Verified?
    ensures Describes(c, stored, state.narHash, EntryOf(state))
    ensures c.inflate(stored) == Some(Concat(received))
  {
  }
}

/** The pipeline itself, updating the encoder, both hashers and the staging file in place. */
module Uploads {
  import opened Prelude
  import Cryptos
  import Digests
  import IndexTables
  import Indexes
  import opened Disks
  import Stores
  import opened UploadStates

  /** A write that failed reached the file with some front part of its bytes. */
  ghost predicate PartWritten(before: Disk, after: Disk, inode: nat, offset: nat, bytes: seq<byte>) {
    exists k | 0 <= k <= |bytes| :: after == Written(before, inode, offset, bytes[..k])
  }

  lemma NothingWritten(disk: Disk, inode: nat, offset: nat, bytes: seq<byte>)
    requires inode in disk.inodes
    ensures PartWritten(disk, disk, inode, offset, bytes) && Written(disk, inode, offset, []) == disk
  {
    assert bytes[..0] == [];
    assert Written(disk, inode, offset, bytes[..0]) == disk;
  }

  lemma AllWritten(disk: Disk, inode: nat, offset: nat, bytes: seq<byte>)
    ensures PartWritten(disk, Written(disk, inode, offset, bytes), inode, offset, bytes)
  {
    assert bytes[..|bytes|] == bytes;
  }

  /** What a dropped upload leaves: its staging name, or not even that. */
  ghost predicate Dropped(before: Disk, after: Disk, name: string, committed: bool) {
    after == before || (!committed && after == Unlinked(before, name))
  }

  /** A write was cut short and its upload dropped. */
  ghost predicate Cut(before: Disk, after: Disk, staged: Stores.Staged, offset: nat, bytes: seq<byte>)
    reads staged`committed
  {
    exists left: Disk ::
      PartWritten(before, left, staged.inode, offset, bytes) && Dropped(left, after, staged.name, staged.committed)
  }

  /** The chunk is in the encoder, and what that made of its buffer is in the file if it was enough. */
  ghost predicate WroteFrom(
      c: Cryptos.Crypto, state: State, chunk: seq<byte>, disk: Disk, inode: nat, offset: nat,
      after: State, left: Disk)
    requires Cryptos.LawfulEncoder(c) && state.Receiving? && state.narSize + |chunk| < U64_LIMIT
  {
    var fed := Fed(c, state, chunk);
    if |fed.encoder.buffer| >= DRAIN_THRESHOLD then
      after == Drained(fed) && left == Written(disk, inode, offset, fed.encoder.buffer)
    else
      after == fed && left == disk
  }

  /** The drain after the chunk was cut short, or never came. */
  ghost predicate WriteCut(
      c: Cryptos.Crypto, state: State, chunk: seq<byte>, disk: Disk, inode: nat, offset: nat, left: Disk)
    requires Cryptos.LawfulEncoder(c) && state.Receiving? && state.narSize + |chunk| < U64_LIMIT
  {
    PartWritten(disk, left, inode, offset, Fed(c, state, chunk).encoder.buffer)
  }

  /** Buffer and tail are in the file, and the state is what the flush makes of the drained one. */
  ghost predicate FinishedFrom(
      c: Cryptos.Crypto, state: State, disk: Disk, inode: nat, offset: nat, after: State, left: Disk)
    requires Cryptos.LawfulEncoder(c) && state.Receiving?
  {
    var buffer, drained := state.encoder.buffer, Drained(state);
    var tail, end := Tail(c, drained.encoder), offset + |buffer|;
    && end + |tail| < U64_LIMIT
    && after == Flushed(c, drained, end + |tail|)
    && left == Written(Written(disk, inode, offset, buffer), inode, end, tail)
  }

  /** The write of the buffer was cut short, or that of the tail. */
  ghost predicate FinishCut(
      c: Cryptos.Crypto, state: State, disk: Disk, staged: Stores.Staged, offset: nat, left: Disk)
    requires Cryptos.LawfulEncoder(c) && state.Receiving?
    reads staged`committed
  {
    var buffer := state.encoder.buffer;
    var tail, end := Tail(c, Drained(state).encoder), offset + |buffer|;
    || Cut(disk, left, staged, offset, buffer)
    || (end + |tail| < U64_LIMIT && Cut(Written(disk, staged.inode, offset, buffer), left, staged, end, tail))
  }

  lemma CutBy(before: Disk, left: Disk, after: Disk, staged: Stores.Staged, offset: nat, bytes: seq<byte>)
    requires PartWritten(before, left, staged.inode, offset, bytes)
    requires Dropped(left, after, staged.name, staged.committed)
    ensures Cut(before, after, staged, offset, bytes)
  {
  }

  class Upload {
    const crypto: Cryptos.Crypto
    const staged: Stores.Staged
    /** The NAR hash the gate compares with. */
    const expected: Digests.Digest
    var state: State
    ghost var received: seq<seq<byte>>

    ghost function Stored(): seq<byte>
      reads staged.store`disk
    {
      Content(staged.store.disk, staged.inode)
    }

    ghost predicate Valid()
      reads this, staged, staged.store`disk
    {
      && Cryptos.LawfulEncoder(crypto)
      && WithinLimits(staged.store.disk)
      && staged.inode in staged.store.disk.inodes
      && (staged.name in staged.store.disk.staging ==> staged.store.disk.staging[staged.name] == staged.inode)
      && staged.offset == |Stored()|
      && Tracks(crypto, state, received, Stored())
    }

    constructor (crypto: Cryptos.Crypto, staged: Stores.Staged, expected: Digests.Digest)
      requires Cryptos.LawfulEncoder(crypto) && WithinLimits(staged.store.disk)
      requires staged.name in staged.store.disk.staging
      requires staged.store.disk.staging[staged.name] == staged.inode && staged.inode in staged.store.disk.inodes
      requires Content(staged.store.disk, staged.inode) == [] && staged.offset == 0
      ensures Valid() && state == FRESH && received == []
      ensures this.crypto == crypto && this.staged == staged && this.expected == expected
    {
      this.crypto := crypto;
      this.staged := staged;
      this.expected := expected;
      state := FRESH;
      received := [];
      FreshTracks(crypto);
    }

    /** Absorbs one chunk. The sum of the chunks must fit the size field, as a declared length does. */
    method Write(chunk: seq<byte>) returns (r: Result<(), Error>)
      requires Valid() && state.Receiving? && state.narSize + |chunk| < U64_LIMIT
      modifies this`state, this`received, staged`offset, staged.store`disk, staged.store`faults
      ensures OnlyWrote(old(staged.store.disk), staged.store.disk, staged.inode)
      ensures WithinLimits(staged.store.disk)
      ensures r.Ok? ==>
        && Valid() && state.Receiving? && received == old(received) + [chunk]
        && state.narSize == old(state.narSize) + |chunk|
        && |state.encoder.buffer| < DRAIN_THRESHOLD
      ensures r.Ok? ==>
        WroteFrom(crypto, old(state), chunk, old(staged.store.disk), staged.inode, old(staged.offset),
                  state, staged.store.disk)
      ensures r.Err? ==>
        WriteCut(crypto, old(state), chunk, old(staged.store.disk), staged.inode, old(staged.offset),
                 staged.store.disk)
      ensures r.Err? ==> FaultOf(r.error) == Server
      ensures Counted(old(staged.store.faults), staged.store.faults, r.Err?)
    {
      NothingWritten(staged.store.disk, staged.inode, staged.offset, Fed(crypto, state, chunk).encoder.buffer);
      FedTracks(crypto, state, received, Stored(), chunk);
      var encodes: bool := *;
      if !encodes {
        staged.store.faults := staged.store.faults + 1;
        return Err(Compress);
      }
      state := Fed(crypto, state, chunk);
      received := received + [chunk];
      if |state.encoder.buffer| >= DRAIN_THRESHOLD {
        r := Drain();
        return r;
      }
      return Ok(());
    }

    /** Empties the encoder's buffer, through the file hasher, onto the end of the file. */
    method Drain() returns (r: Result<(), Error>)
      requires Valid() && state.Receiving?
      modifies this`state, staged`offset, staged.store`disk, staged.store`faults
      ensures OnlyWrote(old(staged.store.disk), staged.store.disk, staged.inode)
      ensures WithinLimits(staged.store.disk)
      ensures r.Ok? ==>
        && Valid() && state == Drained(old(state)) && state.encoder.buffer == []
        && Stored() == old(Stored()) + old(state.encoder.buffer)
        && staged.store.disk
           == Written(old(staged.store.disk), staged.inode, old(staged.offset), old(state.encoder.buffer))
      ensures r.Err? ==>
        PartWritten(old(staged.store.disk), staged.store.disk, staged.inode, old(staged.offset),
                    old(state.encoder.buffer))
      ensures r.Err? ==> FaultOf(r.error) == Server
      ensures Counted(old(staged.store.faults), staged.store.faults, r.Err?)
    {
      DrainedTracks(crypto, state, received, Stored());
      NothingWritten(staged.store.disk, staged.inode, staged.offset, state.encoder.buffer);
      var produced := state.encoder.buffer;
      state := state.(encoder := state.encoder.(buffer := []));
      if produced == [] {
        return Ok(());
      }
      state := state.(file := Update(state.file, produced));
      WrittenAppends(staged.store.disk, staged.inode, produced);
      var written := staged.Write(produced);
      if written.Err? {
        return Err(Stage(written.error));
      }
      return Ok(());
    }

    /**
     Flushes the encoder: from here both hashes and both sizes are those of the whole upload. The tail is
     in memory before it is written, so one that no memory could hold is the encoder failing.
     */
    method Finish() returns (r: Result<(), Error>)
      requires Valid() && state.Receiving?
      modifies this`state, staged`offset, staged.store`disk, staged.store`faults
      ensures r.Ok? ==>
        && Valid() && state.Compressed?
        && OnlyWrote(old(staged.store.disk), staged.store.disk, staged.inode)
      ensures r.Err? ==>
        && FaultOf(r.error) == Server
        && staged.store.disk.artifacts == old(staged.store.disk).artifacts
      ensures r.Ok? ==>
        FinishedFrom(crypto, old(state), old(staged.store.disk), staged.inode, old(staged.offset),
                     state, staged.store.disk)
      ensures r.Err? ==>
        FinishCut(crypto, old(state), old(staged.store.disk), staged, old(staged.offset), staged.store.disk)
      ensures WithinLimits(staged.store.disk)
      ensures Counted(old(staged.store.faults), staged.store.faults, r.Err?)
    {
      hide Written, Tail, Flushed, Tracks;
      var drained := Drain();
      if drained.Err? {
        ghost var left := staged.store.disk;
        staged.Drop();
        CutBy(old(staged.store.disk), left, staged.store.disk, staged, old(staged.offset), old(state.encoder.buffer));
        return Err(drained.error);
      }
      ghost var full := staged.store.disk;
      AllWritten(old(staged.store.disk), staged.inode, old(staged.offset), old(state.encoder.buffer));
      r := Flush();
      if r.Err? && Dropped(full, staged.store.disk, staged.name, staged.committed) {
        CutBy(old(staged.store.disk), full, staged.store.disk, staged, old(staged.offset), old(state.encoder.buffer));
      }
    }

    /** What is left of `Finish` once the buffer is empty. */
    method Flush() returns (r: Result<(), Error>)
      requires Valid() && state.Receiving? && state.encoder.buffer == []
      modifies this`state, staged`offset, staged.store`disk, staged.store`faults
      ensures r.Ok? ==>
        && Valid() && state.Compressed?
        && OnlyWrote(old(staged.store.disk), staged.store.disk, staged.inode)
      ensures r.Err? ==>
        && FaultOf(r.error) == Server
        && staged.store.disk.artifacts == old(staged.store.disk).artifacts
      ensures WithinLimits(staged.store.disk)
      ensures Counted(old(staged.store.faults), staged.store.faults, r.Err?)
      ensures var tail, end := Tail(crypto, old(state).encoder), old(staged.offset);
              && (r.Ok? ==>
                    && end + |tail| < U64_LIMIT && state == Flushed(crypto, old(state), end + |tail|)
                    && staged.store.disk == Written(old(staged.store.disk), staged.inode, end, tail))
              && (r.Err? ==>
                    || Dropped(old(staged.store.disk), staged.store.disk, staged.name, staged.committed)
                    || (end + |tail| < U64_LIMIT && Cut(old(staged.store.disk), staged.store.disk, staged, end, tail)))
    {
      var finishes: bool := *;
      var tail := Tail(crypto, state.encoder);
      ghost var before := Stored();
      if !finishes || |tail| > FILE_MAX {
        staged.store.faults := staged.store.faults + 1;
        staged.Drop();
        return Err(Compress);
      }
      WrittenAppends(staged.store.disk, staged.inode, tail);
      FlushedTracks(crypto, state, received, before);
      hide Tail, Flushed, Tracks, Spliced;
      var written := staged.Write(tail);
      if written.Err? {
        ghost var left := staged.store.disk;
        staged.Drop();
        CutBy(old(staged.store.disk), left, staged.store.disk, staged, staged.offset, tail);
        return Err(Stage(written.error));
      }
      state := Flushed(crypto, state, staged.offset);
      return Ok(());
    }

    /** Passes exactly the non-empty uploads with the expected hash; a refused one is dropped. */
    method Verify() returns (r: Result<(), Error>)
      requires Valid() && state.Compressed?
      modifies this`state, staged.store`disk
      ensures r.Ok? <==> crypto.sha(Concat(received)) == expected && Concat(received) != []
      ensures r.Ok? ==> Valid() && state.Verified? && staged.store.disk == old(staged.store.disk)
      ensures r.Err? ==>
        && r.error == (if crypto.sha(Concat(received)) != expected
                       then HashMismatch(expected, crypto.sha(Concat(received))) else Empty)
        && Dropped(old(staged.store.disk), staged.store.disk, staged.name, staged.committed)
      ensures (r.Ok? <==> Gate(old(state), expected).Ok?) && (r.Ok? ==> state == Gate(old(state), expected).value)
      ensures WithinLimits(staged.store.disk)
    {
      GateTracks(crypto, state, received, Stored(), expected);
      var gated := Gate(state, expected);
      if gated.Err? {
        staged.Drop();
        return Err(gated.error);
      }
      state := gated.value;
      return Ok(());
    }

    /**
     Renames the file to its content-addressed location, then records where the NAR landed, in that
     order: a failure between the two leaves an artifact no row names, never the reverse.
     */
    method Store(index: Indexes.Index) returns (r: Result<IndexTables.Entry, Error>)
      requires Valid() && state.Verified?
      modifies staged`committed, staged.store`disk, staged.store`faults, index
      ensures WithinLimits(staged.store.disk)
      ensures Counted(old(staged.store.faults) + old(index.faults), staged.store.faults + index.faults, r.Err?)
      ensures old(staged.store.faults) <= staged.store.faults && old(index.faults) <= index.faults
      ensures r.Ok? ==>
        && r.value == EntryOf(state)
        && staged.name in old(staged.store.disk).staging
        && staged.store.disk == Renamed(old(staged.store.disk), staged.name, LocationOf(IndexTables.Url(r.value)))
        && index.tables == IndexTables.PutNar(old(index.tables), crypto.sha(Concat(received)), r.value)
        && Artifact(staged.store.disk, IndexTables.Url(r.value)) == Some(old(Stored()))
        && Describes(crypto, old(Stored()), crypto.sha(Concat(received)), r.value)
        && crypto.inflate(old(Stored())) == Some(Concat(received))
      ensures r.Err? ==>
        && FaultOf(r.error) == Server
        && index.tables == old(index.tables)
        && (r.error.Stage? ==>
              staged.store.disk == old(staged.store.disk)
              || staged.store.disk == Unlinked(old(staged.store.disk), staged.name))
        && (!r.error.Stage? ==>
              && staged.name in old(staged.store.disk).staging
              && staged.store.disk
                 == Renamed(old(staged.store.disk), staged.name, LocationOf(IndexTables.Url(EntryOf(state)))))
    {
      VerifiedDescribes(crypto, state, received, Stored());
      var entry := EntryOf(state);
      var committed := staged.Commit(IndexTables.Url(entry));
      if committed.Err? {
        return Err(Stage(committed.error));
      }
      var put := index.PutNar(state.narHash, entry);
      if put.Err? {
        return Err(Record(put.error));
      }
      return Ok(entry);
    }

    method Abort() returns (r: Result<(), Error>)
      modifies staged`committed, staged.store`disk, staged.store`faults
      ensures Counted(old(staged.store.faults), staged.store.faults, r.Err?)
      ensures staged.store.disk == if r.Ok? then Unlinked(old(staged.store.disk), staged.name)
                                   else old(staged.store.disk)
    {
      var aborted := staged.Abort();
      if aborted.Err? {
        return Err(Stage(aborted.error));
      }
      return Ok(());
    }
  }
}
