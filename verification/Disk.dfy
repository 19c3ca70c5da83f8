/**
 What a crash cannot take back: files by inode, the staging names and the artifact names that reach
 them. Each effect of the store is one function here; a process may die between any two of them.
 */
module Disks {
  import opened Prelude
  import Digests
  import NarUrls

  const SHARD_LEN: nat := 2

  /** Largest size a file can have. */
  const FILE_MAX: nat := 0x7FFF_FFFF_FFFF_FFFF

  /** Where an artifact lives under `nar/`: a shard directory and a file name. */
  datatype Location = Location(shard: string, name: string)

  datatype Disk = Disk(inodes: map<nat, seq<byte>>, staging: map<string, nat>, artifacts: map<Location, nat>)

  const EMPTY: Disk := Disk(map[], map[], map[])

  function LocationOf(url: NarUrls.NarUrl): (r: Location)
    ensures r.name == NarUrls.Name(url) && |r.shard| == 2 && r.shard <= r.name
  {
    var name := NarUrls.Name(url);
    Digests.Base32TextShape(url.fileHash);
    Location(name[..SHARD_LEN], name)
  }

  /** Distinct artifacts have distinct locations. */
  lemma LocationInjective(a: NarUrls.NarUrl, b: NarUrls.NarUrl)
    requires LocationOf(a) == LocationOf(b)
    ensures a == b
  {
    NarUrls.NameInjective(a, b);
  }

  function Content(disk: Disk, inode: nat): seq<byte> {
    if inode in disk.inodes then disk.inodes[inode] else []
  }

  /** The bytes a request for `url` would be served. */
  function Artifact(disk: Disk, url: NarUrls.NarUrl): Option<seq<byte>> {
    var location := LocationOf(url);
    if location in disk.artifacts then Some(Content(disk, disk.artifacts[location])) else None
  }

  ghost predicate WithinLimits(disk: Disk) {
    forall inode <- disk.inodes :: |disk.inodes[inode]| <= FILE_MAX
  }

  /** `File::create`: an existing name is truncated, a new one gets a fresh inode. */
  function Created(disk: Disk, name: string, inode: nat): Disk {
    if name in disk.staging then disk.(inodes := disk.inodes[disk.staging[name] := []])
    else disk.(inodes := disk.inodes[inode := []], staging := disk.staging[name := inode])
  }

  /** The inode a create of this name comes back with: the one it has, or one nobody had. */
  ghost predicate Opens(disk: Disk, name: string, inode: nat) {
    if name in disk.staging then inode == disk.staging[name] else inode !in disk.inodes
  }

  function Spliced(content: seq<byte>, offset: nat, bytes: seq<byte>): seq<byte> {
    if bytes == [] then content
    else
      var padded := if offset <= |content| then content else content + seq(offset - |content|, _ => 0);
      padded[..offset] + bytes + (if offset + |bytes| < |padded| then padded[offset + |bytes|..] else [])
  }

  /** A write through an open descriptor, which reaches the file whatever its name is by now. */
  function Written(disk: Disk, inode: nat, offset: nat, bytes: seq<byte>): Disk {
    disk.(inodes := disk.inodes[inode := Spliced(Content(disk, inode), offset, bytes)])
  }

  /** The rename that makes an artifact visible, replacing what the location held. */
  function Renamed(disk: Disk, name: string, location: Location): Disk
    requires name in disk.staging
  {
    disk.(staging := disk.staging - {name}, artifacts := disk.artifacts[location := disk.staging[name]])
  }

  function Unlinked(disk: Disk, name: string): Disk {
    disk.(staging := disk.staging - {name})
  }

  lemma WrittenAppends(disk: Disk, inode: nat, bytes: seq<byte>)
    ensures Content(Written(disk, inode, |Content(disk, inode)|, bytes), inode) == Content(disk, inode) + bytes
  {
  }

  /** Only this file's bytes differ: every name still reaches the same file. */
  ghost predicate OnlyWrote(before: Disk, after: Disk, inode: nat) {
    && after.staging == before.staging
    && after.artifacts == before.artifacts
    && after.inodes.Keys == before.inodes.Keys + {inode}
    && forall other <- before.inodes :: other != inode ==> after.inodes[other] == before.inodes[other]
  }
}

/** The payload store, whose methods have the effects of `Disks` or fail partway in one of them. */
module Stores {
  import opened Prelude
  import opened Text
  import NarUrls
  import opened Disks

  datatype Error = Create | Open | Metadata | Write | Read | Sync | Rename | Remove | List

  /** An open artifact and the length its answer declares. */
  datatype Reader = Reader(content: seq<byte>, size: u64)

  function StagingName(pid: nat, ordinal: nat): string {
    Decimal(pid) + "-" + Decimal(ordinal) + ".nar"
  }

  /** What a 64-bit counter goes to. */
  function Following(ordinal: u64): u64 {
    (ordinal + 1) % U64_LIMIT
  }

  /** Within one process, different ordinals stage under different names. */
  lemma StagingNameInjective(pid: nat, a: nat, b: nat)
    requires StagingName(pid, a) == StagingName(pid, b)
    ensures a == b
  {
    var prefix := Decimal(pid) + "-";
    assert StagingName(pid, a) == prefix + Decimal(a) + ".nar";
    assert StagingName(pid, b) == prefix + Decimal(b) + ".nar";
    assert Decimal(a) == StagingName(pid, a)[|prefix|..|prefix| + |Decimal(a)|];
    assert Decimal(b) == StagingName(pid, b)[|prefix|..|prefix| + |Decimal(b)|];
    NumberOfDecimal(a);
    NumberOfDecimal(b);
  }

  /** What a walk of `nar/` reports: each file as the artifact its name spells, or as unrecognised. */
  ghost predicate Scanned(files: set<Location>, artifacts: seq<NarUrls.NarUrl>, unrecognized: seq<Location>) {
    && (forall url :: url in artifacts <==> exists file :: file in files && NarUrls.Parse(file.name) == Ok(url))
    && (forall file :: file in unrecognized <==> file in files && NarUrls.Parse(file.name).Err?)
    && |artifacts| + |unrecognized| == |files|
  }

  class Store {
    var disk: Disk
    /** The ordinal the next staging name is made of; it wraps. */
    var sequence: u64
    const pid: nat
    /** How often the file system, or the encoder in front of it, has failed so far. */
    ghost var faults: nat

    constructor (disk: Disk, pid: nat)
      ensures this.disk == disk && this.pid == pid && sequence == 0
    {
      this.disk := disk;
      this.pid := pid;
      sequence := 0;
      faults := 0;
    }

    method Stage() returns (r: Result<Staged, Error>)
      modifies this
      ensures sequence == Following(old(sequence))
      ensures r.Err? ==> disk == old(disk)
      ensures r.Ok? ==>
        && fresh(r.value) && r.value.store == this
        && r.value.name == StagingName(pid, old(sequence))
        && r.value.offset == 0 && !r.value.committed
        && Opens(old(disk), r.value.name, r.value.inode)
        && disk == Created(old(disk), r.value.name, r.value.inode)
        && disk.staging[r.value.name] == r.value.inode && Content(disk, r.value.inode) == []
      ensures old(WithinLimits(disk)) ==> WithinLimits(disk)
      ensures Counted(old(faults), faults, r.Err?)
    {
      var name := StagingName(pid, sequence);
      sequence := Following(sequence);
      if * {
        faults := faults + 1;
        return Err(Create);
      }
      var inode: nat;
      if name in disk.staging {
        inode := disk.staging[name];
      } else {
        ghost var unused := FreshInode(disk.inodes.Keys);
        inode :| inode !in disk.inodes;
      }
      disk := Created(disk, name, inode);
      var staged := new Staged(this, name, inode);
      return Ok(staged);
    }

    method Read(url: NarUrls.NarUrl) returns (r: Result<Option<Reader>, Error>)
      requires WithinLimits(disk)
      modifies this`faults
      ensures r.Ok? ==> match Artifact(disk, url)
                        case None => r.value.None?
                        case Some(content) => r.value == Some(Reader(content, |content|))
      ensures Counted(old(faults), faults, r.Err?)
    {
      if * {
        faults := faults + 1;
        return Err(Open);
      }
      var location := LocationOf(url);
      if location !in disk.artifacts {
        return Ok(None);
      }
      if * {
        faults := faults + 1;
        return Err(Metadata);
      }
      var content := Content(disk, disk.artifacts[location]);
      return Ok(Some(Reader(content, |content|)));
    }

    method Scan() returns (r: Result<(seq<NarUrls.NarUrl>, seq<Location>), Error>)
      modifies this`faults
      ensures r.Ok? ==> Scanned(disk.artifacts.Keys, r.value.0, r.value.1)
      ensures Counted(old(faults), faults, r.Err?)
    {
      hide NarUrls.Parse;
      if * {
        faults := faults + 1;
        return Err(List);
      }
      var artifacts: seq<NarUrls.NarUrl> := [];
      var unrecognized: seq<Location> := [];
      var left := disk.artifacts.Keys;
      ghost var done: set<Location> := {};
      while left != {}
        invariant done !! left && done + left == disk.artifacts.Keys && faults == old(faults)
        invariant Scanned(done, artifacts, unrecognized)
        decreases left
      {
        var file :| file in left;
        left := left - {file};
        match NarUrls.Parse(file.name) {
          case Ok(url) =>
            ScannedArtifact(done, artifacts, unrecognized, file, url);
            artifacts := artifacts + [url];
          case Err(_) =>
            unrecognized := unrecognized + [file];
        }
        done := done + {file};
      }
      assert done == disk.artifacts.Keys;
      return Ok((artifacts, unrecognized));
    }

    /** Deletes what a crash left in staging. Files that are open stay reachable by descriptor. */
    method SweepStaging() returns (r: Result<nat, Error>)
      modifies this`disk, this`faults
      ensures Counted(old(faults), faults, r.Err?)
      ensures disk == old(disk).(staging := disk.staging)
      ensures forall name <- disk.staging :: name in old(disk).staging && disk.staging[name] == old(disk).staging[name]
      ensures r.Ok? ==> disk.staging == map[] && r.value == |old(disk).staging|
    {
      if * {
        faults := faults + 1;
        return Err(List);
      }
      var left := disk.staging.Keys;
      var swept := 0;
      while left != {}
        invariant disk == old(disk).(staging := disk.staging) && faults == old(faults)
        invariant disk.staging.Keys == left && left <= old(disk).staging.Keys
        invariant forall name <- disk.staging :: disk.staging[name] == old(disk).staging[name]
        invariant swept + |left| == |old(disk).staging.Keys|
        decreases left
      {
        if * {
          faults := faults + 1;
          return Err(Remove);
        }
        var name :| name in left;
        disk := Unlinked(disk, name);
        left := left - {name};
        swept := swept + 1;
      }
      return Ok(swept);
    }
  }

  /** A positioned read returns as much as it likes, and nothing only at or past the end. */
  method ReadAt(ghost store: Store, reader: Reader, capacity: nat, offset: nat)
      returns (r: Result<seq<byte>, Error>)
    requires capacity > 0
    modifies store`faults
    ensures Counted(old(store.faults), store.faults, r.Err?)
    ensures r.Ok? ==>
      && |r.value| <= capacity
      && (r.value == [] <==> offset >= |reader.content|)
      && (offset < |reader.content| ==> r.value <= reader.content[offset..])
  {
    if * {
      store.faults := store.faults + 1;
      return Err(Error.Read);
    }
    if offset >= |reader.content| {
      return Ok([]);
    }
    var count: nat :| 1 <= count <= capacity && count <= |reader.content| - offset;
    return Ok(reader.content[offset..][..count]);
  }

  lemma ScannedArtifact(done: set<Location>, artifacts: seq<NarUrls.NarUrl>, unrecognized: seq<Location>,
                        file: Location, url: NarUrls.NarUrl)
    requires Scanned(done, artifacts, unrecognized) && file !in done && NarUrls.Parse(file.name) == Ok(url)
    ensures Scanned(done + {file}, artifacts + [url], unrecognized)
  {
    hide NarUrls.Parse;
    forall other: NarUrls.NarUrl
      ensures other in artifacts + [url]
          <==> exists f :: f in done + {file} && NarUrls.Parse(f.name) == Ok(other)
    {
      if other in artifacts {
        var f :| f in done && NarUrls.Parse(f.name) == Ok(other);
        assert f in done + {file};
      } else if other == url {
        assert file in done + {file};
      }
    }
  }

  lemma {:induction false} FreshInode(used: set<nat>) returns (n: nat)
    ensures n !in used && forall m <- used :: m < n
  {
    n := 0;
    if used != {} {
      var m :| m in used;
      n := FreshInode(used - {m});
      assert used == used - {m} + {m};
      if n <= m {
        n := m + 1;
      }
    }
  }

  /** An upload in flight: an open descriptor, and the staging name it will be renamed from. */
  class Staged {
    const store: Store
    const name: string
    const inode: nat
    var offset: u64
    var committed: bool

    constructor (store: Store, name: string, inode: nat)
      ensures this.store == store && this.name == name && this.inode == inode
      ensures offset == 0 && !committed
    {
      this.store := store;
      this.name := name;
      this.inode := inode;
      offset := 0;
      committed := false;
    }

    /** A failed write may have put any front part of its bytes in the file. */
    method Write(bytes: seq<byte>) returns (r: Result<(), Error>)
      requires WithinLimits(store.disk)
      modifies this`offset, store`disk, store`faults
      ensures Counted(old(store.faults), store.faults, r.Err?)
      ensures WithinLimits(store.disk) && OnlyWrote(old(store.disk), store.disk, inode)
      ensures r.Ok? ==>
        && offset == old(offset) + |bytes|
        && store.disk == Written(old(store.disk), inode, old(offset), bytes)
      ensures r.Err? ==>
        && offset == old(offset)
        && exists k :: 0 <= k <= |bytes| && store.disk == Written(old(store.disk), inode, offset, bytes[..k])
    {
      var k: nat :| k <= |bytes| && (k == 0 || offset + k <= FILE_MAX);
      store.disk := Written(store.disk, inode, offset, bytes[..k]);
      if k < |bytes| {
        store.faults := store.faults + 1;
        return Err(Error.Write);
      }
      assert bytes[..k] == bytes;
      offset := offset + k;
      return Ok(());
    }

    /** Syncs, then renames into the content-addressed location; a failure drops the staging file. */
    method Commit(url: NarUrls.NarUrl) returns (r: Result<u64, Error>)
      modifies this`committed, store`disk, store`faults
      ensures Counted(old(store.faults), store.faults, r.Err?)
      ensures r.Ok? ==>
        && committed && r.value == offset && name in old(store.disk).staging
        && store.disk == Renamed(old(store.disk), name, LocationOf(url))
      ensures r.Err? ==> store.disk == old(store.disk) || store.disk == Unlinked(old(store.disk), name)
    {
      if * {
        store.faults := store.faults + 1;
        Drop();
        return Err(Sync);
      }
      var renames: bool := *;
      if !renames || name !in store.disk.staging {
        store.faults := store.faults + 1;
        Drop();
        return Err(Rename);
      }
      store.disk := Renamed(store.disk, name, LocationOf(url));
      committed := true;
      return Ok(offset);
    }

    method Abort() returns (r: Result<(), Error>)
      modifies this`committed, store`disk, store`faults
      ensures Counted(old(store.faults), store.faults, r.Err?)
      ensures committed
      ensures r.Ok? ==> store.disk == Unlinked(old(store.disk), name)
      ensures r.Err? ==> store.disk == old(store.disk)
    {
      committed := true;
      if * {
        store.faults := store.faults + 1;
        return Err(Remove);
      }
      store.disk := Unlinked(store.disk, name);
      return Ok(());
    }

    /** A courtesy on the way out: the boot sweep is what guarantees the file goes. */
    method Drop()
      modifies store`disk
      ensures store.disk == old(store.disk) || (!committed && store.disk == Unlinked(old(store.disk), name))
    {
      var unlinks: bool := *;
      if !committed && unlinks {
        store.disk := Unlinked(store.disk, name);
      }
    }
  }
}
