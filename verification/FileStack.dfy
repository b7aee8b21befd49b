// Several files, read and written through several descriptors and deleted, over the whole stack:
// file bytes, chains, table cache, sector cache (filesystem/Directory.cpp), while the sector cache
// is flushed and ranked in the background (drivers/DiskCache.cpp).
module FileStacks {
  import opened Wrappers
  import DiskDrives
  import opened Sectors
  import opened Volumes
  import opened FileSystems
  import opened Chains
  import opened FileImages
  import opened Directories
  import Formats
  import DiskCaches

  // A file of the volume: its directory entry's fields and its chain.
  datatype FileEntry = FileEntry(start: int, size: int, chain: seq<int>)

  // Every file is well formed and no sector is in two of them.
  ghost predicate AllFiles(v: Volume, entries: map<int, FileEntry>) {
    && (forall f :: f in entries ==> FileOk(v, entries[f].start, entries[f].size, entries[f].chain))
    && (forall f, g, id :: f in entries && g in entries && f != g && id in entries[f].chain ==> id !in entries[g].chain)
  }

  // What a run touches: files, whether it writes to them, and the ids of its sectors.
  datatype Scope = Scope(files: set<int>, writes: bool, ids: set<int>)

  // The ids are those of the files' sectors and, for writes, of all free ones.
  ghost predicate Within(v: Volume, entries: map<int, FileEntry>, scope: Scope) {
    && (forall f, id :: f in scope.files && f in entries && id in entries[f].chain ==> id in scope.ids)
    && (scope.writes ==> forall id :: 0 <= id < |v.table| && v.Entry(id) == 0 ==> id in scope.ids)
  }

  // What the files hold.
  ghost function Bytes(v: Volume, entry: FileEntry): seq<Byte>
    requires FileOk(v, entry.start, entry.size, entry.chain)
  {
    FileContent(v, entry.chain, entry.size)
  }

  ghost function Contents(v: Volume, entries: map<int, FileEntry>): map<int, seq<Byte>>
    requires AllFiles(v, entries)
  {
    map f | f in entries :: Bytes(v, entries[f])
  }

  // The plain store: bytes of files, and how many sectors are free.
  datatype Store = Store(files: map<int, seq<Byte>>, free: int)

  datatype Operation =
    | Write(fd: int, off: int, data: seq<Byte>)
    | Read(fd: int, off: int, count: int)
    | Delete(file: int)
    | Rank(candidates: seq<int>)
    | Flush(limit: int)

  datatype Answer = Done | Got(bytes: seq<Byte>) | NotFound | Refused | NoRoom | BehindEnd | Halted

  predicate InRange(operation: Operation, fds: int, files: int) {
    match operation
    case Write(fd, off, data) => 0 <= fd < fds && 0 <= off && off + |data| < 0x1_0000_0000
    case Read(fd, off, count) => 0 <= fd < fds && 0 <= off && 0 < count < 0x8000_0000
    case Delete(file) => 0 <= file < files
    case _ => true
  }

  // One operation on the plain store: what it answers and what it leaves.

  function Answered(s: Store, owner: seq<int>, operation: Operation, files: int): Answer
    requires InRange(operation, |owner|, files)
  {
    match operation
    case Write(fd, off, data) =>
      var f := owner[fd];
      if f !in s.files then NotFound
      else if data == [] then Answer.Refused
      else if SectorsFor(off + |data|) - SectorsFor(|s.files[f]|) > s.free then NoRoom
      else if off > |s.files[f]| then BehindEnd
      else Done
    case Read(fd, off, count) =>
      var f := owner[fd];
      if f !in s.files then NotFound
      else if off >= |s.files[f]| then Got([])
      else Got(s.files[f][off..if off + count < |s.files[f]| then off + count else |s.files[f]|])
    case Delete(f) => if f in s.files then Done else NotFound
    case _ => Done
  }

  function After(s: Store, owner: seq<int>, operation: Operation, files: int): Store
    requires InRange(operation, |owner|, files)
  {
    if Answered(s, owner, operation, files) != Done then s
    else
      match operation
      case Write(fd, off, data) =>
        var f := owner[fd];
        var bytes := Spliced(s.files[f], off, data);
        Store(s.files[f := bytes], s.free - (SectorsFor(|bytes|) - SectorsFor(|s.files[f]|)))
      case Delete(f) => Store(s.files - {f}, s.free + SectorsFor(|s.files[f]|))
      case _ => s
  }

  // What these mean for the bytes of a file.

  lemma ReadLaw(s: Store, owner: seq<int>, fd: int, off: int, count: int, files: int)
    requires InRange(Read(fd, off, count), |owner|, files)
    ensures var r := Answered(s, owner, Read(fd, off, count), files);
            if owner[fd] !in s.files then r == NotFound
            else
              var bytes := s.files[owner[fd]];
              && r.Got?
              && |r.bytes| == (if |bytes| <= off then 0 else if |bytes| - off < count then |bytes| - off else count)
              && forall k :: 0 <= k < |r.bytes| ==> r.bytes[k] == bytes[off + k]
  {
  }

  // A write is carried out exactly if its file is there, it has data, starts inside the file or at
  // its end, and the sectors it adds are free.  It then replaces the bytes of its range, and no
  // byte of another file.
  lemma WriteLaw(s: Store, owner: seq<int>, fd: int, off: int, data: seq<Byte>, files: int)
    requires InRange(Write(fd, off, data), |owner|, files)
    ensures var f, r, s' := owner[fd], Answered(s, owner, Write(fd, off, data), files),
                            After(s, owner, Write(fd, off, data), files);
            && (r == NotFound <==> f !in s.files) && (r == Answer.Refused <==> f in s.files && data == [])
            && (r == Done <==>
                  && f in s.files && data != [] && off <= |s.files[f]|
                  && (off + |data| + 511) / 512 - (|s.files[f]| + 511) / 512 <= s.free)
            && (r == NoRoom <==>
                  f in s.files && data != [] && (off + |data| + 511) / 512 - (|s.files[f]| + 511) / 512 > s.free)
            && (r != Done ==> s' == s && (r == NotFound || r == Answer.Refused || r == NoRoom || r == BehindEnd))
            && (r == Done ==>
                  && s'.files.Keys == s.files.Keys
                  && (forall g :: g in s.files && g != f ==> s'.files[g] == s.files[g])
                  && |s'.files[f]| == (if |s.files[f]| < off + |data| then off + |data| else |s.files[f]|)
                  && (forall k :: 0 <= k < |s'.files[f]| ==>
                        s'.files[f][k] == if off <= k < off + |data| then data[k - off] else s.files[f][k])
                  && s'.free == s.free - ((|s'.files[f]| + 511) / 512 - (|s.files[f]| + 511) / 512))
  {
  }

  lemma DeleteLaw(s: Store, owner: seq<int>, f: int, files: int)
    requires InRange(Operation.Delete(f), |owner|, files)
    ensures var r, s' := Answered(s, owner, Operation.Delete(f), files), After(s, owner, Operation.Delete(f), files);
            && r == (if f in s.files then Done else NotFound)
            && s'.files.Keys == s.files.Keys - {f} && (forall g :: g in s'.files ==> s'.files[g] == s.files[g])
            && s'.free == s.free + if f in s.files then (|s.files[f]| + 511) / 512 else 0
  {
  }

  // How many sectors an operation needs beyond those that its file has.
  function Needs(s: Store, owner: seq<int>, operation: Operation, files: int): (n: int)
    requires InRange(operation, |owner|, files)
    ensures 0 <= n
  {
    if !operation.Write? || owner[operation.fd] !in s.files || operation.data == [] then 0
    else Max(0, SectorsFor(operation.off + |operation.data|) - SectorsFor(|s.files[owner[operation.fd]]|))
  }

  // The length of the pool afterwards, if it was long enough.
  function PoolAfter(s: Store, owner: seq<int>, operation: Operation, files: int, pool: int, capacity: int): int
    requires InRange(operation, |owner|, files)
  {
    if operation.Delete? && operation.file in s.files then
      Min(capacity, pool + SectorsFor(|s.files[operation.file]|))
    else pool - Needs(s, owner, operation, files)
  }

  function Min(a: int, b: int): int {
    if a < b then a else b
  }

  // A pool of this length lasts for all of the operations.
  predicate Lasts(s: Store, owner: seq<int>, operations: seq<Operation>, files: int, pool: int, capacity: int)
    requires forall i :: 0 <= i < |operations| ==> InRange(operations[i], |owner|, files)
    decreases |operations|
  {
    operations != [] ==>
      && Needs(s, owner, operations[0], files) <= pool
      && Lasts(After(s, owner, operations[0], files), owner, operations[1..], files,
               PoolAfter(s, owner, operations[0], files, pool, capacity), capacity)
  }

  // The operations keep to a scope and never rank.
  predicate Keeps(scope: Scope, owner: seq<int>, operations: seq<Operation>, files: int)
    requires forall i :: 0 <= i < |operations| ==> InRange(operations[i], |owner|, files)
  {
    forall operation :: operation in operations ==>
      match operation
      case Write(fd, _, _) => 0 <= fd < |owner| && owner[fd] in scope.files && scope.writes
      case Read(fd, _, _) => 0 <= fd < |owner| && owner[fd] in scope.files
      case Delete(f) => f in scope.files
      case Rank(_) => false
      case Flush(_) => true
  }

  // A run ends with the first write that finds no room or starts behind its file's end, as what it
  // then leaves does not depend on the bytes alone, and with the first operation that is stopped.
  predicate Ends(answer: Answer) {
    answer == NoRoom || answer == BehindEnd || answer == Halted
  }

  function Reached(s: Store, owner: seq<int>, operations: seq<Operation>, files: int): Store
    requires forall i :: 0 <= i < |operations| ==> InRange(operations[i], |owner|, files)
  {
    if operations == [] then s
    else
      var n := |operations| - 1;
      After(Reached(s, owner, operations[..n], files), owner, operations[n], files)
  }

  function Answers(s: Store, owner: seq<int>, operations: seq<Operation>, files: int): (answers: seq<Answer>)
    requires forall i :: 0 <= i < |operations| ==> InRange(operations[i], |owner|, files)
    ensures |answers| == |operations|
  {
    if operations == [] then []
    else
      var n := |operations| - 1;
      Answers(s, owner, operations[..n], files)
      + [Answered(Reached(s, owner, operations[..n], files), owner, operations[n], files)]
  }

  // What a file write does to the other files.

  lemma OtherKept(v0: Volume, chain0: seq<int>, v: Volume, chain: seq<int>, image: seq<Sector>, other: FileEntry)
    requires v0.Sound() && Directories.Reached(v0, chain0, v, v.data, chain, image)
    requires FileOk(v0, other.start, other.size, other.chain) && forall id :: id in other.chain ==> id !in chain0
    ensures FileOk(v, other.start, other.size, other.chain) && Bytes(v, other) == Bytes(v0, other)
    ensures forall id :: id in other.chain ==> id !in chain
  {
    hide Volume.Sound, IsChain, Grown, Shows;
    OtherFileUntouched(v0, chain0, v, chain, image, other.chain);
    ReachedFacts(v0, chain0, v, v.data, chain, image);
    assert Along(v.data, other.chain) == Along(v0.data, other.chain);
    OtherApart(v0, chain0, v, chain, image, other.chain);
  }

  lemma OtherApart(v0: Volume, chain0: seq<int>, v: Volume, chain: seq<int>, image: seq<Sector>, other: seq<int>)
    requires Directories.Reached(v0, chain0, v, v.data, chain, image) && IsChain(v0.table, other)
    requires forall id :: id in other ==> id !in chain0
    ensures forall id :: id in other ==> id !in chain
  {
    InUseEntries(v0.table, other);
    forall id | id in other
      ensures id !in chain
    {
      var j :| 0 <= j < |other| && other[j] == id;
      assert Low28(v0.table[other[j]]) != 0;
      forall i | 0 <= i < |chain|
        ensures chain[i] != id
      {
        if i < |chain0| {
          assert chain[i] == chain[..|chain0|][i] == chain0[i];
          assert chain0[i] in chain0;
        }
      }
    }
  }

  lemma WriteKeeps(v0: Volume, entries: map<int, FileEntry>, f: int, v: Volume, image: seq<Sector>, entry: FileEntry)
    requires v0.Sound() && AllFiles(v0, entries) && f in entries
    requires Directories.Reached(v0, entries[f].chain, v, v.data, entry.chain, image)
    requires FileOk(v, entry.start, entry.size, entry.chain)
    ensures AllFiles(v, entries[f := entry])
    ensures Contents(v, entries[f := entry]) == Contents(v0, entries)[f := Bytes(v, entry)]
  {
    hide FileOk, Directories.Reached, Bytes;
    forall g | g in entries && g != f
      ensures FileOk(v, entries[g].start, entries[g].size, entries[g].chain)
              && Bytes(v, entries[g]) == Bytes(v0, entries[g])
      ensures forall id :: id in entries[g].chain ==> id !in entry.chain
    {
      OtherKept(v0, entries[f].chain, v, entry.chain, image, entries[g]);
    }
  }

  lemma WriteWithin(v0: Volume, entries: map<int, FileEntry>, f: int, v: Volume, image: seq<Sector>, entry: FileEntry,
                    scope: Scope)
    requires AllFiles(v0, entries) && f in entries && Within(v0, entries, scope) && f in scope.files && scope.writes
    requires Directories.Reached(v0, entries[f].chain, v, v.data, entry.chain, image)
    ensures Within(v, entries[f := entry], scope)
  {
    var chain0 := entries[f].chain;
    forall i | 0 <= i < |entry.chain|
      ensures entry.chain[i] in scope.ids
    {
      if i < |chain0| {
        assert entry.chain[i] == entry.chain[..|chain0|][i] == chain0[i];
        assert chain0[i] in chain0;
      }
    }
    forall id | 0 <= id < |v.table| && v.Entry(id) == 0
      ensures id in scope.ids
    {
      FreeInNoChain(v.table, entry.chain, id);
      assert v.table[id] == v0.table[id];
      assert v0.Entry(id) == 0;
    }
  }

  // What deleting a file does to the others.

  lemma DeleteKeeps(v0: Volume, entries: map<int, FileEntry>, f: int, capacity: nat)
    requires v0.Sound() && AllFiles(v0, entries) && f in entries
    ensures var v := FreedAll(v0, entries[f].chain, capacity);
            AllFiles(v, entries - {f}) && Contents(v, entries - {f}) == Contents(v0, entries) - {f}
  {
    hide Volume.Sound, FreedAll;
    var v := FreedAll(v0, entries[f].chain, capacity);
    FreedAllFrees(v0, entries[f].chain, capacity);
    forall g | g in entries && g != f
      ensures FileOk(v, entries[g].start, entries[g].size, entries[g].chain)
              && Bytes(v, entries[g]) == Bytes(v0, entries[g])
    {
      ChainUntouched(v0.table, v.table, entries[g].chain);
    }
  }

  lemma DeleteWithin(v0: Volume, entries: map<int, FileEntry>, f: int, capacity: nat, scope: Scope)
    requires v0.Sound() && AllFiles(v0, entries) && f in entries && Within(v0, entries, scope) && f in scope.files
    ensures Within(FreedAll(v0, entries[f].chain, capacity), entries - {f}, scope)
  {
    hide Volume.Sound, FreedAll;
    var v := FreedAll(v0, entries[f].chain, capacity);
    FreedAllFrees(v0, entries[f].chain, capacity);
    forall id | scope.writes && 0 <= id < |v.table| && v.Entry(id) == 0
      ensures id in scope.ids
    {
      if id !in entries[f].chain {
        assert v.table[id] == v0.table[id];
        assert v0.Entry(id) == 0;
      }
    }
  }

  // The plain store that a volume with these files stands for.
  ghost function StoreOf(v: Volume, entries: map<int, FileEntry>): Store
    requires AllFiles(v, entries)
  {
    Store(Contents(v, entries), |v.table| - v.used)
  }

  lemma SplicedLength(content: seq<Byte>, off: int, data: seq<Byte>)
    requires 0 <= off <= |content|
    ensures |Spliced(content, off, data)| == Max(|content|, off + |data|)
  {
  }

  lemma WriteStored(v0: Volume, entries: map<int, FileEntry>, f: int, v: Volume, image: seq<Sector>, entry: FileEntry,
                    off: int, data: seq<Byte>)
    requires v0.Sound() && AllFiles(v0, entries) && f in entries && 0 <= off <= entries[f].size
    requires Directories.Reached(v0, entries[f].chain, v, v.data, entry.chain, image)
    requires FileOk(v, entry.start, entry.size, entry.chain) && entry.size == Max(entries[f].size, off + |data|)
    requires Bytes(v, entry) == Spliced(Bytes(v0, entries[f]), off, data)
    ensures AllFiles(v, entries[f := entry])
    ensures var s, bytes := StoreOf(v0, entries), Spliced(Bytes(v0, entries[f]), off, data);
            StoreOf(v, entries[f := entry]) ==
                Store(s.files[f := bytes], s.free - (SectorsFor(|bytes|) - SectorsFor(|Bytes(v0, entries[f])|)))
    ensures var n := Max(0, SectorsFor(off + |data|) - SectorsFor(entries[f].size));
            n <= |v0.pool| ==> |v.pool| == |v0.pool| - n
  {
    hide Bytes, Spliced, Directories.Reached, FileOk, AllFiles, Contents, Volume.Sound;
    FilesAt(v0, entries, f);
    WriteKeeps(v0, entries, f, v, image, entry);
    FilesAt(v, entries[f := entry], f);
    ReachedFacts(v0, entries[f].chain, v, v.data, entry.chain, image);
    SplicedLength(Bytes(v0, entries[f]), off, data);
    BytesLength(v0, entries[f]);
  }

  // A write on the plain store.
  lemma WriteOnStore(s: Store, owner: seq<int>, d: int, off: int, data: seq<Byte>, files: int, pool: int, capacity: int)
    requires InRange(Write(d, off, data), |owner|, files)
    ensures var f, operation := owner[d], Operation.Write(d, off, data);
            && (f !in s.files ==>
                  && Answered(s, owner, operation, files) == NotFound && After(s, owner, operation, files) == s
                  && PoolAfter(s, owner, operation, files, pool, capacity) == pool)
            && (f in s.files ==>
                  var n := SectorsFor(off + |data|) - SectorsFor(|s.files[f]|);
                  && Answered(s, owner, operation, files) ==
                       (if data == [] then Answer.Refused else if n > s.free then NoRoom
                        else if off > |s.files[f]| then BehindEnd else Done)
                  && (Answered(s, owner, operation, files) != Done ==> After(s, owner, operation, files) == s)
                  && (Answered(s, owner, operation, files) == Done ==>
                        var bytes := Spliced(s.files[f], off, data);
                        After(s, owner, operation, files) ==
                        Store(s.files[f := bytes], s.free - (SectorsFor(|bytes|) - SectorsFor(|s.files[f]|))))
                  && Needs(s, owner, operation, files) == (if data == [] then 0 else Max(0, n))
                  && PoolAfter(s, owner, operation, files, pool, capacity) ==
                       pool - (if data == [] then 0 else Max(0, n)))
  {
    hide Spliced;
  }

  lemma BytesLength(v: Volume, entry: FileEntry)
    requires FileOk(v, entry.start, entry.size, entry.chain)
    ensures |Bytes(v, entry)| == entry.size && |entry.chain| == SectorsFor(entry.size)
  {
  }

  lemma StoreAt(v: Volume, entries: map<int, FileEntry>, f: int)
    requires AllFiles(v, entries)
    ensures StoreOf(v, entries).files.Keys == entries.Keys && StoreOf(v, entries).free == |v.table| - v.used
    ensures f in entries ==> StoreOf(v, entries).files[f] == Bytes(v, entries[f])
  {
  }

  lemma DeleteStored(v0: Volume, entries: map<int, FileEntry>, f: int, capacity: nat)
    requires v0.Sound() && AllFiles(v0, entries) && f in entries
    ensures var v, s := FreedAll(v0, entries[f].chain, capacity), StoreOf(v0, entries);
            && AllFiles(v, entries - {f})
            && StoreOf(v, entries - {f}) == Store(s.files - {f}, s.free + SectorsFor(|Bytes(v0, entries[f])|))
  {
    hide Bytes, FreedAll;
    DeleteKeeps(v0, entries, f, capacity);
    FreedAllFrees(v0, entries[f].chain, capacity);
    BytesLength(v0, entries[f]);
  }

  // The directory entries of the files and the descriptors on them.
  class FileStack {
    const fs: FileSystem
    const nodes: seq<Node>
    const fds: seq<FileDescriptor>
    const owner: seq<int>
    var deleted: set<int>
    ghost var entries: map<int, FileEntry>

    constructor (fs: FileSystem, nodes: seq<Node>, fds: seq<FileDescriptor>, owner: seq<int>,
                 ghost entries: map<int, FileEntry>)
      ensures this.fs == fs && this.nodes == nodes && this.fds == fds && this.owner == owner
      ensures this.entries == entries && deleted == {}
    {
      this.fs, this.nodes, this.fds, this.owner := fs, nodes, fds, owner;
      this.entries, deleted := entries, {};
    }

    ghost predicate StoreOk()
      reads this, fs, fs.drive
    {
      fs.Valid() && 0 < fs.poolCapacity && fs.Contents().Sound() && AllFiles(fs.Contents(), entries)
    }

    ghost predicate NodesOk()
      reads this, nodes
    {
      && (forall f, g :: 0 <= f < g < |nodes| ==> nodes[f] != nodes[g])
      && (forall f :: f in entries <==> 0 <= f < |nodes| && f !in deleted)
      && forall f :: f in entries ==>
           nodes[f].startSectorID == entries[f].start && nodes[f].size == entries[f].size && !nodes[f].isDirectory
    }

    // No descriptor remembers the end of an empty file that another one may write to.
    ghost predicate HintsOk()
      reads this, fds
    {
      && |owner| == |fds|
      && (forall d, e :: 0 <= d < e < |fds| ==> fds[d] != fds[e])
      && (forall d :: 0 <= d < |fds| && owner[d] in entries ==>
            HintOk(fds[d].lastReadSectorIndex, fds[d].lastReadSectorNo, entries[owner[d]].chain))
      && (forall d, e :: 0 <= d < e < |fds| && owner[d] == owner[e] && owner[d] in entries ==>
            entries[owner[d]].chain != [])
    }

    ghost predicate Valid()
      reads this, fs, fs.drive, nodes, fds
    {
      StoreOk() && NodesOk() && HintsOk()
    }

    ghost function State(): Store
      requires StoreOk()
      reads this, fs, fs.drive
    {
      StoreOf(fs.Contents(), entries)
    }

    // The operation cannot be stopped: none of the sectors that it touches is up for eviction, and
    // the pool is long enough or the whole table cached; a ranking names no sector twice.
    ghost predicate Certain(operation: Operation)
      requires StoreOk() && InRange(operation, |owner|, |nodes|)
      reads this, fs, fs.drive
    {
      match operation
      case Write(d, off, data) => owner[d] in entries && data != [] ==>
        Ready(fs, entries[owner[d]].chain, Needed(off, |data|, entries[owner[d]].chain))
      case Read(d, _, _) => owner[d] in entries ==> fs.Apart(SectorsOf(entries[owner[d]].chain))
      case Rank(candidates) => !DiskDrives.Misranked(fs.drive.State(), candidates)
      case _ => true
    }

    // No sector of the scope is up for eviction.
    ghost predicate Scoped(scope: Scope)
      requires StoreOk()
      reads this, fs, fs.drive
    {
      Within(fs.Contents(), entries, scope) && fs.Apart(scope.ids)
    }

    // None of these operations can be stopped.
    ghost predicate Steady(scope: Scope, operations: seq<Operation>)
      requires StoreOk() && forall i :: 0 <= i < |operations| ==> InRange(operations[i], |owner|, |nodes|)
      reads this, fs, fs.drive
    {
      && Scoped(scope) && Keeps(scope, owner, operations, |nodes|)
      && (fs.WholeTableCached() || Lasts(State(), owner, operations, |nodes|, |fs.freePool|, fs.poolCapacity))
    }

    lemma SteadyCertain(scope: Scope, operations: seq<Operation>)
      requires Valid() && operations != []
      requires forall i :: 0 <= i < |operations| ==> InRange(operations[i], |owner|, |nodes|)
      requires Steady(scope, operations)
      ensures Certain(operations[0])
    {
      hide Claimed, FileSystem.Valid, FileSystem.WholeTableCached, Volume.Sound, AllFiles, Within, Contents;
      assert operations[0] in operations;
      match operations[0] {
        case Write(d, off, data) =>
          if owner[d] in entries {
            StoreAt(fs.Contents(), entries, owner[d]);
            FilesAt(fs.Contents(), entries, owner[d]);
            ClaimedWithin(fs.Contents(), entries, owner[d], Needed(off, |data|, entries[owner[d]].chain), scope);
          }
        case Read(d, _, _) =>
          if owner[d] in entries {
            OwnApart(fs.Contents(), entries, owner[d], scope);
          }
        case _ =>
      }
    }

    method Write(d: int, off: int, data: seq<Byte>, ghost scope: Scope) returns (r: Answer)
      requires Valid() && 0 <= d < |fds| && 0 <= off && off + |data| < 0x1_0000_0000
      modifies `entries, fs, fs.drive, nodes, fds
      ensures r == Halted ==> !old(Certain(Operation.Write(d, off, data)))
      ensures r != Halted ==> r == Answered(old(State()), owner, Operation.Write(d, off, data), |nodes|)
      ensures !Ends(r) ==>
                && Valid() && State() == After(old(State()), owner, Operation.Write(d, off, data), |nodes|)
                && (r == Done ==>
                      && owner[d] in old(State()).files && State().files.Keys == old(State()).files.Keys
                      && (forall g :: g in State().files && g != owner[d] ==> State().files[g] == old(State()).files[g])
                      && off <= |old(State()).files[owner[d]]|
                      && |State().files[owner[d]]| == Max(|old(State()).files[owner[d]]|, off + |data|)
                      && forall k :: 0 <= k < |State().files[owner[d]]| ==>
                           State().files[owner[d]][k] ==
                           if off <= k < off + |data| then data[k - off] else old(State()).files[owner[d]][k])
                && (old(fs.WholeTableCached()) ==> fs.WholeTableCached())
                && (old(Scoped(scope)) && owner[d] in scope.files && scope.writes ==> Scoped(scope))
                && (Needs(old(State()), owner, Operation.Write(d, off, data), |nodes|) <= old(|fs.freePool|) ==>
                      |fs.freePool| == PoolAfter(old(State()), owner, Operation.Write(d, off, data), |nodes|,
                                                 old(|fs.freePool|), fs.poolCapacity))
    {
      hide FileSystem.Valid, FileSystem.WholeTableCached, AllFiles, Within, FileOk, HintOk, Spliced;
      hide FileContent, Directories.Reached, Overwritten, Volume.Sound, Pending, Gathers, Ready, Contents, StoreOf;
      hide Answered, After, Needs, PoolAfter, NodesOk, HintsOk;
      Owners();
      var f := owner[d];
      Domain(f);
      StoreAt(fs.Contents(), entries, f);
      WriteOnStore(State(), owner, d, off, data, |nodes|, |fs.freePool|, fs.poolCapacity);
      WriteLaw(State(), owner, d, off, data, |nodes|);
      if f in deleted || f < 0 || |nodes| <= f {
        return NotFound;
      }
      ghost var entries0, v0 := entries, fs.Contents();
      FilesAt(v0, entries, f);
      ghost var entry, image;
      r, entry, image := WriteFile(d, f, off, data);
      if r == Done {
        WriteStored(v0, entries0, f, fs.Contents(), image, entry, off, data);
        if Within(v0, entries0, scope) && f in scope.files && scope.writes {
          WriteWithin(v0, entries0, f, fs.Contents(), image, entry, scope);
        }
        FileOkFacts(fs.Contents(), entry.start, entry.size, entry.chain);
      }
    }

    lemma Owners()
      requires HintsOk()
      ensures |owner| == |fds|
    {
    }

    lemma Domain(f: int)
      requires NodesOk()
      ensures f in entries <==> 0 <= f < |nodes| && f !in deleted
    {
    }

    // The write to a file that is there.
    method WriteFile(d: int, f: int, off: int, data: seq<Byte>)
      returns (r: Answer, ghost entry: FileEntry, ghost image: seq<Sector>)
      requires Valid() && 0 <= d < |fds| && f == owner[d] && f in entries && 0 <= off && off + |data| < 0x1_0000_0000
      modifies `entries, fs, fs.drive, nodes[f], fds[d]
      ensures r == Halted ==> !old(Certain(Operation.Write(d, off, data)))
      ensures r != Halted ==>
                r == if data == [] then Answer.Refused
                     else if Needed(off, |data|, old(entries[f]).chain) > old(|fs.table| - fs.usedSectors) then NoRoom
                     else if off > old(entries[f]).size then BehindEnd else Done
      ensures r == Answer.Refused || r == Done ==>
                && fs.Valid() && NodesOk() && HintsOk()
                && (forall s :: s in fs.drive.releaseList ==> s in old(fs.drive.releaseList))
                && (old(fs.WholeTableCached()) ==> fs.WholeTableCached())
      ensures r == Answer.Refused ==> fs.Contents() == old(fs.Contents()) && entries == old(entries)
      ensures r == Done ==>
                && entries == old(entries)[f := entry] && FileOk(fs.Contents(), entry.start, entry.size, entry.chain)
                && entry.size == Max(old(entries[f]).size, off + |data|)
                && Directories.Reached(old(fs.Contents()), old(entries[f]).chain, fs.Contents(), fs.Contents().data,
                                       entry.chain, image)
                && FileOk(old(fs.Contents()), old(entries[f]).start, old(entries[f]).size, old(entries[f]).chain)
                && Bytes(fs.Contents(), entry) == Spliced(Bytes(old(fs.Contents()), old(entries[f])), off, data)
    {
      hide FileSystem.Valid, FileSystem.WholeTableCached, AllFiles, FileOk, HintOk, Spliced, Contents;
      hide FileContent, Directories.Reached, Volume.Sound, Ready;
      r, entry, image := WriteBytes(d, f, off, data);
      if r == Done {
        FileGrew(old(fs.Contents()), entries[f], fs.Contents(), image, entry);
        entries := entries[f := entry];
      }
    }

    method WriteBytes(d: int, f: int, off: int, data: seq<Byte>)
      returns (r: Answer, ghost entry: FileEntry, ghost image: seq<Sector>)
      requires Valid() && 0 <= d < |fds| && f == owner[d] && f in entries && 0 <= off && off + |data| < 0x1_0000_0000
      modifies fs, fs.drive, nodes[f], fds[d]
      ensures r == Halted ==> !old(Certain(Operation.Write(d, off, data)))
      ensures r != Halted ==>
                r == if data == [] then Answer.Refused
                     else if Needed(off, |data|, entries[f].chain) > old(|fs.table| - fs.usedSectors) then NoRoom
                     else if off > entries[f].size then BehindEnd else Done
      ensures r == Answer.Refused || r == Done ==>
                && fs.Valid() && entry == FileEntry(nodes[f].startSectorID, nodes[f].size, entry.chain)
                && HintOk(fds[d].lastReadSectorIndex, fds[d].lastReadSectorNo, entry.chain)
                && (forall s :: s in fs.drive.releaseList ==> s in old(fs.drive.releaseList))
                && (old(fs.WholeTableCached()) ==> fs.WholeTableCached())
      ensures r == Answer.Refused ==> fs.Contents() == old(fs.Contents()) && entry == entries[f]
      ensures r == Done ==>
                && FileOk(fs.Contents(), entry.start, entry.size, entry.chain)
                && entry.size == Max(entries[f].size, off + |data|)
                && Directories.Reached(old(fs.Contents()), entries[f].chain, fs.Contents(), fs.Contents().data,
                                       entry.chain, image)
                && FileOk(old(fs.Contents()), entries[f].start, entries[f].size, entries[f].chain)
                && Bytes(fs.Contents(), entry) == Spliced(Bytes(old(fs.Contents()), entries[f]), off, data)
    {
      hide FileSystem.Valid, FileSystem.WholeTableCached, AllFiles, FileOk, HintOk, Spliced, Contents;
      hide FileContent, Directories.Reached, Overwritten, Volume.Sound, Pending, Gathers, Ready;
      FilesAt(fs.Contents(), entries, f);
      FileOkFacts(fs.Contents(), entries[f].start, entries[f].size, entries[f].chain);
      fds[d].offset := off;
      var size := nodes[f].size;
      var outcome; ghost var chain, buffer;
      outcome, chain, image, buffer := FileWrite(fs, fds[d], nodes[f], data, entries[f].chain);
      entry := FileEntry(nodes[f].startSectorID, nodes[f].size, chain);
      match outcome {
        case Stopped => r := Halted;
        case Refused => r := Answer.Refused;
        case NoSpace => r := NoRoom;
        case Written =>
          PendingEmpty(fs.Contents().data, buffer);
          FileOkFacts(fs.Contents(), entry.start, entry.size, chain);
          r := if off > size then BehindEnd else Done;
      }
    }

    method Read(d: int, off: int, count: int, ghost scope: Scope) returns (r: Answer)
      requires Valid() && 0 <= d < |fds| && 0 <= off && 0 < count < 0x8000_0000
      modifies fs, fs.drive, fds
      ensures r == Halted ==> !old(Certain(Operation.Read(d, off, count)))
      ensures r != Halted ==> r == Answered(old(State()), owner, Operation.Read(d, off, count), |nodes|)
      ensures r != Halted && owner[d] !in old(State()).files ==> r == NotFound
      ensures r != Halted && owner[d] in old(State()).files ==>
                var bytes := old(State()).files[owner[d]];
                && r.Got?
                && |r.bytes| == (if |bytes| <= off then 0 else if |bytes| - off < count then |bytes| - off else count)
                && forall k :: 0 <= k < |r.bytes| ==> r.bytes[k] == bytes[off + k]
      ensures Valid() && State() == old(State()) && |fs.freePool| == old(|fs.freePool|)
      ensures old(fs.WholeTableCached()) ==> fs.WholeTableCached()
      ensures old(Scoped(scope)) ==> Scoped(scope)
    {
      hide FileSystem.Valid, FileSystem.WholeTableCached, AllFiles, Within, FileOk, HintOk, FileContent, Volume.Sound;
      var f := owner[d];
      if f !in deleted && 0 <= f < |nodes| {
        FilesAt(fs.Contents(), entries, f);
        fds[d].offset := off;
        var outcome, bytes := FileRead(fs, fds[d], nodes[f], count, entries[f].chain);
        r := if outcome == ReadStopped then Halted else Got(bytes);
      } else {
        r := NotFound;
      }
    }

    method Delete(f: int, ghost scope: Scope) returns (r: Answer)
      requires Valid() && 0 <= f < |nodes|
      modifies this, fs, fs.drive
      ensures r == Answered(old(State()), owner, Operation.Delete(f), |nodes|)
      ensures Valid() && State() == After(old(State()), owner, Operation.Delete(f), |nodes|)
      ensures r == (if f in old(State()).files then Done else NotFound) && State().files == old(State()).files - {f}
      ensures old(fs.WholeTableCached()) ==> fs.WholeTableCached()
      ensures old(Scoped(scope)) && f in scope.files ==> Scoped(scope)
      ensures |fs.freePool| == PoolAfter(old(State()), owner, Operation.Delete(f), |nodes|, old(|fs.freePool|),
                                         fs.poolCapacity)
    {
      hide FileSystem.Valid, FileSystem.WholeTableCached, AllFiles, Within, FileOk, HintOk, FileContent, Volume.Sound;
      hide FreedAll;
      PoolBounded();
      if f !in deleted {
        ghost var v0, chain := fs.Contents(), entries[f].chain;
        FilesAt(v0, entries, f);
        FileOkFacts(v0, entries[f].start, entries[f].size, chain);
        StartIs(v0, entries[f]);
        DeleteStored(v0, entries, f, fs.poolCapacity);
        if Within(v0, entries, scope) && f in scope.files {
          DeleteWithin(v0, entries, f, fs.poolCapacity, scope);
        }
        FreedAllSound(v0, chain, fs.poolCapacity);
        FreedAllPool(v0, chain, fs.poolCapacity);
        DeleteChain(fs, nodes[f].startSectorID, chain);
        deleted := deleted + {f};
        entries := entries - {f};
        r := Done;
      } else {
        r := NotFound;
      }
    }

    lemma PoolBounded()
      requires fs.Valid()
      ensures |fs.freePool| <= fs.poolCapacity
    {
    }

    // The background tasks of the sector cache: a ranking that would name a sector twice is not
    // followed any further.

    method Rank(candidates: seq<int>) returns (r: Answer)
      requires Valid()
      modifies fs.drive
      ensures r == Halted <==> !old(Certain(Operation.Rank(candidates)))
      ensures r == Halted || r == Done
      ensures Valid() && State() == old(State())
    {
      hide FileSystem.WholeTableCached, AllFiles, Within, FileOk, HintOk, FileContent, Volume.Sound;
      hide TableCaches.Caches, DiskCaches.Cache.Valid, DiskCaches.Cache.View, DiskDrives.Rankable, DiskDrives.Ranked;
      if DiskDrives.Misranked(fs.drive.State(), candidates) {
        return Halted;
      }
      fs.drive.ReleaseCache(candidates);
      r := Done;
    }

    method Flush(limit: int)
      requires Valid()
      modifies fs.drive
      ensures Valid() && State() == old(State()) && fs.Contents() == old(fs.Contents())
      ensures fs.drive.releaseList == old(fs.drive.releaseList)
    {
      hide FileSystem.WholeTableCached, AllFiles, Within, FileOk, HintOk, FileContent, Volume.Sound;
      hide TableCaches.Caches, DiskCaches.Cache.Valid, DiskCaches.Cache.View, DiskDrives.AfterFlush;
      fs.drive.FlushDirtyCacheSectors(limit);
    }
  }

  lemma StartIs(v: Volume, entry: FileEntry)
    requires FileOk(v, entry.start, entry.size, entry.chain)
    ensures entry.start == StartOf(entry.chain)
  {
  }

  lemma OwnApart(v: Volume, entries: map<int, FileEntry>, f: int, scope: Scope)
    requires f in entries && f in scope.files && Within(v, entries, scope)
    ensures forall id :: id in SectorsOf(entries[f].chain) ==> id in scope.ids
  {
  }

  // Hints of other descriptors on the written file stay good, its chain not having been empty.
  lemma FileGrew(v0: Volume, entry0: FileEntry, v: Volume, image: seq<Sector>, entry: FileEntry)
    requires FileOk(v0, entry0.start, entry0.size, entry0.chain) && FileOk(v, entry.start, entry.size, entry.chain)
    requires Directories.Reached(v0, entry0.chain, v, v.data, entry.chain, image) && 0 < entry.size
    ensures v.Sound() && entry.chain != []
    ensures entry0.chain != [] ==>
              forall index, no :: HintOk(index, no, entry0.chain) ==> HintOk(index, no, entry.chain)
  {
    assert forall i :: 0 <= i < |entry0.chain| ==> entry.chain[i] == entry.chain[..|entry0.chain|][i];
  }

  lemma ClaimedWithin(v: Volume, entries: map<int, FileEntry>, f: int, k: int, scope: Scope)
    requires v.Sound() && f in entries && f in scope.files && scope.writes && Within(v, entries, scope)
    ensures forall id :: id in Claimed(v, entries[f].chain, k) ==> id in scope.ids
  {
    forall id | id in Claimed(v, entries[f].chain, k)
      ensures id in scope.ids
    {
      if id !in entries[f].chain && k <= |v.pool| {
        var i :| 0 <= i < k && v.pool[..k][i] == id;
        assert v.Entry(v.pool[i]) == 0;
      }
    }
  }

  lemma FilesAt(v: Volume, entries: map<int, FileEntry>, f: int)
    requires AllFiles(v, entries) && f in entries
    ensures FileOk(v, entries[f].start, entries[f].size, entries[f].chain)
    ensures |entries[f].chain| == SectorsFor(entries[f].size) && 0 <= entries[f].size
    ensures Contents(v, entries)[f] == Bytes(v, entries[f]) && |Bytes(v, entries[f])| == entries[f].size
  {
  }

  lemma {:induction false} AnswersPrefix(s: Store, owner: seq<int>, operations: seq<Operation>, files: int, i: int)
    requires forall k :: 0 <= k < |operations| ==> InRange(operations[k], |owner|, files)
    requires 0 <= i <= |operations|
    ensures Answers(s, owner, operations, files)[..i] == Answers(s, owner, operations[..i], files)
    decreases |operations| - i
  {
    hide Answered, After, Reached;
    if i == |operations| {
      assert operations[..i] == operations;
    } else {
      AnswersPrefix(s, owner, operations, files, i + 1);
      assert operations[..i + 1][..i] == operations[..i];
      assert Answers(s, owner, operations, files)[..i + 1][..i] == Answers(s, owner, operations, files)[..i];
    }
  }

  // A run whose first i operations have been answered, none of them ending it.
  ghost predicate RunUpTo(s0: Store, s: Store, owner: seq<int>, operations: seq<Operation>, files: int, i: int,
                          answers: seq<Answer>)
    requires forall k :: 0 <= k < |operations| ==> InRange(operations[k], |owner|, files)
    requires 0 <= i <= |operations|
  {
    && |answers| == i && s == Reached(s0, owner, operations[..i], files)
    && answers == Answers(s0, owner, operations[..i], files)
    && forall k :: 0 <= k < i ==> !Ends(answers[k])
  }

  lemma RunBegins(s: Store, owner: seq<int>, operations: seq<Operation>, files: int)
    requires forall k :: 0 <= k < |operations| ==> InRange(operations[k], |owner|, files)
    ensures RunUpTo(s, s, owner, operations, files, 0, [])
  {
  }

  lemma RunNext(s0: Store, s: Store, owner: seq<int>, operations: seq<Operation>, files: int, i: int,
                answers: seq<Answer>, answer: Answer)
    requires forall k :: 0 <= k < |operations| ==> InRange(operations[k], |owner|, files)
    requires 0 <= i < |operations| && RunUpTo(s0, s, owner, operations, files, i, answers)
    requires answer == Answered(s, owner, operations[i], files)
    ensures answers + [answer] == Answers(s0, owner, operations, files)[..i + 1]
    ensures forall k :: 0 <= k < i ==> !Ends((answers + [answer])[k])
    ensures !Ends(answer) ==>
              RunUpTo(s0, After(s, owner, operations[i], files), owner, operations, files, i + 1, answers + [answer])
  {
    hide Answered, After;
    AnswersPrefix(s0, owner, operations, files, i + 1);
    assert operations[..i + 1][..i] == operations[..i];
  }

  lemma RunDone(s0: Store, s: Store, owner: seq<int>, operations: seq<Operation>, files: int, answers: seq<Answer>)
    requires forall k :: 0 <= k < |operations| ==> InRange(operations[k], |owner|, files)
    requires RunUpTo(s0, s, owner, operations, files, |operations|, answers)
    ensures s == Reached(s0, owner, operations, files) && answers == Answers(s0, owner, operations, files)[..|answers|]
    ensures |answers| == |operations| && forall k :: 0 <= k < |answers| ==> !Ends(answers[k])
  {
    hide Answers, Reached;
    assert operations[..|operations|] == operations;
  }

  method Perform(stack: FileStack, operation: Operation, ghost scope: Scope) returns (r: Answer)
    requires stack.Valid() && InRange(operation, |stack.owner|, |stack.nodes|)
    modifies stack, stack.fs, stack.fs.drive, stack.nodes, stack.fds
    ensures r == Halted ==> !old(stack.Certain(operation))
    ensures r != Halted ==> r == Answered(old(stack.State()), stack.owner, operation, |stack.nodes|)
    ensures !Ends(r) ==>
              && stack.Valid() && stack.State() == After(old(stack.State()), stack.owner, operation, |stack.nodes|)
              && (old(stack.fs.WholeTableCached()) ==> stack.fs.WholeTableCached())
              && (old(stack.Scoped(scope)) && Keeps(scope, stack.owner, [operation], |stack.nodes|) ==>
                    stack.Scoped(scope))
              && (Needs(old(stack.State()), stack.owner, operation, |stack.nodes|) <= old(|stack.fs.freePool|) ==>
                    |stack.fs.freePool| == PoolAfter(old(stack.State()), stack.owner, operation, |stack.nodes|,
                                                     old(|stack.fs.freePool|), stack.fs.poolCapacity))
  {
    hide FileStack.StoreOk, FileStack.NodesOk, FileStack.State, Within;
    assert operation in [operation];
    match operation {
      case Write(d, off, data) => r := stack.Write(d, off, data, scope);
      case Read(d, off, count) => r := stack.Read(d, off, count, scope);
      case Delete(f) => r := stack.Delete(f, scope);
      case Rank(candidates) => r := stack.Rank(candidates);
      case Flush(limit) =>
        stack.Flush(limit);
        r := Done;
    }
  }

  // Any sequence of writes, reads and deletions, through any descriptors, with rankings and flushes
  // of the sector cache in between, answers as the plain store does and leaves what it holds, up to
  // the first write that finds no room or starts behind the end of its file, or the first operation
  // that is stopped.  None is if the run keeps to a scope no sector of which is up for eviction, and
  // the pool lasts for it.
  method Run(stack: FileStack, operations: seq<Operation>, ghost scope: Scope) returns (answers: seq<Answer>)
    requires stack.Valid()
    requires forall i :: 0 <= i < |operations| ==> InRange(operations[i], |stack.owner|, |stack.nodes|)
    modifies stack, stack.fs, stack.fs.drive, stack.nodes, stack.fds
    ensures RunOf(old(stack.State()), stack.owner, operations, |stack.nodes|, answers)
    ensures answers == [] || !Ends(answers[|answers| - 1]) ==>
              stack.Valid() && stack.State() == Reached(old(stack.State()), stack.owner, operations, |stack.nodes|)
    ensures old(stack.Steady(scope, operations)) ==> Halted !in answers
    ensures forall i :: 0 <= i < |answers| - 1 && WritesThenReads(stack.owner, operations, i) && answers[i] == Done
                        && answers[i + 1] != Halted ==>
              answers[i + 1].Got? && operations[i].data <= answers[i + 1].bytes
  {
    hide FileStack.StoreOk, FileStack.NodesOk, FileStack.HintsOk, FileStack.State, Answered, After, Reached, Answers,
         RunUpTo, FileStack.Certain, FileStack.Scoped, Keeps, Lasts, Needs, PoolAfter;
    ghost var s0, owner, files, steady :=
      stack.State(), stack.owner, |stack.nodes|, stack.Steady(scope, operations);
    answers := [];
    RunBegins(s0, owner, operations, files);
    for i := 0 to |operations|
      invariant stack.Valid() && RunUpTo(s0, stack.State(), owner, operations, files, i, answers)
      invariant steady ==> stack.Steady(scope, operations[i..])
    {
      ghost var s, before := stack.State(), answers;
      if steady {
        stack.SteadyCertain(scope, operations[i..]);
        KeepsNext(scope, owner, operations[i..], files);
      }
      LastsNext(s, owner, operations[i..], files, |stack.fs.freePool|, stack.fs.poolCapacity);
      assert operations[i..][1..] == operations[i + 1..];
      var answer := Perform(stack, operations[i], scope);
      answers := answers + [answer];
      if answer == Halted {
        RunHalts(s0, s, owner, operations, files, i, before);
        ReadsWhatWasWritten(s0, owner, operations, files, answers);
        return;
      }
      RunNext(s0, s, owner, operations, files, i, before, answer);
      if Ends(answer) {
        ReadsWhatWasWritten(s0, owner, operations, files, answers);
        return;
      }
    }
    RunDone(s0, stack.State(), owner, operations, files, answers);
    ReadsWhatWasWritten(s0, owner, operations, files, answers);
  }

  // What a run from s answers: what the plain store does, up to an operation that ends it; one that
  // is halted answers nothing else.
  ghost predicate RunOf(s: Store, owner: seq<int>, operations: seq<Operation>, files: int, answers: seq<Answer>)
    requires forall i :: 0 <= i < |operations| ==> InRange(operations[i], |owner|, files)
  {
    var n := |answers|;
    && n <= |operations| && (forall i :: 0 <= i < n - 1 ==> !Ends(answers[i]))
    && (n < |operations| ==> 0 < n && Ends(answers[n - 1]))
    && (if 0 < n && answers[n - 1] == Halted then answers[..n - 1] == Answers(s, owner, operations, files)[..n - 1]
        else answers == Answers(s, owner, operations, files)[..n])
  }

  // A write and directly after it a read, of the same file from the same place and not for less.
  predicate WritesThenReads(owner: seq<int>, operations: seq<Operation>, i: int) {
    0 <= i && i + 1 < |operations| && operations[i].Write? && operations[i + 1].Read? &&
    0 <= operations[i].fd < |owner| && 0 <= operations[i + 1].fd < |owner| &&
    owner[operations[i].fd] == owner[operations[i + 1].fd] && operations[i].off == operations[i + 1].off &&
    |operations[i].data| <= operations[i + 1].count
  }

  lemma ReadsWhatWasWritten(s: Store, owner: seq<int>, operations: seq<Operation>, files: int, answers: seq<Answer>)
    requires forall k :: 0 <= k < |operations| ==> InRange(operations[k], |owner|, files)
    requires RunOf(s, owner, operations, files, answers)
    ensures forall i :: 0 <= i < |answers| - 1 && WritesThenReads(owner, operations, i) && answers[i] == Done
                        && answers[i + 1] != Halted ==>
              answers[i + 1].Got? && operations[i].data <= answers[i + 1].bytes
  {
    forall i | 0 <= i < |answers| - 1 && WritesThenReads(owner, operations, i) && answers[i] == Done
               && answers[i + 1] != Halted
      ensures answers[i + 1].Got? && operations[i].data <= answers[i + 1].bytes
    {
      ReadAfterWrite(s, owner, operations, files, answers, i);
    }
  }

  lemma AnswerAt(s: Store, owner: seq<int>, operations: seq<Operation>, files: int, answers: seq<Answer>, i: int)
    requires forall k :: 0 <= k < |operations| ==> InRange(operations[k], |owner|, files)
    requires RunOf(s, owner, operations, files, answers) && 0 <= i < |answers| && answers[i] != Halted
    ensures |answers| <= |operations|
    ensures answers[i] == Answered(Reached(s, owner, operations[..i], files), owner, operations[i], files)
    ensures Reached(s, owner, operations[..i + 1], files) ==
            After(Reached(s, owner, operations[..i], files), owner, operations[i], files)
  {
    hide Answered, After;
    AnswersPrefix(s, owner, operations, files, i + 1);
    assert operations[..i + 1][..i] == operations[..i];
    var all := Answers(s, owner, operations, files);
    assert all[..i + 1][i] == all[i];
    if answers[|answers| - 1] == Halted {
      assert answers[..|answers| - 1][i] == all[..|answers| - 1][i];
    } else {
      assert all[..|answers|][i] == all[i];
    }
  }

  // In any run a read directly after a write to the same file that was carried out, from where that
  // wrote and for as many bytes or more, begins with what was written, and then goes on to the end
  // of the request or of the file.
  lemma ReadAfterWrite(s: Store, owner: seq<int>, operations: seq<Operation>, files: int, answers: seq<Answer>, i: int)
    requires forall k :: 0 <= k < |operations| ==> InRange(operations[k], |owner|, files)
    requires RunOf(s, owner, operations, files, answers) && 0 <= i && i + 1 < |answers|
    requires |answers| <= |operations| && operations[i].Write? && operations[i + 1].Read?
    requires owner[operations[i].fd] == owner[operations[i + 1].fd] && operations[i].off == operations[i + 1].off
    requires |operations[i].data| <= operations[i + 1].count && answers[i] == Done && answers[i + 1] != Halted
    ensures answers[i + 1].Got?
    ensures var data, bytes, count := operations[i].data, answers[i + 1].bytes, operations[i + 1].count;
            && |data| <= |bytes| <= count && bytes[..|data|] == data
            && var f, before := owner[operations[i].fd], Reached(s, owner, operations[..i], files);
               && f in before.files
               && (|bytes| < count ==>
                     operations[i].off + |bytes| == Max(|before.files[f]|, operations[i].off + |data|))
               && forall k :: |data| <= k < |bytes| ==>
                    operations[i].off + k < |before.files[f]| && bytes[k] == before.files[f][operations[i].off + k]
  {
    hide Answered, After, Reached, RunOf;
    AnswerAt(s, owner, operations, files, answers, i);
    AnswerAt(s, owner, operations, files, answers, i + 1);
    var before := Reached(s, owner, operations[..i], files);
    var after := Reached(s, owner, operations[..i + 1], files);
    WriteLaw(before, owner, operations[i].fd, operations[i].off, operations[i].data, files);
    ReadLaw(after, owner, operations[i + 1].fd, operations[i + 1].off, operations[i + 1].count, files);
  }

  // And after a deletion that was carried out nothing is found, until the run ends.
  lemma NothingAfterDelete(s: Store, owner: seq<int>, operations: seq<Operation>, files: int, answers: seq<Answer>,
                           i: int, j: int)
    requires forall k :: 0 <= k < |operations| ==> InRange(operations[k], |owner|, files)
    requires RunOf(s, owner, operations, files, answers) && 0 <= i < j < |answers| <= |operations|
    requires operations[i].Delete? && answers[i] != Halted && answers[j] != Halted
    requires match operations[j]
             case Write(fd, _, _) => owner[fd] == operations[i].file
             case Read(fd, _, _) => owner[fd] == operations[i].file
             case Delete(f) => f == operations[i].file
             case _ => false
    ensures answers[j] == NotFound
  {
    hide Answered, After, Reached, RunOf;
    StaysDeleted(s, owner, operations, files, answers, i, j);
    AnswerAt(s, owner, operations, files, answers, j);
    var before := Reached(s, owner, operations[..j], files);
    match operations[j] {
      case Write(fd, off, data) => WriteLaw(before, owner, fd, off, data, files);
      case Read(fd, off, count) => ReadLaw(before, owner, fd, off, count, files);
      case Delete(f) => DeleteLaw(before, owner, f, files);
      case _ =>
    }
  }

  lemma {:induction false} StaysDeleted(s: Store, owner: seq<int>, operations: seq<Operation>, files: int,
                                        answers: seq<Answer>, i: int, j: int)
    requires forall k :: 0 <= k < |operations| ==> InRange(operations[k], |owner|, files)
    requires RunOf(s, owner, operations, files, answers) && 0 <= i < j < |answers| <= |operations|
    requires operations[i].Delete?
    ensures operations[i].file !in Reached(s, owner, operations[..j], files).files
    decreases j
  {
    hide Answered, After, Reached;
    if i + 1 < j {
      StaysDeleted(s, owner, operations, files, answers, i, j - 1);
    }
    AnswerAt(s, owner, operations, files, answers, j - 1);
    var before := Reached(s, owner, operations[..j - 1], files);
    match operations[j - 1] {
      case Write(fd, off, data) => WriteLaw(before, owner, fd, off, data, files);
      case Delete(f) => DeleteLaw(before, owner, f, files);
      case _ => NothingChanged(before, owner, operations[j - 1], files);
    }
  }

  lemma NothingChanged(s: Store, owner: seq<int>, operation: Operation, files: int)
    requires InRange(operation, |owner|, files) && !operation.Write? && !operation.Delete?
    ensures After(s, owner, operation, files) == s
  {
  }

  lemma RunHalts(s0: Store, s: Store, owner: seq<int>, operations: seq<Operation>, files: int, i: int,
                 answers: seq<Answer>)
    requires forall k :: 0 <= k < |operations| ==> InRange(operations[k], |owner|, files)
    requires 0 <= i < |operations| && RunUpTo(s0, s, owner, operations, files, i, answers)
    ensures |answers| == i && answers == Answers(s0, owner, operations, files)[..i]
    ensures forall k :: 0 <= k < i ==> !Ends(answers[k])
  {
    AnswersPrefix(s0, owner, operations, files, i);
  }

  lemma LastsNext(s: Store, owner: seq<int>, operations: seq<Operation>, files: int, pool: int, capacity: int)
    requires forall i :: 0 <= i < |operations| ==> InRange(operations[i], |owner|, files)
    requires operations != []
    ensures Lasts(s, owner, operations, files, pool, capacity) ==>
              && Needs(s, owner, operations[0], files) <= pool
              && Lasts(After(s, owner, operations[0], files), owner, operations[1..], files,
                       PoolAfter(s, owner, operations[0], files, pool, capacity), capacity)
  {
  }

  lemma KeepsNext(scope: Scope, owner: seq<int>, operations: seq<Operation>, files: int)
    requires forall i :: 0 <= i < |operations| ==> InRange(operations[i], |owner|, files)
    requires operations != [] && Keeps(scope, owner, operations, files)
    ensures Keeps(scope, owner, [operations[0]], files) && Keeps(scope, owner, operations[1..], files)
  {
    assert forall o :: o in [operations[0]] ==> o in operations;
    assert forall o :: o in operations[1..] ==> o in operations;
  }

  // The same for each of the numbers below n.
  function Each<T>(n: nat, value: T): (r: map<int, T>)
    ensures forall f :: f in r <==> 0 <= f < n
    ensures forall f :: f in r ==> r[f] == value
  {
    if n == 0 then map[] else Each(n - 1, value)[n - 1 := value]
  }

  lemma EmptyFiles(v: Volume, count: nat)
    requires v.Sound()
    ensures var entries := Each(count, FileEntry(EOC, 0, []));
            AllFiles(v, entries) && Contents(v, entries) == Each(count, [])
  {
    var entries := Each(count, FileEntry(EOC, 0, []));
    forall f | f in entries
      ensures FileOk(v, EOC, 0, []) && Bytes(v, entries[f]) == []
    {
      assert |Bytes(v, entries[f])| == 0;
    }
  }

  // Empty files, each with one descriptor, on any volume.
  method NewFiles(fs: FileSystem, count: nat) returns (stack: FileStack)
    requires fs.Valid() && fs.Contents().Sound() && 0 < fs.poolCapacity
    ensures fresh(stack) && fresh(stack.nodes) && fresh(stack.fds) && stack.fs == fs && stack.Valid()
    ensures |stack.nodes| == count && stack.owner == seq(count, f => f)
    ensures stack.State() == Store(Each(count, []), |fs.table| - fs.usedSectors)
    ensures stack.entries == Each(count, FileEntry(EOC, 0, []))
  {
    hide FileSystem.Valid, FileSystem.WholeTableCached, AllFiles, Within, Volume.Sound, Contents;
    var nodes: seq<Node>, fds: seq<FileDescriptor>, owner: seq<int> := [], [], [];
    for i := 0 to count
      invariant |nodes| == |fds| == |owner| == i
      invariant forall f :: 0 <= f < i ==> fresh(nodes[f]) && fresh(fds[f]) && owner[f] == f
      invariant forall f, g :: 0 <= f < g < i ==> nodes[f] != nodes[g] && fds[f] != fds[g]
      invariant forall f :: 0 <= f < i ==> nodes[f].startSectorID == EOC && nodes[f].size == 0 && !nodes[f].isDirectory
      invariant forall d :: 0 <= d < i ==> fds[d].lastReadSectorIndex == 0 && fds[d].lastReadSectorNo == EOC
    {
      var node := new Node(false);
      var fd := new FileDescriptor(EOC);
      nodes, fds, owner := nodes + [node], fds + [fd], owner + [i];
    }
    EmptyFiles(fs.Contents(), count);
    stack := new FileStack(fs, nodes, fds, owner, Each(count, FileEntry(EOC, 0, [])));
  }

  // New files with nothing up for eviction: the pool alone decides.
  lemma NewIsSteady(stack: FileStack, count: nat, operations: seq<Operation>, scope: Scope)
    requires stack.Valid() && stack.entries == Each(count, FileEntry(EOC, 0, [])) && |stack.nodes| == count
    requires stack.owner == seq(count, f => f) && stack.fs.drive.releaseList == []
    requires scope == Scope(Each(count, true).Keys, true, Each(|stack.fs.table|, true).Keys)
    requires forall i :: 0 <= i < |operations| ==> InRange(operations[i], count, count)
    requires forall operation :: operation in operations ==> !operation.Rank?
    ensures Lasts(stack.State(), stack.owner, operations, count, |stack.fs.freePool|, stack.fs.poolCapacity) ==>
              stack.Steady(scope, operations)
  {
    hide Lasts, FileSystem.Valid, Volume.Sound, AllFiles, StoreOf, FileStack.NodesOk, FileStack.HintsOk;
  }

  lemma NoneListed(list: seq<int>, before: seq<int>)
    requires forall s :: s in list ==> s in before
    ensures before == [] ==> list == []
  {
    if list != [] {
      assert list[0] in list;
      var i :| 0 <= i < |before| && before[i] == list[0];
    }
  }

  // The whole way from an unformatted drive: it is formatted and mounted, and files are made on it,
  // written, read and deleted.  All of the operations are carried out if nothing was up for
  // eviction and nothing is ranked, and the first filling of the pool lasts.
  method FormatAndRun(drive: DiskDrives.DiskDrive<Sector>, sectorsPerTrack: int, heads: int, floppy: bool,
                      buffer: Sector, root: Sector, poolCapacity: nat, count: nat, operations: seq<Operation>)
    returns (r: Option<seq<Answer>>)
    requires drive.Valid() && 0 < poolCapacity
    requires 4 <= |drive.disk| - drive.lbaStart && 128 * TableSize(|drive.disk| - drive.lbaStart) <= LOW_BITS - 2
    requires |drive.disk| - drive.lbaStart < 0x1_0000_0000
    requires 0 <= sectorsPerTrack < 0x1_0000 && 0 <= heads < 0x1_0000
    requires forall i :: 0 <= i < |operations| ==> InRange(operations[i], count, count)
    modifies drive
    ensures var sectors := 128 * TableSize(|old(drive.disk)| - drive.lbaStart);
            var s0, owner := Store(Each(count, []), sectors - 1), seq(count, f => f);
            && (132 <= |old(drive.disk)| - drive.lbaStart && old(drive.releaseList) == [] ==> r.Some?)
            && (r.Some? ==> 132 <= |old(drive.disk)| - drive.lbaStart && RunOf(s0, owner, operations, count, r.value))
            && (r.Some? && old(drive.releaseList) == []
                && (forall operation :: operation in operations ==> !operation.Rank?)
                && Lasts(s0, owner, operations, count, Min(poolCapacity, sectors - 1), poolCapacity) ==>
                  Halted !in r.value)
  {
    hide DiskCaches.Cache.Valid, FileSystem.Valid, Volume.Sound, AllFiles;
    hide Answers, Lasts, StoreOf, TableSize, RunOf, FileStack.Steady, FileStack.StoreOk, FileStack.NodesOk;
    hide FileStack.HintsOk, FileStack.State, Formatted;
    var mounted := Formats.FormatAndMount(drive, sectorsPerTrack, heads, floppy, buffer, root, poolCapacity);
    NoneListed(drive.releaseList, old(drive.releaseList));
    if !mounted.Mounted? {
      return None;
    }
    var fs := mounted.fs;
    var stack := NewFiles(fs, count);
    ghost var scope := Scope(Each(count, true).Keys, true, Each(|fs.table|, true).Keys);
    assert stack.State() == Store(Each(count, []), |fs.table| - 1);
    if drive.releaseList == [] && forall operation :: operation in operations ==> !operation.Rank? {
      NewIsSteady(stack, count, operations, scope);
    }
    var answers := Run(stack, operations, scope);
    r := Some(answers);
  }
}
