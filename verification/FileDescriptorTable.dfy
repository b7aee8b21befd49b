// The descriptor table of a process: open files, and descriptors that stand for others
// (filesystem/FileDescriptorTable.cpp).
module FileDescriptorTables {
  import opened Wrappers

  const DUPPED := 100
  const PROC_FREE_FD := 1100
  const PROC_STDIN := 1101
  const PROC_SYS_MAX_OPEN_FILES := 4096

  // A descriptor of mode DUPPED stands for the one whose number it keeps as its drive id.
  datatype Descriptor = Descriptor(mode: int, driveId: int, fileSize: int, offset: int, refCount: int)

  type Table = map<int, Descriptor>

  predicate Names(t: Table, d: int, fd: int) {
    d in t && t[d].mode == DUPPED && t[d].driveId == fd
  }

  // The descriptors that stand for fd.
  ghost function Dups(t: Table, fd: int): set<int> {
    set d | d in t && Names(t, d, fd)
  }

  ghost predicate Counted(t: Table) {
    forall fd :: fd in t ==> t[fd].refCount == 1 + |Dups(t, fd)|
  }

  // Every descriptor that stands for another stands for one opened before it.
  ghost predicate Older(t: Table, birth: map<int, int>) {
    forall fd :: fd in t ==> fd in birth && 0 <= birth[fd] &&
                             (t[fd].mode == DUPPED ==>
                                 t[fd].driveId in t && t[fd].driveId in birth && birth[t[fd].driveId] < birth[fd])
  }

  ghost predicate Sound(t: Table, birth: map<int, int>) {
    Counted(t) && Older(t, birth)
  }

  // The open file a descriptor stands for in the end.
  ghost function Real(t: Table, birth: map<int, int>, fd: int): int
    requires Older(t, birth) && fd in t
    decreases birth[fd]
  {
    if t[fd].mode == DUPPED then Real(t, birth, t[fd].driveId) else fd
  }

  lemma {:induction false} RealIs(t: Table, birth: map<int, int>, fd: int)
    requires Older(t, birth) && fd in t
    ensures Real(t, birth, fd) in t && t[Real(t, birth, fd)].mode != DUPPED
    ensures if t[fd].mode == 100 then Real(t, birth, fd) == Real(t, birth, t[fd].driveId) else Real(t, birth, fd) == fd
    decreases birth[fd]
  {
    if t[fd].mode == DUPPED {
      RealIs(t, birth, t[fd].driveId);
    }
  }

  // The open file itself.
  ghost function FileOf(t: Table, birth: map<int, int>, fd: int): Descriptor
    requires Older(t, birth) && fd in t
  {
    RealIs(t, birth, fd);
    t[Real(t, birth, fd)]
  }

  // The table with one descriptor's count changed.
  function Bumped(t: Table, fd: int, change: int): Table
    requires fd in t
  {
    t[fd := t[fd].(refCount := t[fd].refCount + change)]
  }

  // The table without a descriptor, which no longer counts for the one it stood for.
  function Removed(t: Table, fd: int): Table
    requires fd in t
  {
    var t' := if t[fd].mode == DUPPED && t[fd].driveId in t then Bumped(t, t[fd].driveId, -1) else t;
    map d | d in t' && d != fd :: t'[d]
  }

  // What is left: all others, and the one it stood for counts one less.
  lemma RemovedIs(t: Table, fd: int)
    requires fd in t
    ensures Removed(t, fd).Keys == t.Keys - {fd}
    ensures forall x :: x in t && x != fd ==>
              Removed(t, fd)[x] ==
                t[x].(refCount := t[x].refCount - (if t[fd].mode == 100 && t[fd].driveId == x then 1 else 0))
  {
  }

  lemma RemovedDups(t: Table, fd: int, x: int)
    requires fd in t && x in t && x != fd && (t[fd].mode == DUPPED ==> t[fd].driveId in t)
    ensures Dups(Removed(t, fd), x) == Dups(t, x) - {fd}
    ensures Removed(t, fd)[x] == if Names(t, fd, x) then t[x].(refCount := t[x].refCount - 1) else t[x]
  {
  }

  // Removing a descriptor nobody stands for keeps the table sound.
  lemma RemovedSound(t: Table, birth: map<int, int>, fd: int)
    requires Sound(t, birth) && fd in t && t[fd].refCount <= 1
    ensures Sound(Removed(t, fd), birth) && forall d :: !Names(t, d, fd)
  {
    NobodyNames(t, fd);
    RemovedCounted(t, fd);
    RemovedOlder(t, birth, fd);
  }

  lemma RemovedCounted(t: Table, fd: int)
    requires Counted(t) && fd in t && (t[fd].mode == DUPPED ==> t[fd].driveId in t)
    ensures Counted(Removed(t, fd))
  {
    var t' := Removed(t, fd);
    forall x | x in t'
      ensures t'[x].refCount == 1 + |Dups(t', x)|
    {
      RemovedDups(t, fd, x);
      assert Names(t, fd, x) <==> fd in Dups(t, x);
    }
  }

  lemma RemovedOlder(t: Table, birth: map<int, int>, fd: int)
    requires Older(t, birth) && fd in t && forall d :: !Names(t, d, fd)
    ensures Older(Removed(t, fd), birth)
  {
    forall x | x in Removed(t, fd) && t[x].mode == DUPPED
      ensures t[x].driveId in Removed(t, fd)
    {
      assert !Names(t, x, fd);
    }
  }

  lemma NobodyNames(t: Table, fd: int)
    requires Counted(t) && fd in t && t[fd].refCount <= 1
    ensures forall d :: !Names(t, d, fd)
  {
    assert Dups(t, fd) == {};
    forall d
      ensures !Names(t, d, fd)
    {
      assert d !in Dups(t, fd);
    }
  }

  // Every other descriptor still stands for the same file.
  lemma {:induction false} RemovedReal(t: Table, birth: map<int, int>, fd: int, x: int)
    requires fd in t && Older(t, birth) && Older(Removed(t, fd), birth) && x in t && x != fd
    requires forall d :: !Names(t, d, fd)
    ensures Real(Removed(t, fd), birth, x) == Real(t, birth, x)
    decreases birth[x]
  {
    if t[x].mode == DUPPED {
      assert !Names(t, x, fd);
      RemovedReal(t, birth, fd, t[x].driveId);
    }
  }

  lemma AllRealStay(t: Table, birth: map<int, int>, fd: int)
    requires fd in t && Sound(t, birth) && Sound(Removed(t, fd), birth) && forall d :: !Names(t, d, fd)
    ensures forall x :: x in Removed(t, fd) ==> Real(Removed(t, fd), birth, x) == Real(t, birth, x)
  {
    forall x | x in Removed(t, fd)
      ensures Real(Removed(t, fd), birth, x) == Real(t, birth, x)
    {
      RemovedReal(t, birth, fd, x);
    }
  }

  // The table with a new descriptor, born after all others.
  lemma AddedSound(t: Table, birth: map<int, int>, fd: int, d: Descriptor, now: int)
    requires Sound(t, birth) && fd !in t && d.mode != DUPPED && d.refCount == 1 && 0 <= now
    ensures Sound(t[fd := d], birth[fd := now])
  {
    var t' := t[fd := d];
    forall x | x in t'
      ensures t'[x].refCount == 1 + |Dups(t', x)|
    {
      SameDups(t, t', fd, x);
      if x == fd {
        NobodyNamesAbsent(t, birth, fd);
      }
    }
  }

  lemma AddedSoundIff(t: Table, birth: map<int, int>, fd: int, d: Descriptor, now: int)
    requires Sound(t, birth) && fd !in t && d.refCount == 1 && 0 <= now
    ensures Sound(t[fd := d], birth[fd := now]) <==> d.mode != DUPPED
  {
    if d.mode != DUPPED {
      AddedSound(t, birth, fd, d, now);
    } else if d.driveId in t {
      var t', other := t[fd := d], d.driveId;
      assert Names(t', fd, other);
      forall x
        ensures x in t' && Names(t', x, other) <==> (x in t && Names(t, x, other)) || x == fd
      {
      }
      assert Dups(t', other) == Dups(t, other) + {fd} && fd !in Dups(t, other);
      assert other in t' && t'[other].refCount != 1 + |Dups(t', other)|;
    } else {
      assert fd in t[fd := d] && t[fd := d][fd].mode == DUPPED;
    }
  }

  lemma SameDups(t: Table, t': Table, fd: int, x: int)
    requires fd !in t && fd in t' && t' == t[fd := t'[fd]] && t'[fd].mode != DUPPED
    ensures Dups(t', x) == Dups(t, x)
  {
  }

  lemma NobodyNamesAbsent(t: Table, birth: map<int, int>, fd: int)
    requires Older(t, birth) && fd !in t
    ensures Dups(t, fd) == {}
  {
  }

  // The table with `fd` standing for `other`.
  function Dupped(t: Table, other: int, fd: int): Table
    requires other in t
  {
    Bumped(t, other, 1)[fd := Descriptor(DUPPED, other, 0, 0, 1)]
  }

  lemma DuppedDups(t: Table, other: int, fd: int, x: int)
    requires other in t && fd !in t
    ensures Dups(Dupped(t, other, fd), x) == if x == other then Dups(t, x) + {fd} else Dups(t, x)
  {
  }

  lemma DuppedSound(t: Table, birth: map<int, int>, other: int, fd: int, now: int)
    requires Sound(t, birth) && other in t && fd !in t && birth[other] < now
    ensures Sound(Dupped(t, other, fd), birth[fd := now])
  {
    NobodyNamesAbsent(t, birth, fd);
    DuppedCounted(t, other, fd);
    DuppedOlder(t, birth, other, fd, now);
  }

  lemma DuppedCounted(t: Table, other: int, fd: int)
    requires Counted(t) && other in t && fd !in t && Dups(t, fd) == {}
    ensures Counted(Dupped(t, other, fd))
  {
    var t' := Dupped(t, other, fd);
    forall x | x in t'
      ensures t'[x].refCount == 1 + |Dups(t', x)|
    {
      DuppedDups(t, other, fd, x);
      assert fd !in Dups(t, x);
    }
  }

  lemma DuppedOlder(t: Table, birth: map<int, int>, other: int, fd: int, now: int)
    requires Older(t, birth) && other in t && fd !in t && birth[other] < now
    ensures Older(Dupped(t, other, fd), birth[fd := now])
  {
  }

  // It now stands for the same file as the other; all others do as before.
  lemma {:induction false} DuppedReal(t: Table, birth: map<int, int>, other: int, fd: int, now: int, x: int)
    requires other in t && fd !in t && Older(t, birth) && Older(Dupped(t, other, fd), birth[fd := now]) && x in t
    ensures Real(Dupped(t, other, fd), birth[fd := now], x) == Real(t, birth, x)
    ensures x == other ==> Real(Dupped(t, other, fd), birth[fd := now], fd) == Real(t, birth, other)
    decreases birth[x]
  {
    if t[x].mode == DUPPED {
      DuppedReal(t, birth, other, fd, now, t[x].driveId);
    }
  }

  // What dup2 leaves, for any two descriptors: a descriptor that is marked free is not released,
  // and then the new entry does not replace it; one equal to the other is released first, and the
  // count of the released one is raised.
  function Dup2Result(t: Table, oldFD: int, newFD: int): Table
    requires oldFD in t && newFD in t
  {
    if t[newFD].driveId == PROC_FREE_FD then Bumped(t, oldFD, 1)
    else if oldFD == newFD then Removed(t, newFD)[newFD := Descriptor(DUPPED, oldFD, 0, 0, 1)]
    else Dupped(Removed(t, newFD), oldFD, newFD)
  }

  // Entry by entry: the new descriptor names the old one and has nothing else; every other keeps
  // its offset, size, mode and drive, and counts who stands for it.
  lemma Dup2Is(t: Table, oldFD: int, newFD: int)
    requires oldFD in t && newFD in t && !ReleasedBy(t, newFD, newFD)
    ensures Dup2Result(t, oldFD, newFD).Keys == t.Keys
    ensures t[newFD].driveId != 1100 ==> Dup2Result(t, oldFD, newFD)[newFD] == Descriptor(100, oldFD, 0, 0, 1)
    ensures forall x :: x in t && (x != newFD || t[newFD].driveId == 1100) ==>
              Dup2Result(t, oldFD, newFD)[x] ==
                t[x].(refCount := t[x].refCount + (if x == oldFD then 1 else 0)
                                  - (if ReleasedBy(t, newFD, x) then 1 else 0))
  {
  }

  // Replacing fd closes a descriptor that stands for x.
  predicate ReleasedBy(t: Table, fd: int, x: int)
    requires fd in t
  {
    t[fd].driveId != 1100 && t[fd].mode == 100 && t[fd].driveId == x
  }

  ghost predicate SoundSomehow(t: Table) {
    exists birth :: Sound(t, birth)
  }

  // dup2 keeps a table sound exactly if the two descriptors differ and the one to be replaced is
  // not marked free.
  lemma Dup2SoundIff(t: Table, birth: map<int, int>, oldFD: int, newFD: int)
    requires Sound(t, birth) && oldFD in t && newFD in t
    requires t[newFD].driveId != PROC_FREE_FD ==> t[newFD].refCount <= 1
    ensures SoundSomehow(Dup2Result(t, oldFD, newFD)) <==> oldFD != newFD && t[newFD].driveId != PROC_FREE_FD
  {
    var t' := Dup2Result(t, oldFD, newFD);
    if t[newFD].driveId == PROC_FREE_FD {
      BumpedDups(t, oldFD);
    } else if oldFD == newFD {
      assert Names(t', newFD, newFD);
    } else {
      RemovedSound(t, birth, newFD);
      DuppedSound(Removed(t, newFD), birth, oldFD, newFD, birth[oldFD] + 1);
    }
  }

  lemma NotSound(t: Table, birth: map<int, int>)
    requires !SoundSomehow(t)
    ensures !Sound(t, birth)
  {
  }

  // It happens: descriptor 1101 stands for descriptor 1100, and so carries that number as its
  // drive id; replaced by one that stands for 7, it stays, and 7 counts one descriptor too many.
  lemma DupOverMarkedFree() returns (t: Table, birth: map<int, int>)
    ensures Sound(t, birth) && 7 in t && 1101 in t && t[1101].refCount == 1
    ensures !SoundSomehow(Dup2Result(t, 7, 1101)) && Dup2Result(t, 7, 1101)[1101] == t[1101]
  {
    var born0: map<int, int> := map[];
    EmptySound(born0);
    var t1: Table, born1 := map[7 := Descriptor(0, 1, 0, 0, 1)], born0[7 := 0];
    AddedSound(map[], born0, 7, t1[7], 0);
    var t2, born2 := t1[1100 := Descriptor(0, 1, 0, 0, 1)], born1[1100 := 1];
    AddedSound(t1, born1, 1100, t2[1100], 1);
    t, birth := Dupped(t2, 1100, 1101), born2[1101 := 2];
    DuppedSound(t2, born2, 1100, 1101, 2);
    Dup2SoundIff(t, birth, 7, 1101);
  }

  lemma BumpedDups(t: Table, fd: int)
    requires fd in t && Counted(t)
    ensures !Counted(Bumped(t, fd, 1))
  {
    var t' := Bumped(t, fd, 1);
    forall d
      ensures d in t' && Names(t', d, fd) <==> d in t && Names(t, d, fd)
    {
    }
    assert Dups(t', fd) == Dups(t, fd);
  }

  lemma EmptySound(birth: map<int, int>)
    ensures Sound(map[], birth)
  {
  }

  lemma CountTells(t: Table, birth: map<int, int>, fd: int)
    requires Sound(t, birth) && fd in t
    ensures t[fd].refCount <= 1 <==> Dups(t, fd) == {}
    ensures t[fd].mode == DUPPED ==> t[fd].driveId in t && t[fd].driveId != fd
  {
  }

  datatype Outcome = Done | InvalidDescriptor | StillOpen | TooMany | InvalidOffset

  class FileDescriptorTable {
    var fdTable: Table
    var fdIdCounter: int
    // The mode of the standard descriptors.
    const readWrite: int
    // When each descriptor was opened.
    ghost var birth: map<int, int>
    ghost var now: int

    ghost predicate Valid()
      reads this
    {
      && readWrite != DUPPED && Sound(fdTable, birth) && 0 <= now && (forall fd :: fd in fdTable ==> birth[fd] < now)
      && 0 <= fdIdCounter && forall fd :: fd in fdTable ==> 0 <= fd < fdIdCounter
    }

    constructor (readWrite: int)
      requires readWrite != DUPPED
      ensures Valid() && fdTable.Keys == {0, 1, 2}
      ensures forall k :: 0 <= k < 3 ==> fdTable[k] == Descriptor(readWrite, PROC_STDIN + k, 0, 0, 1)
    {
      this.readWrite := readWrite;
      fdTable, birth, fdIdCounter, now := map[], map[], 0, 0;
      new;
      hide Sound;
      EmptySound(birth);
      var stdin, fd0 := Allocate(readWrite, false, PROC_STDIN, 0);
      var stdout, fd1 := Allocate(readWrite, false, PROC_STDIN + 1, 0);
      var stderr, fd2 := Allocate(readWrite, false, PROC_STDIN + 2, 0);
    }

    // Opens a file under a number not used before. The table stays sound unless the mode is the
    // one that marks descriptors standing for others.
    method Allocate(mode: int, append: bool, driveId: int, fileSize: int) returns (r: Outcome, fd: int)
      requires Valid()
      modifies this
      ensures r == if |old(fdTable)| >= PROC_SYS_MAX_OPEN_FILES then TooMany else Done
      ensures Valid() <==> (r.TooMany? || mode != DUPPED)
      ensures r.TooMany? ==> fdTable == old(fdTable) && fdIdCounter == old(fdIdCounter)
      ensures r.Done? ==> fd == old(fdIdCounter) && fd !in old(fdTable) && fdIdCounter == fd + 1
      ensures r.Done? ==>
                fdTable == old(fdTable)[fd := Descriptor(mode, driveId, fileSize, if append then fileSize else 0, 1)]
    {
      if |fdTable| >= PROC_SYS_MAX_OPEN_FILES {
        return TooMany, 0;
      }
      fd := fdIdCounter;
      var d := Descriptor(mode, driveId, fileSize, if append then fileSize else 0, 1);
      AddedSoundIff(fdTable, birth, fd, d, now);
      fdIdCounter := fdIdCounter + 1;
      fdTable, birth, now := fdTable[fd := d], birth[fd := now], now + 1;
      r := Done;
    }

    // The descriptor that holds the file a descriptor stands for; the search ends.
    method GetRealNonDupped(fd: int) returns (r: Option<int>)
      requires Valid()
      ensures r == if fd in fdTable then Some(Real(fdTable, birth, fd)) else None
      decreases if fd in birth then birth[fd] else 0
    {
      if fd !in fdTable {
        return None;
      }
      if fdTable[fd].mode != DUPPED {
        return Some(fd);
      }
      r := GetRealNonDupped(fdTable[fd].driveId);
    }

    // Closes a descriptor, unless others stand for it. All others stand for what they did.
    method Free(fd: int) returns (r: Outcome)
      requires Valid()
      modifies this`fdTable
      ensures Valid()
      ensures r == if fd !in old(fdTable) then InvalidDescriptor else if Dups(old(fdTable), fd) == {} then Done
              else StillOpen
      ensures fdTable == if r.Done? then Removed(old(fdTable), fd) else old(fdTable)
      ensures r.Done? ==> forall x :: x in fdTable ==> Real(fdTable, birth, x) == Real(old(fdTable), birth, x)
      ensures r.Done? ==> fdTable.Keys == old(fdTable).Keys - {fd}
      ensures r.Done? ==> forall x :: x in fdTable ==>
                fdTable[x] == if old(fdTable)[fd].mode == 100 && old(fdTable)[fd].driveId == x
                              then old(fdTable)[x].(refCount := old(fdTable)[x].refCount - 1) else old(fdTable)[x]
    {
      hide Sound, Counted, Dups, Older, Real, Names;
      if fd !in fdTable {
        return InvalidDescriptor;
      }
      CountTells(fdTable, birth, fd);
      if fdTable[fd].refCount > 1 {
        return StillOpen;
      }
      ghost var t := fdTable;
      RemovedSound(t, birth, fd);
      if fdTable[fd].mode == DUPPED {
        var origin := fdTable[fd].driveId;
        fdTable := fdTable[origin := fdTable[origin].(refCount := fdTable[origin].refCount - 1)];
      }
      fdTable := map d | d in fdTable && d != fd :: fdTable[d];
      AllRealStay(t, birth, fd);
      r := Done;
    }

    // Makes newFD stand for what oldFD stands for; whatever newFD stood for is closed first. All
    // others stand for what they did. The table stays sound unless the two are the same or newFD
    // carries the drive id of a free entry.
    method Dup2(oldFD: int, newFD: int) returns (r: Outcome)
      requires Valid()
      modifies this
      ensures r == if oldFD !in old(fdTable) || newFD !in old(fdTable) then InvalidDescriptor
                   else if old(fdTable)[newFD].driveId == PROC_FREE_FD || Dups(old(fdTable), newFD) == {} then Done
                   else StillOpen
      ensures fdTable == if r.Done? then Dup2Result(old(fdTable), oldFD, newFD) else old(fdTable)
      ensures Valid() <==> (r.Done? ==> oldFD != newFD && old(fdTable)[newFD].driveId != PROC_FREE_FD)
      ensures r.Done? && Valid() ==> Real(fdTable, birth, newFD) == Real(fdTable, birth, oldFD)
      ensures r.Done? && Valid() ==> forall x :: x in fdTable && x != newFD ==>
                Real(fdTable, birth, x) == Real(old(fdTable), old(birth), x)
      ensures r.Done? ==> fdTable.Keys == old(fdTable).Keys
      ensures r.Done? && old(fdTable)[newFD].driveId != 1100 ==> fdTable[newFD] == Descriptor(100, oldFD, 0, 0, 1)
      ensures r.Done? ==> forall x :: x in fdTable && (x != newFD || old(fdTable)[newFD].driveId == 1100) ==>
                fdTable[x] == old(fdTable)[x].(refCount := old(fdTable)[x].refCount + (if x == oldFD then 1 else 0)
                                                 - (if ReleasedBy(old(fdTable), newFD, x) then 1 else 0))
    {
      hide Sound, Counted, Dups, Older, Real, Names, SoundSomehow;
      if oldFD !in fdTable || newFD !in fdTable {
        return InvalidDescriptor;
      }
      ghost var t0, birth0 := fdTable, birth;
      CountTells(fdTable, birth, newFD);
      Dup2Is(fdTable, oldFD, newFD);
      if fdTable[newFD].driveId != PROC_FREE_FD {
        r := Free(newFD);
        if !r.Done? {
          return;
        }
      }
      ghost var t := fdTable;
      ghost var sound := oldFD != newFD && newFD !in t;
      if sound {
        DuppedSound(t, birth, oldFD, newFD, now);
        AllRealDupped(t, birth, oldFD, newFD, now);
      }
      if oldFD in fdTable {
        fdTable := fdTable[oldFD := fdTable[oldFD].(refCount := fdTable[oldFD].refCount + 1)];
      }
      if newFD !in fdTable {
        fdTable := fdTable[newFD := Descriptor(DUPPED, oldFD, 0, 0, 1)];
      }
      birth, now := birth[newFD := now], now + 1;
      Dup2SoundIff(t0, birth0, oldFD, newFD);
      if !sound {
        NotSound(fdTable, birth);
      }
      r := Done;
    }

    // Gives a standard descriptor back its device.
    method InitStdFile(stdFD: int) returns (r: Outcome)
      requires Valid()
      modifies this
      ensures Valid()
      ensures r == if !(0 <= stdFD < 3) || stdFD !in old(fdTable) then InvalidDescriptor
                   else if Dups(old(fdTable), stdFD) == {} then Done else StillOpen
      ensures fdTable == if !r.Done? then old(fdTable)
                         else Removed(old(fdTable), stdFD)[stdFD := Descriptor(readWrite, stdFD + PROC_STDIN, 0, 0, 1)]
      ensures r.Done? ==> fdTable.Keys == old(fdTable).Keys
                          && fdTable[stdFD] == Descriptor(readWrite, 1101 + stdFD, 0, 0, 1)
      ensures r.Done? ==> forall x :: x in fdTable && x != stdFD ==>
                fdTable[x] == if old(fdTable)[stdFD].mode == 100 && old(fdTable)[stdFD].driveId == x
                              then old(fdTable)[x].(refCount := old(fdTable)[x].refCount - 1) else old(fdTable)[x]
    {
      hide Sound, Counted, Dups, Older, Real, Names;
      if !(0 <= stdFD < 3) {
        return InvalidDescriptor;
      }
      r := Free(stdFD);
      if !r.Done? {
        return;
      }
      var d := Descriptor(readWrite, stdFD + PROC_STDIN, 0, 0, 1);
      AddedSound(fdTable, birth, stdFD, d, now);
      fdTable := fdTable[stdFD := d];
      birth, now := birth[stdFD := now], now + 1;
    }

    // A new offset, counted from where the seek type says, of the file a descriptor stands for.
    method UpdateOffset(fd: int, whence: Whence, offset: int) returns (r: Outcome)
      requires Valid()
      modifies this`fdTable
      ensures Valid()
      ensures fd !in old(fdTable) ==> r == InvalidDescriptor && fdTable == old(fdTable)
      ensures fd in old(fdTable) ==>
                var f := Real(old(fdTable), birth, fd);
                var file := FileOf(old(fdTable), birth, fd);
                var target := SeekTarget(file, whence, offset);
                && r == (if target >= 0 then Done else InvalidOffset)
                && fdTable == if r.Done? then old(fdTable)[f := file.(offset := target)] else old(fdTable)
      ensures fd in old(fdTable) ==>
                var f := Real(old(fdTable), birth, fd);
                var file := FileOf(old(fdTable), birth, fd);
                && (r.Done? || r.InvalidOffset?)
                && (r.Done? ==> fdTable == old(fdTable)[f := file.(offset := fdTable[f].offset)]
                                && fdTable[f].offset >= 0)
                && (whence.Set? ==> r == (if offset >= 0 then Done else InvalidOffset))
                && (whence.Current? ==>
                      (r.Done? <==> (file.offset + offset) % 0x1_0000_0000 < 0x8000_0000))
                && (whence.End? ==>
                      (r.Done? <==> (file.fileSize + offset) % 0x1_0000_0000 < 0x8000_0000))
                && (r.Done? ==> fdTable[f].offset ==
                                  if whence.Set? then offset
                                  else if whence.Current? then (file.offset + offset) % 0x1_0000_0000
                                  else (file.fileSize + offset) % 0x1_0000_0000)
    {
      hide Counted, SeekTarget;
      var found := GetRealNonDupped(fd);
      if found.None? {
        return InvalidDescriptor;
      }
      RealIs(fdTable, birth, fd);
      SeekLaw(fdTable[found.value], whence, offset);
      var f := found.value;
      var target := SeekTarget(fdTable[f], whence, offset);
      if target < 0 {
        return InvalidOffset;
      }
      MovedSound(fdTable, birth, f, target);
      fdTable := fdTable[f := fdTable[f].(offset := target)];
      r := Done;
    }

    // The offset all descriptors of one file share.
    method GetOffset(fd: int) returns (r: Option<int>)
      requires Valid()
      ensures r == if fd in fdTable then Some(FileOf(fdTable, birth, fd).offset) else None
    {
      var found := GetRealNonDupped(fd);
      if fd in fdTable {
        RealIs(fdTable, birth, fd);
      }
      r := if found.Some? then Some(fdTable[found.value].offset) else None;
    }
  }

  datatype Whence = Set | Current | End

  function SeekTarget(d: Descriptor, whence: Whence, offset: int): int {
    match whence
    case Set => offset
    case Current => Signed(offset + d.offset)
    case End => Signed(offset + d.fileSize)
  }

  lemma SeekLaw(d: Descriptor, whence: Whence, offset: int)
    ensures var target := SeekTarget(d, whence, offset);
            match whence
            case Set => target == offset
            case Current => if (d.offset + offset) % 0x1_0000_0000 < 0x8000_0000
                            then target == (d.offset + offset) % 0x1_0000_0000 else target < 0
            case End => if (d.fileSize + offset) % 0x1_0000_0000 < 0x8000_0000
                        then target == (d.fileSize + offset) % 0x1_0000_0000 else target < 0
  {
  }

  // A sum as a signed word of 32 bits.
  function Signed(sum: int): int {
    var word := sum % 0x1_0000_0000;
    if word < 0x8000_0000 then word else word - 0x1_0000_0000
  }

  lemma MovedSound(t: Table, birth: map<int, int>, fd: int, target: int)
    requires Sound(t, birth) && fd in t
    ensures Sound(t[fd := t[fd].(offset := target)], birth)
  {
    var t' := t[fd := t[fd].(offset := target)];
    forall x | x in t'
      ensures Dups(t', x) == Dups(t, x)
    {
      forall d
        ensures d in t' && Names(t', d, x) <==> d in t && Names(t, d, x)
      {
      }
    }
  }

  lemma AllRealDupped(t: Table, birth: map<int, int>, other: int, fd: int, now: int)
    requires other in t && fd !in t && Sound(t, birth) && Sound(Dupped(t, other, fd), birth[fd := now])
    ensures forall x :: x in t ==> Real(Dupped(t, other, fd), birth[fd := now], x) == Real(t, birth, x)
    ensures Real(Dupped(t, other, fd), birth[fd := now], fd) == Real(Dupped(t, other, fd), birth[fd := now], other)
  {
    forall x | x in t
      ensures Real(Dupped(t, other, fd), birth[fd := now], x) == Real(t, birth, x)
    {
      DuppedReal(t, birth, other, fd, now, x);
    }
    DuppedReal(t, birth, other, fd, now, other);
  }
}
