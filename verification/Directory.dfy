// Reading, writing and deleting files over their sector chains (filesystem/Directory.cpp).
module Directories {
  import opened Wrappers
  import opened Sectors
  import DiskDrives
  import FreeSectors
  import opened Volumes
  import opened FileSystems
  import opened Chains
  import opened FileImages

  const MAX_SECTORS_PER_RW := 8

  ghost predicate AllBufferedIn(buffer: WriteBuffer<Sector>, ids: set<int>) {
    forall id :: buffer.start <= id < buffer.start + |buffer.sectors| ==> id in ids
  }

  // Writes what was gathered, if anything.
  method FlushBuffer(fs: FileSystem, buffer: WriteBuffer<Sector>, ghost ids: set<int>) returns (ok: bool)
    requires fs.Valid() && Gathers(buffer, |fs.Contents().data|) && AllBufferedIn(buffer, ids)
    modifies fs.drive
    ensures ok ==>
              fs.Valid() && fs.Contents() == old(fs.Contents()).(data := old(Pending(fs.Contents().data, buffer)))
    ensures !ok ==> DiskDrives.WriteEvictsInside(old(fs.drive.State()), fs.DataBase() + buffer.start, |buffer.sectors|)
    ensures old(fs.Apart(ids)) ==> ok
    ensures forall s :: s in fs.drive.releaseList ==> s in old(fs.drive.releaseList)
  {
    hide FileSystem.Valid, FileSystem.Apart, Pending, DiskDrives.WriteEvictsInside, DiskDrives.EvictsInside, Stored;
    ok := true;
    if |buffer.sectors| == 0 {
      PendingEmpty(fs.Contents().data, buffer);
    } else {
      PendingFull(fs.Contents().data, buffer);
      if fs.Apart(ids) {
        fs.ApartSafe(ids, buffer.start, |buffer.sectors|);
      }
      ok := fs.xWrite(buffer.start, buffer.sectors);
    }
  }

  // Gathers sectors with consecutive ids and writes them in one transfer, at most eight.
  method BufferedWrite(fs: FileSystem, sectorId: int, sector: Sector, buffer: WriteBuffer<Sector>,
                       ghost ids: set<int>)
    returns (ok: bool, r: WriteBuffer<Sector>)
    requires fs.Valid() && 0 <= sectorId < |fs.Contents().data|
    requires Gathers(buffer, |fs.Contents().data|) && |buffer.sectors| < MAX_SECTORS_PER_RW
    requires sectorId in ids && AllBufferedIn(buffer, ids)
    modifies fs.drive
    ensures ok ==>
              && fs.Valid() && fs.Contents() == old(fs.Contents()).(data := fs.Contents().data)
              && |fs.Contents().data| == |old(fs.Contents().data)|
              && Gathers(r, |fs.Contents().data|) && |r.sectors| < MAX_SECTORS_PER_RW && AllBufferedIn(r, ids)
              && Pending(fs.Contents().data, r) == old(Pending(fs.Contents().data, buffer))[sectorId := sector]
    ensures old(fs.Apart(ids)) ==> ok
    ensures forall s :: s in fs.drive.releaseList ==> s in old(fs.drive.releaseList)
    ensures forall id :: Buffered(r, id) && r.sectors != [] ==> id == sectorId || Buffered(buffer, id)
  {
    hide Pending, FileSystem.Valid, FileSystem.Apart, DiskDrives.WriteEvictsInside;
    ghost var data := fs.Contents().data;
    var newBuffering := false;
    ok, r := true, buffer;
    if |r.sectors| == 0 {
      PendingStarted(data, sectorId, sector);
      PendingEmpty(data, buffer);
      r := WriteBuffer([sector], sectorId, sectorId);
    } else if r.prev + 1 == sectorId {
      PendingGathered(data, buffer, sector);
      r := WriteBuffer(r.sectors + [sector], r.start, sectorId);
    } else {
      newBuffering := true;
    }
    if |r.sectors| == MAX_SECTORS_PER_RW || newBuffering {
      ok := FlushBuffer(fs, r, ids);
      r := WriteBuffer([], r.start, r.prev);
      if !ok {
        return;
      }
      PendingEmpty(fs.Contents().data, r);
      if newBuffering {
        PendingStarted(fs.Contents().data, sectorId, sector);
        r := WriteBuffer([sector], sectorId, sectorId);
      }
    }
  }

  // What a descriptor remembers: the sector at an index of the chain, or the end of an empty one.
  ghost predicate HintOk(index: int, sector: int, chain: seq<int>) {
    index < 0 || (index < |chain| && sector == chain[index]) || (index == 0 && chain == [] && sector == EOC)
  }

  class FileDescriptor {
    var offset: int
    var lastReadSectorIndex: int
    var lastReadSectorNo: int

    constructor (startSectorID: int)
      ensures offset == 0 && lastReadSectorIndex == 0 && lastReadSectorNo == startSectorID
    {
      offset, lastReadSectorIndex, lastReadSectorNo := 0, 0, startSectorID;
    }
  }

  function SectorsFor(size: int): int {
    (size + SECTOR_SIZE - 1) / SECTOR_SIZE
  }

  // As many sectors as hold the bytes, and not one more.
  lemma SectorsForIs(size: int)
    requires 0 <= size
    ensures size <= SECTOR_SIZE * SectorsFor(size) < size + SECTOR_SIZE
  {
  }

  // A file: its chain has the sectors its size needs, and no more.
  ghost predicate FileOk(v: Volume, start: int, size: int, chain: seq<int>) {
    v.Sound() && IsChain(v.table, chain) && start == StartOf(chain) && 0 <= size && |chain| == SectorsFor(size)
  }

  // A file that began in volume v0 with chain0 has reached `chain`, its sectors reading `image`
  // in `data`; no other sector has changed.
  ghost predicate Reached(v0: Volume, chain0: seq<int>, v: Volume, data: seq<Sector>, chain: seq<int>,
          image: seq<Sector>) {
    |v0.data| == |v0.table| && Grown(v0, chain0, v, chain) && Shows(v0.data, data, chain, image)
  }

  lemma ReachedFacts(v0: Volume, chain0: seq<int>, v: Volume, data: seq<Sector>, chain: seq<int>, image: seq<Sector>)
    requires Reached(v0, chain0, v, data, chain, image)
    ensures v.Sound() && IsChain(v.table, chain) && |image| == |chain| && |v.table| == |v0.table| == |data| == |v.data|
    ensures 0 <= |chain| - |chain0| && v.used == v0.used + |chain| - |chain0|
    ensures |chain| - |chain0| <= |v0.pool| ==> |v.pool| == |v0.pool| - (|chain| - |chain0|)
    ensures forall i :: 0 <= i < |chain| ==> 0 < chain[i] < |v.table| && data[chain[i]] == image[i]
  {
  }

  // One more sector, as the file's last, after a refill of the pool if that was empty.
  lemma ReachedOneMore(v0: Volume, chain0: seq<int>, v: Volume, data: seq<Sector>, chain: seq<int>, image: seq<Sector>,
                       pool: seq<int>)
    requires Reached(v0, chain0, v, data, chain, image) && pool != [] && (v.pool != [] ==> pool == v.pool)
    requires v.(pool := pool).Sound()
    ensures 0 <= pool[0] < |data| && (chain != [] ==> 0 <= chain[|chain| - 1] < |v.table|) && 0 <= pool[0] < |v.table|
    ensures Reached(v0, chain0, Extended(v.(pool := pool), chain), data, chain + [pool[0]], image + [data[pool[0]]])
    ensures Extended(v.(pool := pool), chain).data == v.data
  {
    hide Volume.Sound, IsChain;
    GrownByOne(v0, chain0, v, chain, pool);
    ShowsLonger(v0.data, data, chain, image, pool[0]);
  }

  lemma ReachedWrite(v0: Volume, chain0: seq<int>, v: Volume, data: seq<Sector>, chain: seq<int>,
          image: seq<Sector>, i: int, x: Sector)
    requires Reached(v0, chain0, v, data, chain, image) && 0 <= i < |chain|
    ensures 0 <= chain[i] < |data|
    ensures Reached(v0, chain0, v, data[chain[i] := x], chain, image[i := x])
  {
    ShowsUpdated(v0.data, data, chain, image, i, x);
  }

  // Neither the data nor the pool's order matters to the chain.
  lemma ReachedOtherData(v0: Volume, chain0: seq<int>, v: Volume, v': Volume, data: seq<Sector>, chain: seq<int>,
          image: seq<Sector>)
    requires Reached(v0, chain0, v, data, chain, image)
    requires v' == v.(data := v'.data) && |v'.data| == |v.data|
    ensures Reached(v0, chain0, v', data, chain, image)
  {
  }

  lemma ChainStep(v: Volume, chain: seq<int>, i: int)
    requires v.Sound() && IsChain(v.table, chain) && 0 <= i < |chain|
    ensures 0 < chain[i] < |v.table| < EOC && v.Entry(chain[i]) == NextInChain(chain, i)
  {
  }

  lemma SectorAt(v: Volume, chain: seq<int>, i: int)
    requires v.Sound() && IsChain(v.table, chain) && 0 <= i <= |chain|
    ensures |v.table| < EOC && (i < |chain| ==> 0 < chain[i] < |v.table|)
  {
  }

  // Follows the chain from the remembered sector, or from the start, up to a sector index.
  method FindWriteSector(fs: FileSystem, fd: FileDescriptor, start: int, target: int, ghost chain: seq<int>)
    returns (index: int, current: int, prev: int)
    requires fs.Valid() && fs.Contents().Sound() && IsChain(fs.Contents().table, chain) && start == StartOf(chain)
    requires 0 <= target && HintOk(fd.lastReadSectorIndex, fd.lastReadSectorNo, chain)
    modifies fs`tableCache, fs.drive
    ensures fs.Valid() && fs.Contents() == old(fs.Contents())
    ensures old(fs.WholeTableCached()) ==> fs.WholeTableCached()
    ensures forall s :: s in fs.drive.releaseList ==> s in old(fs.drive.releaseList)
    ensures if target < |chain| then index == target && current == chain[target]
            else index == |chain| && current == EOC && (chain != [] ==> prev == chain[|chain| - 1])
  {
    hide FileSystem.Valid, Volume.Sound, IsChain, FileSystem.WholeTableCached;
    ghost var v := fs.Contents();
    prev := EOC;
    index, current := fd.lastReadSectorIndex, fd.lastReadSectorNo;
    if index < 0 || index > target {
      index, current := 0, start;
    }
    while index < target && current != EOC
      invariant fs.Valid() && fs.Contents() == old(fs.Contents())
      invariant old(fs.WholeTableCached()) ==> fs.WholeTableCached()
      invariant forall s :: s in fs.drive.releaseList ==> s in old(fs.drive.releaseList)
      invariant 0 <= index <= |chain| && index <= target
      invariant current == if index < |chain| then chain[index] else EOC
      invariant index == |chain| && chain != [] ==> prev == chain[|chain| - 1]
      decreases |chain| - index
    {
      SectorAt(v, chain, index);
      ChainStep(v, chain, index);
      var r := fs.GetSectorEntryValue(current);
      index := index + 1;
      prev := current;
      current := r.entry;
    }
    SectorAt(v, chain, index);
  }

  // How a step of a write ends: the write goes on, there is no free sector, or the step followed an
  // evicted entry or came to a refill that is wrong.
  datatype Progress = Going | Full | Lost

  // How many sectors a write needs in all and the release list it began with; whether the whole
  // table was cached then, no sector that it may have was up for eviction, and the pool held as
  // many as it needs.
  datatype Plan = Plan(count: int, list: seq<int>, whole: bool, apart: bool, pooled: bool)
  {
    // Nothing can go wrong.
    predicate Certain() { apart && (pooled || whole) }
  }

  // While a file grows from chain0 in volume v0 to `chain`, what was so at the beginning still is,
  // of the sectors still to be taken.
  ghost predicate Prepared(fs: FileSystem, v0: Volume, chain0: seq<int>, chain: seq<int>, plan: Plan)
    reads fs, fs.drive
  {
    && 0 < fs.poolCapacity
    && (forall s :: s in fs.drive.releaseList ==> s in plan.list)
    && (|chain| == |chain0| || |chain| - |chain0| <= plan.count)
    && (plan.whole ==> fs.WholeTableCached())
    && (plan.apart ==> fs.Apart(Claimed(v0, chain0, plan.count)))
    && (plan.pooled ==> plan.count - (|chain| - |chain0|) <= |fs.freePool|)
  }

  // No entry is free.
  ghost predicate NoneLeft(v: Volume) {
    v.used == |v.table|
  }

  // Allocates a sector and makes it the chain's last; the start changes only for an empty chain.
  method AllocateAndLink(fs: FileSystem, start: int, prev: int, ghost chain: seq<int>)
    returns (r: Progress, id: int, start': int)
    requires fs.Valid() && fs.Contents().Sound() && 0 < fs.poolCapacity
    requires IsChain(fs.Contents().table, chain) && start == StartOf(chain)
    requires chain != [] ==> prev == chain[|chain| - 1]
    modifies fs, fs.drive
    ensures fs.Valid() && (old(fs.freePool) != [] ==> r == Going)
    ensures r == Lost <==> old(fs.freePool == [] && !fs.RefillReady())
    ensures r == Full ==> fs.Contents() == old(fs.Contents()) && NoneLeft(fs.Contents()) && start' == start
    ensures r == Going ==>
              var v := old(fs.Contents()).(pool := [id] + fs.freePool);
              && v.Sound() && start' == StartOf(chain + [id]) && 0 <= id < |v.table|
              && (old(fs.freePool) != [] ==> [id] + fs.freePool == old(fs.freePool))
              && (chain != [] ==> 0 <= chain[|chain| - 1] < |v.table|) && fs.Contents() == Extended(v, chain)
    ensures old(fs.WholeTableCached()) ==> fs.WholeTableCached()
    ensures forall s :: s in fs.drive.releaseList ==> s in old(fs.drive.releaseList)
  {
    hide FileSystem.Valid, Volume.Sound, IsChain, Volume.Set, FileSystem.WholeTableCached;
    hide FileSystem.ScanReadsFault, FileSystem.WindowsAreClear;
    ghost var v := fs.Contents();
    SectorAt(v, chain, 0);
    SectorAt(v, chain, if chain == [] then 0 else |chain| - 1);
    id, start', r := EOC, start, Going;
    var sector := fs.AllocateSector();
    match sector {
      case Misled =>
        r := Lost;
      case Faulted =>
        r := Lost;
      case NoneFree =>
        AllEntriesUsed(v);
        r := Full;
      case Given(given) =>
        id := given;
        AllocatedPool(v);
        if start == EOC {
          start' := id;
        } else {
          SetKeepsPool(fs.Contents(), prev, id);
          var _ := fs.SetSectorEntryValue(prev, id);
        }
    }
  }

  lemma AllocatedPool(v: Volume)
    ensures v.pool != [] && 0 <= v.pool[0] < |v.table| ==> [v.pool[0]] + Allocated(v).pool == v.pool
  {
  }

  lemma SetKeepsPool(v: Volume, id: int, value: int)
    requires 0 <= id < |v.table|
    ensures v.Set(id, value).pool == v.pool && |v.Set(id, value).table| == |v.table|
  {
  }

  lemma AllEntriesUsed(v: Volume)
    requires v.Sound() && forall id :: 0 <= id < |v.table| ==> v.Entry(id) != 0
    ensures NoneLeft(v)
  {
    hide InUse;
    InUseAtMost(v.table);
    assert forall id :: 0 <= id < |v.table| ==> v.Entry(id) == Low28(v.table[id]);
  }

  function Zeroed(n: int): (r: seq<Sector>)
    requires 0 <= n
    ensures |r| == n
  {
    seq(n, _ => ZERO_SECTOR)
  }

  // Storing one sector of the file on the disk.
  lemma ReachedStore(v0: Volume, chain0: seq<int>, v: Volume, chain: seq<int>, image: seq<Sector>, i: int, x: Sector)
    requires Reached(v0, chain0, v, v.data, chain, image) && 0 <= i < |chain|
    ensures 0 <= chain[i] < |v.data| && |image| == |chain|
    ensures Reached(v0, chain0, v.(data := Stored(v.data, chain[i], [x])), Stored(v.data, chain[i], [x]), chain,
              image[i := x])
  {
    ReachedWrite(v0, chain0, v, v.data, chain, image, i, x);
    assert Stored(v.data, chain[i], [x]) == v.data[chain[i] := x] by {
      StoredAt(v.data, chain[i], [x]);
    }
    ReachedOtherData(v0, chain0, v, v.(data := v.data[chain[i] := x]), v.data[chain[i] := x], chain, image[i := x]);
  }

  // A chain that ends before the wanted sector is continued with zeroed sectors up to it, as far
  // as there are free ones.
  method AllocateGap(fs: FileSystem, fd: FileDescriptor, start: int, index: int, prev: int, target: int,
                     ghost v0: Volume, ghost chain0: seq<int>, ghost image0: seq<Sector>, ghost plan: Plan)
    returns (r: Progress, current: int, start': int, ghost chain: seq<int>)
    requires fs.Valid() && Reached(v0, chain0, fs.Contents(), fs.Contents().data, chain0, image0)
    requires start == StartOf(chain0) && (chain0 != [] ==> prev == chain0[|chain0| - 1])
    requires index == |chain0| <= target && target + 1 - |chain0| <= plan.count
             && Prepared(fs, v0, chain0, chain0, plan)
    modifies fs, fs.drive, fd`lastReadSectorIndex, fd`lastReadSectorNo
    ensures r == Lost ==> !plan.Certain()
    ensures r != Lost ==>
              && fs.Valid() && |chain0| <= |chain| <= target + 1 && start' == StartOf(chain)
              && Reached(v0, chain0, fs.Contents(), fs.Contents().data, chain, image0 + Zeroed(|chain| - |chain0|))
              && Prepared(fs, v0, chain0, chain, plan)
    ensures r == Going ==> |chain| == target + 1 && current == chain[target]
    ensures r == Full ==> |chain| <= target && NoneLeft(fs.Contents())
    ensures r != Lost ==>
              if |chain| > |chain0| then
                fd.lastReadSectorIndex == |chain| - 1 && fd.lastReadSectorNo == chain[|chain| - 1]
              else chain == chain0 && unchanged(fd)
  {
    hide FileSystem.Valid, Volume.Sound, IsChain, Reached, Extended, FileSystem.RefillReady,
         FileSystem.WholeTableCached;
    hide FileSystem.Apart;
    var i, last := index, prev;
    chain, start', current, r := chain0, start, EOC, Going;
    ghost var image := image0;
    while i <= target
      invariant r == Going && fs.Valid() && |chain0| <= i == |chain| <= target + 1 && start' == StartOf(chain)
      invariant chain != [] ==> last == chain[|chain| - 1]
      invariant Reached(v0, chain0, fs.Contents(), fs.Contents().data, chain, image)
      invariant image == image0 + Zeroed(i - |chain0|) && Prepared(fs, v0, chain0, chain, plan)
      invariant i > |chain0| ==> fd.lastReadSectorIndex == i - 1 && fd.lastReadSectorNo == current == chain[i - 1]
      invariant i == |chain0| ==> chain == chain0 && unchanged(fd)
    {
      r, current, start', chain, image := GapSector(fs, start', last, v0, chain0, chain, image, plan);
      if r != Going {
        return;
      }
      assert image0 + Zeroed(i + 1 - |chain0|) == image0 + Zeroed(i - |chain0|) + [ZERO_SECTOR];
      last := current;
      fd.lastReadSectorIndex, fd.lastReadSectorNo := i, current;
      i := i + 1;
    }
  }

  // One zeroed sector behind the chain.
  method GapSector(fs: FileSystem, start: int, prev: int, ghost v0: Volume, ghost chain0: seq<int>,
                   ghost chain: seq<int>, ghost image: seq<Sector>, ghost plan: Plan)
    returns (r: Progress, current: int, start': int, ghost chain': seq<int>, ghost image': seq<Sector>)
    requires fs.Valid() && Reached(v0, chain0, fs.Contents(), fs.Contents().data, chain, image)
    requires start == StartOf(chain) && (chain != [] ==> prev == chain[|chain| - 1])
    requires Prepared(fs, v0, chain0, chain, plan) && |chain| - |chain0| < plan.count
    modifies fs, fs.drive
    ensures r == Lost ==> !plan.Certain()
    ensures r != Lost ==>
              && fs.Valid() && Reached(v0, chain0, fs.Contents(), fs.Contents().data, chain', image')
              && Prepared(fs, v0, chain0, chain', plan) && start' == StartOf(chain')
    ensures r == Going ==> chain' == chain + [current] && image' == image + [ZERO_SECTOR]
    ensures r == Full ==> chain' == chain && image' == image && NoneLeft(fs.Contents())
  {
    hide FileSystem.Valid, Volume.Sound, IsChain, Reached, Extended, Prepared;
    ghost var v := fs.Contents();
    chain', image' := chain, image;
    r, current, start' := TakeSector(fs, start, prev, v0, chain0, chain, v.data, image, plan);
    if r == Going {
      chain', image' := chain + [current], image + [v.data[current]];
      ReachedFacts(v0, chain0, fs.Contents(), v.data, chain', image');
      StoreSector(fs, current, ZERO_SECTOR, v0, chain0, chain', image', |chain|, plan);
      assert image'[|chain| := ZERO_SECTOR] == image + [ZERO_SECTOR];
      image' := image + [ZERO_SECTOR];
    }
  }

  // One sector of the file goes straight to the disk.
  method StoreSector(fs: FileSystem, id: int, sector: Sector, ghost v0: Volume, ghost chain0: seq<int>,
                     ghost chain: seq<int>, ghost image: seq<Sector>, ghost i: int, ghost plan: Plan)
    requires fs.Valid() && Reached(v0, chain0, fs.Contents(), fs.Contents().data, chain, image)
    requires Prepared(fs, v0, chain0, chain, plan) && 0 <= i < |chain| && id == chain[i] && |image| == |chain|
    modifies fs.drive
    ensures fs.Valid() && Reached(v0, chain0, fs.Contents(), fs.Contents().data, chain, image[i := sector])
    ensures Prepared(fs, v0, chain0, chain, plan)
  {
    hide FileSystem.Valid, Reached, Claimed, Stored, FileSystem.WholeTableCached;
    ReachedStore(v0, chain0, fs.Contents(), chain, image, i, sector);
    fs.OneSectorSafe(id);
    var _ := fs.xWrite(id, [sector]);
  }

  // One more sector of the file, if there is a free one; `data` is what the sectors will hold.
  method TakeSector(fs: FileSystem, start: int, prev: int, ghost v0: Volume, ghost chain0: seq<int>,
                    ghost chain: seq<int>, ghost data: seq<Sector>, ghost image: seq<Sector>, ghost plan: Plan)
    returns (r: Progress, id: int, start': int)
    requires fs.Valid() && Reached(v0, chain0, fs.Contents(), data, chain, image)
    requires start == StartOf(chain) && (chain != [] ==> prev == chain[|chain| - 1])
    requires Prepared(fs, v0, chain0, chain, plan) && |chain| - |chain0| < plan.count
    modifies fs, fs.drive
    ensures fs.Valid()
    ensures r == Lost ==> !plan.Certain()
    ensures r != Lost ==> fs.Contents().data == old(fs.Contents().data)
    ensures r == Full ==> fs.Contents() == old(fs.Contents()) && NoneLeft(fs.Contents()) && start' == start
                          && Prepared(fs, v0, chain0, chain, plan)
    ensures r == Going ==>
              && 0 <= id < |data| && Reached(v0, chain0, fs.Contents(), data, chain + [id], image + [data[id]])
              && start' == StartOf(chain + [id]) && Prepared(fs, v0, chain0, chain + [id], plan)
  {
    hide FileSystem.Valid, Volume.Sound, IsChain, Reached, Extended, FileSystem.RefillReady,
         FileSystem.WholeTableCached;
    ghost var v := fs.Contents();
    ReachedFacts(v0, chain0, v, data, chain, image);
    if fs.WholeTableCached() {
      fs.WholeTableReady();
    }
    r, id, start' := AllocateAndLink(fs, start, prev, chain);
    if r == Going {
      ReachedOneMore(v0, chain0, v, data, chain, image, [id] + fs.freePool);
    }
  }

  // The state of the main loop: q sectors of the chain lie before the next one to write; the
  // sectors gathered so far are among them.
  ghost predicate Filling(v0: Volume, chain0: seq<int>, v: Volume, chain: seq<int>, image: seq<Sector>,
                          buffer: WriteBuffer<Sector>, q: int) {
    && Gathers(buffer, |v.data|) && |buffer.sectors| < MAX_SECTORS_PER_RW && 0 <= q <= |chain|
    && Reached(v0, chain0, v, Pending(v.data, buffer), chain, image)
    && forall id :: Buffered(buffer, id) && buffer.sectors != [] ==> id in chain[..q]
  }

  // One sector of the file goes through the write buffer.
  method BufferSector(fs: FileSystem, id: int, sector: Sector, buffer: WriteBuffer<Sector>,
                      ghost v0: Volume, ghost chain0: seq<int>, ghost chain: seq<int>, ghost image: seq<Sector>,
                      ghost q: int, ghost plan: Plan)
    returns (ok: bool, r: WriteBuffer<Sector>)
    requires fs.Valid() && Filling(v0, chain0, fs.Contents(), chain, image, buffer, q)
    requires Prepared(fs, v0, chain0, chain, plan) && 0 <= q < |chain| && id == chain[q]
    modifies fs.drive
    ensures plan.Certain() ==> ok
    ensures ok ==>
              && fs.Valid() && Prepared(fs, v0, chain0, chain, plan)
              && fs.Contents() == old(fs.Contents()).(data := fs.Contents().data)
              && |image| == |chain| && Filling(v0, chain0, fs.Contents(), chain, image[q := sector], r, q + 1)
  {
    hide FileSystem.Valid, Volume.Sound, IsChain, Grown, Shows, Pending, Gathers, Claimed, FileSystem.WholeTableCached;
    ghost var v := fs.Contents();
    ReachedFacts(v0, chain0, v, Pending(v.data, buffer), chain, image);
    ReachedWrite(v0, chain0, v, Pending(v.data, buffer), chain, image, q, sector);
    FillingClaims(v0, chain0, v, chain, image, buffer, q, plan.count);
    ok, r := BufferedWrite(fs, id, sector, buffer, Claimed(v0, chain0, plan.count));
    if !ok {
      return;
    }
    ReachedOtherData(v0, chain0, v, fs.Contents(), Pending(fs.Contents().data, r), chain, image[q := sector]);
    assert chain[..q + 1] == chain[..q] + [id];
  }

  lemma FillingClaims(v0: Volume, chain0: seq<int>, v: Volume, chain: seq<int>, image: seq<Sector>,
                      buffer: WriteBuffer<Sector>, q: int, k: int)
    requires Filling(v0, chain0, v, chain, image, buffer, q) && (|chain| == |chain0| || |chain| - |chain0| <= k)
    ensures AllBufferedIn(buffer, Claimed(v0, chain0, k))
    ensures forall i :: 0 <= i < |chain| ==> chain[i] in Claimed(v0, chain0, k)
  {
    hide Claimed, Pending;
    assert Grown(v0, chain0, v, chain);
    GrownClaims(v0, chain0, v, chain, k);
    forall id | Buffered(buffer, id)
      ensures id in Claimed(v0, chain0, k)
    {
      assert id in chain[..q];
    }
  }

  // Past the end of the chain, or once it has been passed, every sector is a new one.
  method NextSector(fs: FileSystem, start: int, current: int, prev: int, allocating: bool,
                    ghost v0: Volume, ghost chain0: seq<int>, ghost chain: seq<int>, ghost image: seq<Sector>,
                    ghost buffer: WriteBuffer<Sector>, ghost q: int, ghost plan: Plan)
    returns (r: Progress, id: int, allocating': bool, ghost chain': seq<int>, ghost image': seq<Sector>)
    requires fs.Valid() && Filling(v0, chain0, fs.Contents(), chain, image, buffer, q)
    requires Prepared(fs, v0, chain0, chain, plan)
    requires current == if q < |chain| then chain[q] else EOC
    requires allocating ==> q == |chain|
    requires q == |chain| ==> chain != [] && prev == chain[q - 1] && q - |chain0| < plan.count
    requires start == StartOf(chain)
    modifies fs, fs.drive
    ensures r == Lost ==> !plan.Certain()
    ensures r != Lost ==>
              && fs.Valid() && Prepared(fs, v0, chain0, chain', plan)
              && Filling(v0, chain0, fs.Contents(), chain', image', buffer, q)
              && |chain| <= |chain'| && chain'[..|chain|] == chain && StartOf(chain') == start && |image'| == |chain'|
    ensures r == Full ==> q == |chain| && chain' == chain && image' == image && NoneLeft(fs.Contents())
    ensures r == Going ==> q < |chain'| && id == chain'[q]
    ensures r == Going ==>
              if q < |chain| then !allocating' && chain' == chain && image' == image
              else allocating' && |chain'| == |chain| + 1 && |image'| == |image| + 1 && image'[..|image|] == image
  {
    hide FileSystem.Valid, Volume.Sound, IsChain, Reached, Extended, Pending, Gathers, Prepared;
    ghost var v := fs.Contents();
    ReachedFacts(v0, chain0, v, Pending(v.data, buffer), chain, image);
    SectorAt(v, chain, q);
    r, id, allocating', chain', image' := Going, current, allocating, chain, image;
    if current == EOC || allocating {
      allocating' := true;
      var start';
      r, id, start' := TakeSector(fs, start, prev, v0, chain0, chain, Pending(v.data, buffer), image, plan);
      if r == Going {
        chain', image' := chain + [id], image + [Pending(v.data, buffer)[id]];
        assert chain'[..q] == chain[..q];
      }
    }
  }

  lemma FillingBegins(v0: Volume, chain0: seq<int>, v: Volume, chain: seq<int>, image: seq<Sector>,
                      buffer: WriteBuffer<Sector>, q: int)
    requires Reached(v0, chain0, v, v.data, chain, image)
    requires buffer.sectors == [] && 0 <= q <= |chain|
    ensures Filling(v0, chain0, v, chain, image, buffer, q) && |image| == |chain|
  {
  }

  // A sector not yet written is on the disk, not in the buffer.
  lemma NotBuffered(v0: Volume, chain0: seq<int>, v: Volume, chain: seq<int>, image: seq<Sector>,
                    buffer: WriteBuffer<Sector>, q: int)
    requires Filling(v0, chain0, v, chain, image, buffer, q) && q < |chain|
    ensures 0 < chain[q] < |v.data| && |image| == |chain| && v.data[chain[q]] == image[q]
  {
    hide Volume.Sound, IsChain, Grown, Shows, Pending, Gathers;
    ReachedFacts(v0, chain0, v, Pending(v.data, buffer), chain, image);
    NotAmongEarlier(v.table, chain, q);
    if buffer.sectors == [] {
      PendingEmpty(v.data, buffer);
    } else {
      PendingElsewhere(v.data, buffer, chain[q]);
    }
  }

  // Where the table leads from a sector of the file.
  lemma FillingNext(v0: Volume, chain0: seq<int>, v: Volume, chain: seq<int>, image: seq<Sector>,
                    buffer: WriteBuffer<Sector>, q: int)
    requires Filling(v0, chain0, v, chain, image, buffer, q + 1)
    ensures 0 <= q ==> 0 < chain[q] < |v.table| && v.Entry(chain[q]) == NextInChain(chain, q)
    ensures q + 1 <= |chain|
  {
    ReachedFacts(v0, chain0, v, Pending(v.data, buffer), chain, image);
  }

  lemma NotAmongEarlier(table: seq<int>, chain: seq<int>, q: int)
    requires IsChain(table, chain) && 0 <= q < |chain|
    ensures chain[q] !in chain[..q]
  {
  }

  // The rest of the data, less than a sector, and the final flush.
  method WriteTail(fs: FileSystem, id: int, sectorBuffer: Sector, existing: bool, off: int, size: int,
                   data: seq<Byte>, w: int, buffer: WriteBuffer<Sector>, ghost v0: Volume, ghost chain0: seq<int>,
                   ghost chain: seq<int>, ghost base: seq<Sector>, ghost image: seq<Sector>, ghost plan: Plan)
    returns (ok: bool, ghost image': seq<Sector>)
    requires 0 <= off <= SECTOR_SIZE * |base| && 0 <= w < |data| < w + SECTOR_SIZE && (off + w) % SECTOR_SIZE == 0
    requires fs.Valid() && (off + w) / SECTOR_SIZE < |chain| == |image| && Prepared(fs, v0, chain0, chain, plan)
    requires Filling(v0, chain0, fs.Contents(), chain, image, buffer, (off + w) / SECTOR_SIZE)
    requires id == chain[(off + w) / SECTOR_SIZE]
    requires Put(base, image, data, off, w) && (existing || off + |data| >= size)
    modifies fs.drive
    ensures plan.Certain() ==> ok
    ensures ok ==>
              && fs.Valid() && Prepared(fs, v0, chain0, chain, plan)
              && Reached(v0, chain0, fs.Contents(), fs.Contents().data, chain, image')
              && PutAll(base, image', data, off, size)
  {
    hide FileSystem.Valid, Volume.Sound, IsChain, Reached, Put, PutAll, Pending, Gathers, Claimed;
    ghost var q := (off + w) / SECTOR_SIZE;
    NotBuffered(v0, chain0, fs.Contents(), chain, image, buffer, q);
    var sector := sectorBuffer;
    if existing {
      fs.OneSectorSafe(id);
      var r := fs.xRead(id, 1);
      sector := r.value[0];
    }
    PutTail(base, image, data, off, w, size, sector);
    var tail: Sector := data[w..] + sector[|data| - w..];
    image' := image[q := tail];
    var gathered;
    ok, gathered := BufferSector(fs, id, tail, buffer, v0, chain0, chain, image, q, plan);
    if ok {
      ok := FlushFilled(fs, gathered, v0, chain0, chain, image', q + 1, plan);
    }
  }

  method FlushFilled(fs: FileSystem, buffer: WriteBuffer<Sector>, ghost v0: Volume, ghost chain0: seq<int>,
                     ghost chain: seq<int>, ghost image: seq<Sector>, ghost q: int, ghost plan: Plan)
    returns (ok: bool)
    requires fs.Valid() && Filling(v0, chain0, fs.Contents(), chain, image, buffer, q)
    requires Prepared(fs, v0, chain0, chain, plan)
    modifies fs.drive
    ensures plan.Certain() ==> ok
    ensures ok ==> fs.Valid() && Prepared(fs, v0, chain0, chain, plan)
                   && Reached(v0, chain0, fs.Contents(), fs.Contents().data, chain, image)
  {
    hide FileSystem.Valid, Volume.Sound, IsChain, Grown, Shows, Pending, Claimed;
    ghost var v := fs.Contents();
    FillingClaims(v0, chain0, v, chain, image, buffer, q, plan.count);
    ok := FlushBuffer(fs, buffer, Claimed(v0, chain0, plan.count));
    if !ok {
      return;
    }
    ReachedOtherData(v0, chain0, v, fs.Contents(), fs.Contents().data, chain, image);
  }

  function Max(a: int, b: int): int {
    if a < b then b else a
  }

  // A whole sector of the data.
  method WriteWhole(fs: FileSystem, id: int, off: int, data: seq<Byte>, w: int, buffer: WriteBuffer<Sector>,
                    ghost v0: Volume, ghost chain0: seq<int>, ghost chain: seq<int>, ghost base: seq<Sector>,
                    ghost image: seq<Sector>, ghost q: int, ghost plan: Plan)
    returns (ok: bool, r: WriteBuffer<Sector>, ghost image': seq<Sector>)
    requires 0 <= off <= SECTOR_SIZE * |base| && 0 <= w && w + SECTOR_SIZE <= |data| && off + w == SECTOR_SIZE * q
    requires fs.Valid() && Filling(v0, chain0, fs.Contents(), chain, image, buffer, q)
    requires Prepared(fs, v0, chain0, chain, plan) && 0 <= q < |chain| == |image| && id == chain[q]
    requires Put(base, image, data, off, w)
    modifies fs.drive
    ensures plan.Certain() ==> ok
    ensures ok ==>
              && fs.Valid() && Prepared(fs, v0, chain0, chain, plan)
              && fs.Contents() == old(fs.Contents()).(data := fs.Contents().data)
              && |image'| == |chain| && Filling(v0, chain0, fs.Contents(), chain, image', r, q + 1)
              && Put(base, image', data, off, w + SECTOR_SIZE)
  {
    hide FileSystem.Valid, Volume.Sound, IsChain, Filling, Put, Prepared;
    ok, r := BufferSector(fs, id, data[w..w + SECTOR_SIZE], buffer, v0, chain0, chain, image, q, plan);
    image' := image;
    if ok {
      PutSector(base, image, data, off, w);
      image' := image[q := data[w..w + SECTOR_SIZE]];
    }
  }

  // Writes the data from the next sector boundary on, sector by sector through the buffer; when
  // no sector is free the data stops at the end of the chain, its last sectors still buffered.
  method WriteSectors(fs: FileSystem, start: int, current: int, prev: int, sectorBuffer: Sector,
                      off: int, size: int, data: seq<Byte>, written: int, ghost v0: Volume, ghost chain0: seq<int>,
                      ghost chain1: seq<int>, ghost base: seq<Sector>, ghost image1: seq<Sector>, ghost plan: Plan)
    returns (r: Progress, ghost chain: seq<int>, ghost image: seq<Sector>, ghost buffer': WriteBuffer<Sector>)
    requires fs.Valid() && start == StartOf(chain1)
    requires Reached(v0, chain0, fs.Contents(), fs.Contents().data, chain1, image1)
    requires 0 <= off <= SECTOR_SIZE * |base| && 0 <= written < |data| && Put(base, image1, data, off, written)
    requires (off + written) % SECTOR_SIZE == 0 && (off + written) / SECTOR_SIZE <= |chain1| && chain1 != []
    requires current == if (off + written) / SECTOR_SIZE < |chain1| then chain1[(off + written) / SECTOR_SIZE] else EOC
    requires (off + written) / SECTOR_SIZE == |chain1| ==> prev == chain1[|chain1| - 1]
    requires plan.count == SectorsFor(off + |data|) - |chain0| && Prepared(fs, v0, chain0, chain1, plan)
             && size <= SECTOR_SIZE * |chain1|
    modifies fs, fs.drive
    ensures r == Lost ==> !plan.Certain()
    ensures r != Lost ==>
              && fs.Valid() && StartOf(chain) == start && |chain1| <= |chain| && chain[..|chain1|] == chain1
              && Prepared(fs, v0, chain0, chain, plan)
              && Gathers(buffer', |fs.Contents().data|) && |buffer'.sectors| < MAX_SECTORS_PER_RW
              && Reached(v0, chain0, fs.Contents(), Pending(fs.Contents().data, buffer'), chain, image)
    ensures r == Going ==> buffer'.sectors == [] && |chain| == Max(|chain1|, SectorsFor(off + |data|))
                           && PutAll(base, image, data, off, size)
    ensures r == Full ==>
              && |chain| < SectorsFor(off + |data|) && NoneLeft(fs.Contents()) && off <= SECTOR_SIZE * |chain|
              && Put(base, image, data, off, SECTOR_SIZE * |chain| - off)
  {
    hide FileSystem.Valid, Volume.Sound, IsChain, Reached, Filling, Put, PutAll, Pending, Prepared, NoneLeft;
    var cur, last, w, allocating, ok := current, prev, written, false, true;
    var buffer := WriteBuffer([], 0, 0);
    chain, image := chain1, image1;
    ghost var q := (off + w) / SECTOR_SIZE;
    FillingBegins(v0, chain0, fs.Contents(), chain, image, buffer, q);
    while true
      invariant fs.Valid() && Prepared(fs, v0, chain0, chain, plan) && StartOf(chain) == start && chain != []
      invariant written <= w < |data| && off + w == SECTOR_SIZE * q && 0 <= q <= |chain|
      invariant Filling(v0, chain0, fs.Contents(), chain, image, buffer, q) && Put(base, image, data, off, w)
      invariant cur == (if q < |chain| then chain[q] else EOC) && (q == |chain| ==> last == chain[|chain| - 1])
      invariant if allocating then q == |chain| else |chain| == |chain1|
      invariant |chain1| <= |chain| <= Max(|chain1|, SectorsFor(off + |data|)) && chain[..|chain1|] == chain1
      decreases |data| - w
    {
      ghost var before := image;
      r, cur, allocating, chain, image :=
        NextSector(fs, start, cur, last, allocating, v0, chain0, chain, image, buffer, q, plan);
      buffer' := buffer;
      if r == Lost {
        return;
      }
      if r == Full {
        FillingPending(v0, chain0, fs.Contents(), chain, image, buffer, q);
        return;
      }
      PutExtends(base, before, image, data, off, w);
      if |data| - w < SECTOR_SIZE {
        ok, image := WriteTail(fs, cur, sectorBuffer, !allocating && off + |data| < size, off, size, data, w, buffer,
                               v0, chain0, chain, base, image, plan);
        if !ok {
          return Lost, chain, image, buffer';
        }
        break;
      }
      ok, buffer, image := WriteWhole(fs, cur, off, data, w, buffer, v0, chain0, chain, base, image, q, plan);
      if !ok {
        return Lost, chain, image, buffer';
      }
      w := w + SECTOR_SIZE;
      if w == |data| {
        ok := FlushFilled(fs, buffer, v0, chain0, chain, image, q + 1, plan);
        if !ok {
          return Lost, chain, image, buffer';
        }
        PutToTheEnd(base, image, data, off, size);
        break;
      }
      FillingNext(v0, chain0, fs.Contents(), chain, image, buffer, q);
      q := q + 1;
      last := cur;
      cur := EntryOf(fs, cur, v0, chain0, chain, plan);
    }
    r := Going;
    buffer' := WriteBuffer([], 0, 0);
    PendingEmpty(fs.Contents().data, buffer');
  }

  lemma FillingPending(v0: Volume, chain0: seq<int>, v: Volume, chain: seq<int>, image: seq<Sector>,
                       buffer: WriteBuffer<Sector>, q: int)
    requires Filling(v0, chain0, v, chain, image, buffer, q)
    ensures Gathers(buffer, |v.data|) && |buffer.sectors| < MAX_SECTORS_PER_RW
    ensures Reached(v0, chain0, v, Pending(v.data, buffer), chain, image)
  {
  }

  // What the table leads to from a sector.
  method EntryOf(fs: FileSystem, id: int, ghost v0: Volume, ghost chain0: seq<int>, ghost chain: seq<int>,
        ghost plan: Plan)
    returns (next: int)
    requires fs.Valid() && Prepared(fs, v0, chain0, chain, plan) && 0 <= id < |fs.Contents().table|
    modifies fs`tableCache, fs.drive
    ensures fs.Valid() && Prepared(fs, v0, chain0, chain, plan) && fs.Contents() == old(fs.Contents())
    ensures next == fs.Contents().Entry(id)
  {
    hide FileSystem.Valid, FileSystem.WholeTableCached, Claimed;
    var r := fs.GetSectorEntryValue(id);
    next := r.entry;
  }

  // One sector of the file, straight from the disk.
  method LoadSector(fs: FileSystem, id: int, ghost v0: Volume, ghost chain0: seq<int>, ghost chain: seq<int>,
                    ghost image: seq<Sector>, ghost i: int, ghost plan: Plan)
    returns (sector: Sector)
    requires fs.Valid() && Reached(v0, chain0, fs.Contents(), fs.Contents().data, chain, image)
    requires Prepared(fs, v0, chain0, chain, plan) && 0 <= i < |chain| && id == chain[i]
    modifies fs.drive
    ensures fs.Valid() && fs.Contents() == old(fs.Contents()) && Prepared(fs, v0, chain0, chain, plan)
    ensures |image| == |chain| && sector == image[i]
  {
    hide FileSystem.Valid, Volume.Sound, IsChain, Reached, Claimed;
    ReachedFacts(v0, chain0, fs.Contents(), fs.Contents().data, chain, image);
    fs.OneSectorSafe(id);
    var r := fs.xRead(id, 1);
    sector := r.value[0];
  }

  // The part of the data that goes into the middle of the first sector.
  method WriteHead(fs: FileSystem, current: int, off: int, data: seq<Byte>, ghost v0: Volume, ghost chain0: seq<int>,
                   ghost chain: seq<int>, ghost base: seq<Sector>, ghost plan: Plan)
    returns (written: int, sectorBuffer: Sector, ghost image: seq<Sector>)
    requires fs.Valid() && Reached(v0, chain0, fs.Contents(), fs.Contents().data, chain, base)
    requires Prepared(fs, v0, chain0, chain, plan)
    requires 0 <= off && off / SECTOR_SIZE < |chain| == |base| && off % SECTOR_SIZE != 0
    requires current == chain[off / SECTOR_SIZE]
    requires data != []
    modifies fs.drive
    ensures fs.Valid() && Reached(v0, chain0, fs.Contents(), fs.Contents().data, chain, image)
    ensures Prepared(fs, v0, chain0, chain, plan)
    ensures 0 < written <= |data| && off % SECTOR_SIZE + written <= SECTOR_SIZE
    ensures (written < |data| ==>
              (off + written) % SECTOR_SIZE == 0 && (off + written) / SECTOR_SIZE == off / SECTOR_SIZE + 1)
    ensures Put(base, image, data, off, written)
  {
    hide FileSystem.Valid, Volume.Sound, IsChain, Reached, Put, Claimed, Prepared;
    ghost var q := off / SECTOR_SIZE;
    var at := off % SECTOR_SIZE;
    sectorBuffer := LoadSector(fs, current, v0, chain0, chain, base, q, plan);
    written := SECTOR_SIZE - at;
    if |data| <= written {
      written := |data|;
    }
    sectorBuffer := sectorBuffer[..at] + data[..written] + sectorBuffer[at + written..];
    PutHead(base, data, off, written);
    StoreSector(fs, current, sectorBuffer, v0, chain0, chain, base, q, plan);
    image := base[q := sectorBuffer];
  }

  method FindPrepared(fs: FileSystem, fd: FileDescriptor, start: int, target: int, ghost chain: seq<int>,
                      ghost plan: Plan)
    returns (index: int, current: int, prev: int)
    requires fs.Valid() && fs.Contents().Sound() && IsChain(fs.Contents().table, chain) && start == StartOf(chain)
    requires 0 <= target && HintOk(fd.lastReadSectorIndex, fd.lastReadSectorNo, chain)
    requires Prepared(fs, fs.Contents(), chain, chain, plan)
    modifies fs`tableCache, fs.drive
    ensures fs.Valid() && fs.Contents() == old(fs.Contents()) && Prepared(fs, fs.Contents(), chain, chain, plan)
    ensures if target < |chain| then index == target && current == chain[target]
            else index == |chain| && current == EOC && (chain != [] ==> prev == chain[|chain| - 1])
  {
    hide FileSystem.Valid, Volume.Sound, IsChain, Claimed, HintOk, FileSystem.WholeTableCached;
    index, current, prev := FindWriteSector(fs, fd, start, target, chain);
  }

  // Finds the first sector to write, continuing the chain up to it if it is shorter.
  method LocateForWrite(fs: FileSystem, fd: FileDescriptor, start: int, target: int, ghost chain0: seq<int>,
          ghost image0: seq<Sector>, ghost plan: Plan)
    returns (r: Progress, current: int, start': int, ghost chain: seq<int>, ghost base: seq<Sector>)
    requires fs.Valid() && 0 <= target && start == StartOf(chain0)
    requires Reached(fs.Contents(), chain0, fs.Contents(), fs.Contents().data, chain0, image0)
    requires HintOk(fd.lastReadSectorIndex, fd.lastReadSectorNo, chain0)
    requires target + 1 - |chain0| <= plan.count && Prepared(fs, fs.Contents(), chain0, chain0, plan)
    modifies fs, fs.drive, fd`lastReadSectorIndex, fd`lastReadSectorNo
    ensures r == Lost ==> !plan.Certain()
    ensures r != Lost ==>
              && fs.Valid() && start' == StartOf(chain) && |chain0| <= |chain| == |base| && |image0| == |chain0|
              && Reached(old(fs.Contents()), chain0, fs.Contents(), fs.Contents().data, chain, base)
              && Prepared(fs, old(fs.Contents()), chain0, chain, plan)
              && base == image0 + Zeroed(|base| - |image0|)
              && HintOk(fd.lastReadSectorIndex, fd.lastReadSectorNo, chain)
    ensures r == Going ==> |chain| == Max(|chain0|, target + 1) && current == chain[target]
                           && fd.lastReadSectorIndex == target && fd.lastReadSectorNo == current
    ensures r == Full ==> |chain| <= target && NoneLeft(fs.Contents())
  {
    hide FileSystem.Valid, Volume.Sound, IsChain, Reached, Prepared, NoneLeft;
    ghost var v0 := fs.Contents();
    ReachedFacts(v0, chain0, v0, v0.data, chain0, image0);
    SectorAt(v0, chain0, if target < |chain0| then target else 0);
    var index, prev;
    index, current, prev := FindPrepared(fs, fd, start, target, chain0, plan);
    r, chain, start', base := Going, chain0, start, image0 + Zeroed(0);
    if current == EOC {
      r, current, start', chain := AllocateGap(fs, fd, start, index, prev, target, v0, chain0, image0, plan);
      if r == Lost {
        return;
      }
      base := image0 + Zeroed(|chain| - |chain0|);
    } else {
      assert base == image0;
      fd.lastReadSectorIndex, fd.lastReadSectorNo := index, current;
    }
    ReachedFacts(v0, chain0, fs.Contents(), fs.Contents().data, chain, base);
  }

  // Writes the data from the sector `current` on, which holds its first byte.
  method WriteLocated(fs: FileSystem, start: int, current: int, off: int, size: int, data: seq<Byte>,
                      ghost v0: Volume, ghost chain0: seq<int>, ghost chain1: seq<int>, ghost base: seq<Sector>,
                      ghost plan: Plan)
    returns (r: Progress, ghost chain: seq<int>, ghost image: seq<Sector>, ghost buffer: WriteBuffer<Sector>)
    requires fs.Valid() && data != [] && 0 <= off && start == StartOf(chain1) && size <= SECTOR_SIZE * |chain1|
    requires Reached(v0, chain0, fs.Contents(), fs.Contents().data, chain1, base)
    requires off / SECTOR_SIZE < |chain1| == |base| && current == chain1[off / SECTOR_SIZE]
    requires |chain1| <= Max(|chain0|, SectorsFor(off + |data|))
    requires plan.count == SectorsFor(off + |data|) - |chain0| && Prepared(fs, v0, chain0, chain1, plan)
    modifies fs, fs.drive
    ensures r == Lost ==> !plan.Certain()
    ensures r != Lost ==>
              && fs.Valid() && StartOf(chain) == start && Prepared(fs, v0, chain0, chain, plan)
              && |chain1| <= |chain| && chain[..|chain1|] == chain1
              && Gathers(buffer, |fs.Contents().data|) && |buffer.sectors| < MAX_SECTORS_PER_RW
              && Reached(v0, chain0, fs.Contents(), Pending(fs.Contents().data, buffer), chain, image)
    ensures r == Going ==> buffer.sectors == [] && |chain| == Max(|chain1|, SectorsFor(off + |data|))
                           && PutAll(base, image, data, off, size)
    ensures r == Full ==> |chain| < SectorsFor(off + |data|) && NoneLeft(fs.Contents())
                          && Put(base, image, data, off, SECTOR_SIZE * |chain| - off)
  {
    hide FileSystem.Valid, Volume.Sound, IsChain, Reached, Put, PutAll, Prepared, Pending, NoneLeft;
    chain, image, buffer, r := chain1, base, WriteBuffer([], 0, 0), Going;
    var cur, written, prev, sectorBuffer := current, 0, EOC, ZERO_SECTOR;
    PutNothing(base, data, off);
    if off % SECTOR_SIZE != 0 {
      written, sectorBuffer, image := WriteHead(fs, cur, off, data, v0, chain0, chain1, base, plan);
      if written == |data| {
        PendingEmpty(fs.Contents().data, buffer);
        PutToTheEnd(base, image, data, off, size);
        return;
      }
      prev := cur;
      cur := EntryOfFile(fs, cur, v0, chain0, chain1, image, off / SECTOR_SIZE, plan);
    }
    r, chain, image, buffer := WriteSectors(fs, start, cur, prev, sectorBuffer, off, size, data, written,
                                            v0, chain0, chain1, base, image, plan);
  }

  // Writes the data at the descriptor's offset, extending the chain as needed.  When no sector is
  // left the data stops at the end of the chain, up to seven sectors of it still buffered.
  method ActualFileWrite(fs: FileSystem, fd: FileDescriptor, start: int, size: int, data: seq<Byte>,
                         ghost chain0: seq<int>, ghost plan: Plan)
    returns (r: Progress, start': int, ghost chain: seq<int>, ghost image: seq<Sector>,
             ghost buffer: WriteBuffer<Sector>)
    requires fs.Valid() && data != [] && 0 <= fd.offset
    requires FileOk(fs.Contents(), start, size, chain0) && HintOk(fd.lastReadSectorIndex, fd.lastReadSectorNo, chain0)
    requires plan.count == Needed(fd.offset, |data|, chain0) && Prepared(fs, fs.Contents(), chain0, chain0, plan)
    modifies fs, fs.drive, fd`lastReadSectorIndex, fd`lastReadSectorNo
    ensures r == Lost ==> !plan.Certain()
    ensures r != Lost ==>
              && fs.Valid() && start' == StartOf(chain) && HintOk(fd.lastReadSectorIndex, fd.lastReadSectorNo, chain)
              && Prepared(fs, old(fs.Contents()), chain0, chain, plan)
              && Gathers(buffer, |fs.Contents().data|) && |buffer.sectors| < MAX_SECTORS_PER_RW
              && Reached(old(fs.Contents()), chain0, fs.Contents(), Pending(fs.Contents().data, buffer), chain, image)
              && Overwritten(old(Along(fs.Contents().data, chain0)), image, data, fd.offset,
                             if r == Going then Max(size, fd.offset + |data|) else SECTOR_SIZE * |chain|)
    ensures r == Going ==> |chain| == Max(|chain0|, SectorsFor(fd.offset + |data|)) && buffer.sectors == []
    ensures r == Full ==> |chain| < SectorsFor(fd.offset + |data|) && NoneLeft(fs.Contents())
  {
    hide FileSystem.Valid, Volume.Sound, IsChain, Reached, Put, PutAll, Overwritten, Prepared, Pending, NoneLeft;
    ghost var v0 := fs.Contents();
    ghost var image0 := ReachedAtFirst(v0, chain0);
    var off := fd.offset;
    var current; ghost var base;
    r, current, start', chain, base := LocateForWrite(fs, fd, start, off / SECTOR_SIZE, chain0, image0, plan);
    image, buffer := base, WriteBuffer([], 0, 0);
    if r == Lost {
      return;
    }
    if r == Full {
      PendingEmpty(fs.Contents().data, buffer);
      GapUnfinished(image0, base, data, off);
      return;
    }
    ghost var before := chain;
    r, chain, image, buffer := WriteLocated(fs, start', current, off, size, data, v0, chain0, chain, base, plan);
    if r == Lost {
      return;
    }
    if r == Going {
      OverwrittenIs(image0, base, image, data, off, size);
    } else {
      ReachedFacts(v0, chain0, fs.Contents(), Pending(fs.Contents().data, buffer), chain, image);
      OverwrittenSoFar(image0, base, image, data, off);
    }
    assert chain[..|before|][off / SECTOR_SIZE] == before[off / SECTOR_SIZE];
  }

  lemma GapUnfinished(before: seq<Sector>, base: seq<Sector>, data: seq<Byte>, off: int)
    requires |before| <= |base| && base == before + Zeroed(|base| - |before|) && SECTOR_SIZE * |base| <= off
    ensures Overwritten(before, base, data, off, SECTOR_SIZE * |base|)
  {
  }

  lemma OverwrittenSoFar(before: seq<Sector>, base: seq<Sector>, image: seq<Sector>, data: seq<Byte>, off: int)
    requires |before| <= |base| && base == before + Zeroed(|base| - |before|) && 0 <= off <= SECTOR_SIZE * |base|
    requires 0 <= SECTOR_SIZE * |image| - off <= |data| && Put(base, image, data, off, SECTOR_SIZE * |image| - off)
    ensures Overwritten(before, image, data, off, SECTOR_SIZE * |image|)
  {
  }

  method EntryOfFile(fs: FileSystem, id: int, ghost v0: Volume, ghost chain0: seq<int>, ghost chain: seq<int>,
          ghost image: seq<Sector>, ghost i: int, ghost plan: Plan)
    returns (next: int)
    requires fs.Valid() && Reached(v0, chain0, fs.Contents(), fs.Contents().data, chain, image)
    requires Prepared(fs, v0, chain0, chain, plan) && 0 <= i < |chain| && id == chain[i]
    modifies fs`tableCache, fs.drive
    ensures fs.Valid() && Prepared(fs, v0, chain0, chain, plan) && fs.Contents() == old(fs.Contents())
    ensures next == NextInChain(chain, i)
  {
    hide FileSystem.Valid, Reached, Prepared, IsChain, Volume.Sound;
    ReachedFacts(v0, chain0, fs.Contents(), fs.Contents().data, chain, image);
    ChainStep(fs.Contents(), chain, i);
    next := EntryOf(fs, id, v0, chain0, chain, plan);
  }

  lemma ReachedAtFirst(v: Volume, chain: seq<int>) returns (image: seq<Sector>)
    requires v.Sound() && IsChain(v.table, chain)
    ensures forall i :: 0 <= i < |chain| ==> 0 <= chain[i] < |v.data|
    ensures |image| == |chain| && image == Along(v.data, chain) && Reached(v, chain, v, v.data, chain, image)
  {
    GrownByNone(v, chain);
    ShowsItself(v.data, chain);
    image := Along(v.data, chain);
  }

  // A chain that shares no sector with the file, and what its sectors hold, survive the write.
  lemma OtherFileUntouched(v0: Volume, chain0: seq<int>, v: Volume, chain: seq<int>, image: seq<Sector>,
          other: seq<int>)
    requires v0.Sound() && Reached(v0, chain0, v, v.data, chain, image) && IsChain(v0.table, other)
    requires forall id :: id in other ==> id !in chain0
    ensures IsChain(v.table, other) && |v.data| == |v0.data|
    ensures forall i :: 0 <= i < |other| ==> 0 <= other[i] < |v.data| && v.data[other[i]] == v0.data[other[i]]
  {
    InUseEntries(v0.table, other);
    forall i | 0 <= i < |other|
      ensures other[i] !in chain
    {
      assert other[i] in other;
    }
    forall id | id in other
      ensures id !in chain
    {
    }
    ChainUntouched(v0.table, v.table, other);
  }

  // A descriptor's hint stays good while the chain grows, unless it remembers the end of an
  // empty file that another descriptor has since written to.
  lemma HintAfterGrowth(index: int, sector: int, chain: seq<int>, longer: seq<int>)
    requires HintOk(index, sector, chain) && |chain| <= |longer| && longer[..|chain|] == chain
    requires forall i :: 0 <= i < |longer| ==> longer[i] != EOC
    ensures HintOk(index, sector, longer) <==> (index < |chain| || longer == [])
  {
  }

  // A file's directory entry.
  class Node {
    const isDirectory: bool
    var size: int
    var startSectorID: int

    constructor (isDirectory: bool)
      ensures this.isDirectory == isDirectory && size == 0 && startSectorID == EOC
    {
      this.isDirectory, size, startSectorID := isDirectory, 0, EOC;
    }
  }

  lemma NotLongerIsSame(v0: Volume, chain0: seq<int>, v: Volume, data: seq<Sector>, chain: seq<int>, image: seq<Sector>)
    requires Reached(v0, chain0, v, data, chain, image)
    ensures |chain| == |chain0| ==> chain == chain0
  {
  }

  ghost function FileContent(v: Volume, chain: seq<int>, size: int): (bytes: seq<Byte>)
    requires v.Sound() && IsChain(v.table, chain) && 0 <= size <= SECTOR_SIZE * |chain|
    ensures |bytes| == size
  {
    Content(Along(v.data, chain), size)
  }

  // What became of a write; one that is stopped followed an evicted entry of the sector cache or
  // came to a refill of the pool that is wrong.
  datatype WriteOutcome = Written | Refused | NoSpace | Stopped

  // The sectors a write needs beyond those the file has.
  function Needed(off: int, count: int, chain: seq<int>): int {
    SectorsFor(off + count) - |chain|
  }

  function SectorsOf(chain: seq<int>): set<int> {
    set i | 0 <= i < |chain| :: chain[i]
  }

  // k more sectors can be taken for the chain for certain: none of its own and of these sectors is
  // up for eviction, and the pool holds as many, or else the whole table is cached.
  ghost predicate Ready(fs: FileSystem, chain: seq<int>, k: int)
    requires fs.Valid()
    reads fs, fs.drive
  {
    fs.Apart(Claimed(fs.Contents(), chain, k)) && (k <= |fs.freePool| || fs.WholeTableCached())
  }

  // Writes at the descriptor's offset.  A write that runs out of sectors leaves the directory entry
  // alone, but the chain has taken every free sector.
  method FileWrite(fs: FileSystem, fd: FileDescriptor, node: Node, data: seq<Byte>, ghost chain0: seq<int>)
    returns (r: WriteOutcome, ghost chain: seq<int>, ghost image: seq<Sector>, ghost buffer: WriteBuffer<Sector>)
    requires fs.Valid() && FileOk(fs.Contents(), node.startSectorID, node.size, chain0) && 0 < fs.poolCapacity
    requires HintOk(fd.lastReadSectorIndex, fd.lastReadSectorNo, chain0)
    requires 0 <= fd.offset && fd.offset + |data| < 0x1_0000_0000
    modifies fs, fs.drive, fd`lastReadSectorIndex, fd`lastReadSectorNo, node
    ensures r == Stopped ==> data != [] && !old(Ready(fs, chain0, Needed(fd.offset, |data|, chain0)))
    ensures r != Stopped ==>
              r == if data == [] || node.isDirectory then Refused
                   else if Needed(fd.offset, |data|, chain0) <= old(|fs.Contents().table| - fs.usedSectors) then Written
                   else NoSpace
    ensures r != Stopped ==>
              && fs.Valid() && HintOk(fd.lastReadSectorIndex, fd.lastReadSectorNo, chain)
              && (forall s :: s in fs.drive.releaseList ==> s in old(fs.drive.releaseList))
              && (old(Ready(fs, chain0, Needed(fd.offset, |data|, chain0))) ==> fs.Apart(SectorsOf(chain)))
              && (old(fs.WholeTableCached()) ==> fs.WholeTableCached())
    ensures r == Written || r == NoSpace ==>
              && Gathers(buffer, |fs.Contents().data|) && |buffer.sectors| < MAX_SECTORS_PER_RW
              && Reached(old(fs.Contents()), chain0, fs.Contents(), Pending(fs.Contents().data, buffer), chain, image)
              && Overwritten(old(Along(fs.Contents().data, chain0)), image, data, fd.offset,
                             if r == Written then node.size else SECTOR_SIZE * |chain|)
    ensures r == Refused ==> fs.Contents() == old(fs.Contents()) && chain == chain0
    ensures r != Written ==> node.size == old(node.size) && node.startSectorID == old(node.startSectorID)
    ensures r == Written ==>
              && node.size == Max(old(node.size), fd.offset + |data|) && buffer.sectors == []
              && FileOk(fs.Contents(), node.startSectorID, node.size, chain)
    ensures r == Written && fd.offset <= old(node.size) ==>
              FileContent(fs.Contents(), chain, node.size) ==
                  Spliced(old(FileContent(fs.Contents(), chain0, node.size)), fd.offset, data)
    ensures r == NoSpace ==>
              && NoneLeft(fs.Contents()) && |chain| == |chain0| + old(|fs.Contents().table| - fs.usedSectors)
              && (FileOk(fs.Contents(), node.startSectorID, node.size, chain) <==> chain == chain0)
  {
    hide FileSystem.Valid, Volume.Sound, IsChain, Reached, Overwritten, Spliced, Pending, Gathers, Claimed, SectorsOf;
    hide FileSystem.WholeTableCached, FileOk, HintOk, Shows, Grown;
    FileOkFacts(fs.Contents(), node.startSectorID, node.size, chain0);
    FileOkIff(fs.Contents(), node.startSectorID, node.size, chain0);
    OwnClaimed(fs.Contents(), chain0, Needed(fd.offset, |data|, chain0));
    chain, image, buffer := chain0, [], WriteBuffer([], 0, 0);
    if data == [] || node.isDirectory {
      return Refused, chain0, image, buffer;
    }
    ghost var before := ReachedAtFirst(fs.Contents(), chain0);
    var progress, start';
    progress, start', chain, image, buffer := WriteChain(fs, fd, node.startSectorID, node.size, data, chain0);
    if progress == Lost {
      r := Stopped;
      return;
    }
    FileOkIff(fs.Contents(), node.startSectorID, node.size, chain);
    if progress == Full {
      r := NoSpace;
      return;
    }
    r := Written;
    if fd.offset <= node.size {
      OverwrittenContent(before, image, data, fd.offset, node.size);
    }
    if node.size < fd.offset + |data| {
      node.size := fd.offset + |data|;
      node.startSectorID := start';
      FileOkIff(fs.Contents(), start', node.size, chain);
    }
  }

  // The sectors of the write.
  method WriteChain(fs: FileSystem, fd: FileDescriptor, start: int, size: int, data: seq<Byte>, ghost chain0: seq<int>)
    returns (r: Progress, start': int, ghost chain: seq<int>, ghost image: seq<Sector>,
             ghost buffer: WriteBuffer<Sector>)
    requires fs.Valid() && FileOk(fs.Contents(), start, size, chain0) && 0 < fs.poolCapacity
    requires HintOk(fd.lastReadSectorIndex, fd.lastReadSectorNo, chain0)
    requires 0 <= fd.offset && data != []
    modifies fs, fs.drive, fd`lastReadSectorIndex, fd`lastReadSectorNo
    ensures r == Lost ==> !old(Ready(fs, chain0, Needed(fd.offset, |data|, chain0)))
    ensures r != Lost ==>
              && fs.Valid() && HintOk(fd.lastReadSectorIndex, fd.lastReadSectorNo, chain)
              && (forall s :: s in fs.drive.releaseList ==> s in old(fs.drive.releaseList))
              && (old(Ready(fs, chain0, Needed(fd.offset, |data|, chain0))) ==> fs.Apart(SectorsOf(chain)))
              && (old(fs.WholeTableCached()) ==> fs.WholeTableCached())
    ensures r != Lost ==>
              && fs.Contents().Sound() && IsChain(fs.Contents().table, chain) && start' == StartOf(chain)
              && Gathers(buffer, |fs.Contents().data|) && |buffer.sectors| < MAX_SECTORS_PER_RW
              && Reached(old(fs.Contents()), chain0, fs.Contents(), Pending(fs.Contents().data, buffer), chain, image)
              && Overwritten(old(Along(fs.Contents().data, chain0)), image, data, fd.offset,
                             if r == Going then Max(size, fd.offset + |data|) else SECTOR_SIZE * |chain|)
              && (|chain| == |chain0| ==> chain == chain0)
    ensures r == Going ==>
              && |chain| == Max(|chain0|, SectorsFor(fd.offset + |data|)) && buffer.sectors == []
              && Pending(fs.Contents().data, buffer) == fs.Contents().data && image == Along(fs.Contents().data, chain)
    ensures r == Going <==>
              r != Lost && Needed(fd.offset, |data|, chain0) <= old(|fs.Contents().table| - fs.usedSectors)
    ensures r == Full ==>
              NoneLeft(fs.Contents()) && |chain| == |chain0| + old(|fs.Contents().table| - fs.usedSectors)
  {
    hide FileSystem.Valid, Volume.Sound, IsChain, Reached, Overwritten, Pending, Gathers, Claimed, SectorsOf, HintOk;
    hide FileSystem.WholeTableCached;
    ghost var v0, k := fs.Contents(), Needed(fd.offset, |data|, chain0);
    UsedAtMost(v0);
    ghost var plan := Plan(k, fs.drive.releaseList, fs.WholeTableCached(), fs.Apart(Claimed(v0, chain0, k)),
                           k <= |fs.freePool|);
    r, start', chain, image, buffer := ActualFileWrite(fs, fd, start, size, data, chain0, plan);
    if r != Lost {
      ghost var written := Pending(fs.Contents().data, buffer);
      ChainClaimed(v0, chain0, fs.Contents(), written, chain, image, k);
      ReachedFacts(v0, chain0, fs.Contents(), written, chain, image);
      NotLongerIsSame(v0, chain0, fs.Contents(), written, chain, image);
      UsedAtMost(fs.Contents());
      if r == Going {
        PendingEmpty(fs.Contents().data, buffer);
        assert image == Along(fs.Contents().data, chain);
      }
    }
  }

  lemma FileOkIff(v: Volume, start: int, size: int, chain: seq<int>)
    requires v.Sound() && IsChain(v.table, chain)
    ensures FileOk(v, start, size, chain) <==>
              start == StartOf(chain) && 0 <= size && |chain| == SectorsFor(size)
  {
  }

  lemma OwnClaimed(v: Volume, chain: seq<int>, k: int)
    requires v.Sound() && IsChain(v.table, chain)
    ensures forall id :: id in SectorsOf(chain) ==> id in Claimed(v, chain, k)
  {
  }

  lemma ChainClaimed(v0: Volume, chain0: seq<int>, v: Volume, data: seq<Sector>, chain: seq<int>, image: seq<Sector>,
        k: int)
    requires Reached(v0, chain0, v, data, chain, image) && (|chain| == |chain0| || |chain| - |chain0| <= k)
    ensures forall id :: id in SectorsOf(chain) ==> id in Claimed(v0, chain0, k)
  {
    hide Claimed;
    GrownClaims(v0, chain0, v, chain, k);
  }

  lemma UsedAtMost(v: Volume)
    requires v.Sound()
    ensures v.used <= |v.table|
  {
    hide InUse;
    InUseAtMost(v.table);
  }

  // Two descriptors opened on an empty file, one of which writes to it: the other still remembers
  // that the file has no sector.
  method WriteBehindBack(fs: FileSystem, node: Node, data: seq<Byte>)
    returns (first: FileDescriptor, second: FileDescriptor, ghost chain: seq<int>)
    requires fs.Valid() && fs.Contents().Sound() && node.size == 0 && node.startSectorID == EOC && !node.isDirectory
    requires 0 < fs.poolCapacity && 0 < |data| < 0x1_0000_0000
    requires SectorsFor(|data|) <= |fs.Contents().table| - fs.usedSectors
    requires Ready(fs, [], SectorsFor(|data|))
    modifies fs, fs.drive, node
    ensures fs.Valid() && FileOk(fs.Contents(), node.startSectorID, node.size, chain) && node.size == |data|
    ensures HintOk(first.lastReadSectorIndex, first.lastReadSectorNo, chain)
    ensures !HintOk(second.lastReadSectorIndex, second.lastReadSectorNo, chain)
  {
    hide FileSystem.Valid, Volume.Sound, Ready, Reached, Overwritten, FileContent;
    first := new FileDescriptor(node.startSectorID);
    second := new FileDescriptor(node.startSectorID);
    EmptyFileOk(fs.Contents());
    ghost var image, buffer;
    var r;
    r, chain, image, buffer := FileWrite(fs, first, node, data, []);
    NoneIsEnd(fs.Contents(), node.startSectorID, node.size, chain);
    HintAfterGrowth(0, EOC, [], chain);
  }

  lemma EmptyFileOk(v: Volume)
    requires v.Sound()
    ensures FileOk(v, EOC, 0, []) && HintOk(0, EOC, [])
  {
  }

  lemma NoneIsEnd(v: Volume, start: int, size: int, chain: seq<int>)
    requires FileOk(v, start, size, chain)
    ensures (0 < size ==> chain != []) && forall i :: 0 <= i < |chain| ==> chain[i] != EOC
  {
  }

  // Follows the chain from the remembered sector, or from the start, to a sector of the file.
  method FindReadSector(fs: FileSystem, fd: FileDescriptor, start: int, target: int,
          ghost chain: seq<int>) returns (current: int)
    requires fs.Valid() && fs.Contents().Sound() && IsChain(fs.Contents().table, chain) && start == StartOf(chain)
    requires 0 <= target < |chain| && HintOk(fd.lastReadSectorIndex, fd.lastReadSectorNo, chain)
    modifies fs`tableCache, fs.drive
    ensures fs.Valid() && fs.Contents() == old(fs.Contents()) && current == chain[target]
    ensures old(fs.WholeTableCached()) ==> fs.WholeTableCached()
    ensures forall s :: s in fs.drive.releaseList ==> s in old(fs.drive.releaseList)
  {
    hide FileSystem.Valid, Volume.Sound, IsChain, FileSystem.WholeTableCached;
    ghost var v := fs.Contents();
    var index;
    index, current := fd.lastReadSectorIndex, fd.lastReadSectorNo;
    if index < 0 || index > target {
      index, current := 0, start;
    }
    while index != target
      invariant fs.Valid() && fs.Contents() == v && 0 <= index <= target && current == chain[index]
      invariant old(fs.WholeTableCached()) ==> fs.WholeTableCached()
      invariant forall s :: s in fs.drive.releaseList ==> s in old(fs.drive.releaseList)
      decreases target - index
    {
      ChainStep(v, chain, index);
      var r := fs.GetSectorEntryValue(current);
      index := index + 1;
      current := r.entry;
    }
  }

  ghost predicate Consecutive(chain: seq<int>, p: int, end: int)
    requires 0 <= p <= end <= |chain|
  {
    forall i :: p <= i < end ==> chain[i] == chain[p] + (i - p)
  }

  // Consecutive sectors of the file are consecutive on the disk.
  lemma RunIsSlice(data: seq<Sector>, chain: seq<int>, p: int, count: int)
    requires forall i :: 0 <= i < |chain| ==> 0 <= chain[i] < |data|
    requires 0 <= p && 1 <= count && p + count <= |chain| && Consecutive(chain, p, p + count)
    ensures 0 <= chain[p] && chain[p] + count <= |data|
    ensures data[chain[p]..chain[p] + count] == Along(data, chain)[p..p + count]
  {
    assert chain[p + count - 1] == chain[p] + (count - 1);
  }

  // The sectors from position p on whose ids are consecutive, at most eight and no more than
  // the remaining bytes need.
  method GatherRun(fs: FileSystem, first: int, at: int, remaining: int, ghost chain: seq<int>, ghost p: int)
    returns (count: int, readSize: int, next: int)
    requires fs.Valid() && fs.Contents().Sound() && IsChain(fs.Contents().table, chain)
    requires 0 <= p < |chain| && first == chain[p] && 0 <= at < SECTOR_SIZE && 0 < remaining
    modifies fs`tableCache, fs.drive
    ensures fs.Valid() && fs.Contents() == old(fs.Contents())
    ensures old(fs.WholeTableCached()) ==> fs.WholeTableCached()
    ensures forall s :: s in fs.drive.releaseList ==> s in old(fs.drive.releaseList)
    ensures 1 <= count <= MAX_SECTORS_PER_RW && p + count <= |chain|
    ensures Consecutive(chain, p, p + count)
    ensures 0 < readSize <= remaining && at + readSize <= SECTOR_SIZE * count
    ensures readSize < remaining ==> at + readSize == SECTOR_SIZE * count && next == NextInChain(chain, p + count - 1)
  {
    hide FileSystem.Valid, Volume.Sound, IsChain, FileSystem.WholeTableCached;
    ghost var v := fs.Contents();
    var current := first;
    count := 1;
    while true
      invariant fs.Valid() && fs.Contents() == v
      invariant old(fs.WholeTableCached()) ==> fs.WholeTableCached()
      invariant forall s :: s in fs.drive.releaseList ==> s in old(fs.drive.releaseList)
      invariant 1 <= count < MAX_SECTORS_PER_RW && p + count <= |chain| && current == chain[p + count - 1]
      invariant Consecutive(chain, p, p + count)
      invariant count > 1 ==> SECTOR_SIZE * count - at < remaining
      decreases MAX_SECTORS_PER_RW - count
    {
      ChainStep(v, chain, p + count - 1);
      var r := fs.GetSectorEntryValue(current);
      next := r.entry;
      if current + 1 == next {
        current := next;
        count := count + 1;
        readSize := count * SECTOR_SIZE - at;
        if remaining <= readSize {
          if at + remaining <= SECTOR_SIZE {
            count := count - 1;
          }
          readSize := remaining;
          break;
        }
        if count == MAX_SECTORS_PER_RW {
          ChainStep(v, chain, p + count - 1);
          r := fs.GetSectorEntryValue(current);
          next := r.entry;
          break;
        }
      } else {
        readSize := count * SECTOR_SIZE - at;
        if remaining <= readSize {
          readSize := remaining;
        }
        break;
      }
    }
  }

  lemma RunIsOwn(chain: seq<int>, p: int, count: int)
    requires 0 <= p && 1 <= count && p + count <= |chain| && Consecutive(chain, p, p + count)
    ensures forall id :: chain[p] <= id < chain[p] + count ==> id in SectorsOf(chain)
  {
    forall id | chain[p] <= id < chain[p] + count
      ensures id in SectorsOf(chain)
    {
      assert chain[p + (id - chain[p])] == id;
    }
  }

  // One transfer: the run's sectors, and of their bytes those behind the first `at`.
  method ReadRun(fs: FileSystem, first: int, count: int, at: int, readSize: int, ghost chain: seq<int>,
          ghost p: int, ghost size: int)
    returns (bytes: Option<seq<Byte>>)
    requires fs.Valid() && fs.Contents().Sound() && IsChain(fs.Contents().table, chain)
    requires 0 <= p && 1 <= count && p + count <= |chain| && first == chain[p] && Consecutive(chain, p, p + count)
    requires 0 <= at && 0 <= readSize && at + readSize <= SECTOR_SIZE * count
    requires SECTOR_SIZE * p + at + readSize <= size <= SECTOR_SIZE * |chain|
    modifies fs.drive
    ensures fs.Valid() && fs.Contents() == old(fs.Contents())
    ensures forall s :: s in fs.drive.releaseList ==> s in old(fs.drive.releaseList)
    ensures bytes ==
            if DiskDrives.EvictsInside(old(fs.drive.State()), fs.DataBase() + first, fs.DataBase() + first + count)
            then None
            else Some(FileContent(fs.Contents(), chain, size)
                                 [SECTOR_SIZE * p + at..SECTOR_SIZE * p + at + readSize])
  {
    hide FileSystem.Valid, Volume.Sound, IsChain, Reached, Consecutive, Content, Along, DiskDrives.EvictsInside;
    ghost var v := fs.Contents();
    ghost var image := ReachedAtFirst(v, chain);
    RunIsSlice(v.data, chain, p, count);
    var sectors := fs.xRead(first, count);
    if sectors.None? {
      return None;
    }
    ContentOfRun(image, size, p, count, at, readSize);
    bytes := Some(Content(sectors.value, SECTOR_SIZE * count)[at..at + readSize]);
  }

  // The next run: finding it and transferring it.
  method ReadNext(fs: FileSystem, first: int, at: int, remaining: int, ghost chain: seq<int>, ghost p: int,
                  ghost size: int)
    returns (count: int, readSize: int, next: int, bytes: Option<seq<Byte>>)
    requires fs.Valid() && fs.Contents().Sound() && IsChain(fs.Contents().table, chain)
    requires 0 <= p < |chain| && first == chain[p] && 0 <= at < SECTOR_SIZE && 0 < remaining
    requires SECTOR_SIZE * p + at + remaining <= size <= SECTOR_SIZE * |chain|
    modifies fs`tableCache, fs.drive
    ensures fs.Valid() && fs.Contents() == old(fs.Contents())
    ensures old(fs.WholeTableCached()) ==> fs.WholeTableCached()
    ensures forall s :: s in fs.drive.releaseList ==> s in old(fs.drive.releaseList)
    ensures 1 <= count && p + count <= |chain| && 0 < readSize <= remaining
    ensures readSize < remaining ==> at + readSize == SECTOR_SIZE * count && next == NextInChain(chain, p + count - 1)
    ensures bytes.Some? ==>
              bytes.value == FileContent(fs.Contents(), chain, size)
                                        [SECTOR_SIZE * p + at..SECTOR_SIZE * p + at + readSize]
    ensures old(fs.Apart(SectorsOf(chain))) ==> bytes.Some?
  {
    hide FileSystem.Valid, Volume.Sound, IsChain, FileContent, Consecutive, FileSystem.WholeTableCached, SectorsOf;
    hide DiskDrives.EvictsInside;
    count, readSize, next := GatherRun(fs, first, at, remaining, chain, p);
    RunIsOwn(chain, p, count);
    if fs.Apart(SectorsOf(chain)) {
      fs.ApartSafe(SectorsOf(chain), first, count);
    }
    bytes := ReadRun(fs, first, count, at, readSize, chain, p, size);
  }

  // How many bytes a read returns: to the end of the file if zero bytes were asked for.
  function ReadLength(off: int, wanted: int, size: int): int {
    if off >= size then 0 else if 0 < wanted < size - off then wanted else size - off
  }

  datatype ReadOutcome = BytesRead | ReadRefused | ReadStopped

  // Reads from the descriptor's offset, run by run; the same bytes as sector by sector.
  method FileRead(fs: FileSystem, fd: FileDescriptor, node: Node, wanted: int, ghost chain: seq<int>)
    returns (r: ReadOutcome, bytes: seq<Byte>)
    requires fs.Valid() && FileOk(fs.Contents(), node.startSectorID, node.size, chain)
    requires HintOk(fd.lastReadSectorIndex, fd.lastReadSectorNo, chain)
    requires 0 <= fd.offset && 0 <= wanted && ReadLength(fd.offset, wanted, node.size) < 0x8000_0000
    modifies fs`tableCache, fs.drive, fd`lastReadSectorIndex, fd`lastReadSectorNo
    ensures fs.Valid() && fs.Contents() == old(fs.Contents())
    ensures r == ReadRefused <==> node.isDirectory
    ensures r == ReadStopped ==> !old(fs.Apart(SectorsOf(chain)))
    ensures old(fs.WholeTableCached()) ==> fs.WholeTableCached()
    ensures forall s :: s in fs.drive.releaseList ==> s in old(fs.drive.releaseList)
    ensures HintOk(fd.lastReadSectorIndex, fd.lastReadSectorNo, chain)
    ensures r == BytesRead && fd.offset < node.size ==>
              && |bytes| == (if 0 < wanted < node.size - fd.offset then wanted else node.size - fd.offset)
              && bytes == FileContent(fs.Contents(), chain, node.size)[fd.offset..fd.offset + |bytes|]
    ensures r == BytesRead && fd.offset >= node.size ==> bytes == []
  {
    hide FileSystem.Valid, Volume.Sound, IsChain, FileContent, FileSystem.WholeTableCached, SectorsOf;
    hide ReadLength;
    r, bytes := if node.isDirectory then ReadRefused else BytesRead, [];
    if node.isDirectory || fd.offset >= node.size {
      return;
    }
    var target := fd.offset / SECTOR_SIZE;
    var current := FindReadSector(fs, fd, node.startSectorID, target, chain);
    fd.lastReadSectorIndex, fd.lastReadSectorNo := target, current;
    ReadLengthFits(fd.offset, wanted, node.size);
    var ok, lastIndex, lastNo;
    ok, bytes, lastIndex, lastNo :=
      ReadRuns(fs, current, fd.offset, ReadLength(fd.offset, wanted, node.size), target, chain, node.size);
    if ok {
      fd.lastReadSectorIndex, fd.lastReadSectorNo := lastIndex, lastNo;
    } else {
      r := ReadStopped;
    }
  }

  // The runs from a sector of the file on, until that many bytes are read.
  method ReadRuns(fs: FileSystem, first: int, off: int, total: int, target: int, ghost chain: seq<int>, ghost size: int)
    returns (ok: bool, bytes: seq<Byte>, lastIndex: int, lastNo: int)
    requires fs.Valid() && fs.Contents().Sound() && IsChain(fs.Contents().table, chain)
    requires 0 <= off && 0 < total <= size - off && target == off / SECTOR_SIZE && size <= SECTOR_SIZE * |chain|
    requires target < |chain| && first == chain[target]
    modifies fs`tableCache, fs.drive
    ensures fs.Valid() && fs.Contents() == old(fs.Contents())
    ensures old(fs.Apart(SectorsOf(chain))) ==> ok
    ensures old(fs.WholeTableCached()) ==> fs.WholeTableCached()
    ensures forall s :: s in fs.drive.releaseList ==> s in old(fs.drive.releaseList)
    ensures ok ==> 0 <= lastIndex < |chain| && lastNo == chain[lastIndex]
    ensures ok ==> bytes == FileContent(fs.Contents(), chain, size)[off..off + total]
  {
    hide FileSystem.Valid, Volume.Sound, IsChain, FileContent, FileSystem.WholeTableCached, SectorsOf;
    ghost var v := fs.Contents();
    ghost var content := FileContent(v, chain, size);
    var current, at, remaining, count := first, off % SECTOR_SIZE, total, 0;
    ok, bytes, lastIndex, lastNo := true, [], target, current;
    while current != EOC && remaining > 0
      invariant fs.Valid() && fs.Contents() == v
      invariant old(fs.WholeTableCached()) ==> fs.WholeTableCached()
      invariant forall s :: s in fs.drive.releaseList ==> s in old(fs.drive.releaseList)
      invariant 0 <= remaining && |bytes| + remaining == total && bytes == content[off..off + |bytes|]
      invariant 0 <= lastIndex < |chain| && lastNo == chain[lastIndex] && 0 <= count
      invariant remaining > 0 ==> lastIndex + count < |chain| && current == chain[lastIndex + count]
                                  && off + |bytes| == SECTOR_SIZE * (lastIndex + count) + at && 0 <= at < SECTOR_SIZE
      decreases remaining
    {
      var start := current;
      lastIndex := lastIndex + count;
      lastNo := current;
      var readSize;
      var part: Option<seq<Byte>>;
      count, readSize, current, part := ReadNext(fs, start, at, remaining, chain, lastIndex, size);
      if part.None? {
        ok := false;
        return;
      }
      assert content[off..off + |bytes|] + content[off + |bytes|..off + |bytes| + readSize] ==
             content[off..off + |bytes| + readSize];
      bytes := bytes + part.value;
      remaining := remaining - readSize;
      at := 0;
    }
    SectorAt(v, chain, if remaining > 0 then lastIndex + count else 0);
  }

  lemma ReadLengthFits(off: int, wanted: int, size: int)
    requires 0 <= off < size && 0 <= wanted
    ensures ReadLength(off, wanted, size) == if 0 < wanted < size - off then wanted else size - off
  {
  }

  // Reading back where one wrote gives what was written, if there was room for it.
  method WriteThenRead(fs: FileSystem, fd: FileDescriptor, node: Node, data: seq<Byte>, ghost chain0: seq<int>)
    returns (r: WriteOutcome, read: ReadOutcome, bytes: seq<Byte>)
    requires fs.Valid() && FileOk(fs.Contents(), node.startSectorID, node.size, chain0) && 0 < fs.poolCapacity
    requires HintOk(fd.lastReadSectorIndex, fd.lastReadSectorNo, chain0)
    requires 0 <= fd.offset <= node.size && fd.offset + |data| < 0x1_0000_0000 && |data| < 0x8000_0000
    modifies fs, fs.drive, fd`lastReadSectorIndex, fd`lastReadSectorNo, node
    ensures r != Stopped ==>
              r == if data == [] || node.isDirectory then Refused
                   else if Needed(fd.offset, |data|, chain0) <= old(|fs.Contents().table| - fs.usedSectors) then Written
                   else NoSpace
    ensures r == Written && read == BytesRead ==> bytes == data
    ensures old(Ready(fs, chain0, Needed(fd.offset, |data|, chain0))) ==>
              r != Stopped && (r == Written ==> read == BytesRead)
  {
    hide FileSystem.Valid, FileOk, HintOk, FileContent, Reached, Overwritten, Ready;
    var size := node.size;
    FileOkFacts(fs.Contents(), node.startSectorID, size, chain0);
    ghost var content := FileContent(fs.Contents(), chain0, size);
    ghost var chain, image, buffer;
    r, chain, image, buffer := FileWrite(fs, fd, node, data, chain0);
    read, bytes := ReadRefused, [];
    if r == Written {
      FileOkFacts(fs.Contents(), node.startSectorID, node.size, chain);
      read, bytes := FileRead(fs, fd, node, |data|, chain);
      assert Spliced(content, fd.offset, data)[fd.offset..fd.offset + |data|] == data;
    }
  }

  lemma FileOkFacts(v: Volume, start: int, size: int, chain: seq<int>)
    requires FileOk(v, start, size, chain)
    ensures v.Sound() && IsChain(v.table, chain) && 0 <= size <= SECTOR_SIZE * |chain|
  {
  }

  // Deleting a file frees its chain, sector by sector.
  method DeleteChain(fs: FileSystem, start: int, ghost chain: seq<int>)
    requires fs.Valid() && fs.Contents().Sound() && IsChain(fs.Contents().table, chain) && start == StartOf(chain)
    modifies fs, fs.drive
    ensures fs.Valid() && fs.Contents() == FreedAll(old(fs.Contents()), chain, fs.poolCapacity)
    ensures old(fs.WholeTableCached()) ==> fs.WholeTableCached()
    ensures forall s :: s in fs.drive.releaseList ==> s in old(fs.drive.releaseList)
  {
    hide FileSystem.Valid, FileSystem.WholeTableCached;
    ghost var v0 := fs.Contents();
    var current := start;
    ghost var rest := chain;
    while current != EOC
      invariant fs.Valid() && fs.Contents().Sound() && IsChain(fs.Contents().table, rest) && current == StartOf(rest)
      invariant |fs.Contents().table| == |v0.table| && (old(fs.WholeTableCached()) ==> fs.WholeTableCached())
      invariant forall s :: s in fs.drive.releaseList ==> s in old(fs.drive.releaseList)
      invariant FreedAll(fs.Contents(), rest, fs.poolCapacity) == FreedAll(v0, chain, fs.poolCapacity)
      decreases |rest|
    {
      ghost var v := fs.Contents();
      ChainStep(v, rest, 0);
      InUseEntries(v.table, rest);
      FreeSound(v, current, fs.poolCapacity);
      RestIsChain(v, rest, fs.poolCapacity);
      current := fs.DeAllocateSector(current);
      rest := rest[1..];
    }
    SectorAt(fs.Contents(), rest, 0);
  }
}
