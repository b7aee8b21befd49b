// The table of a mounted file system behind its block cache, and the pool of free sectors
// (filesystem/FileSystem.cpp, filesystem/FileSystem.h), on a cached drive.
module FileSystems {
  import opened Wrappers
  import opened Sectors
  import opened DiskCaches
  import opened DiskDrives
  import opened Volumes
  import opened TableCaches
  import opened FreeSectors

  datatype Entry = Value(entry: int) | InvalidClusterId

  // What became of an allocation: a free sector, none, a pool refilled with a sector in use or
  // with one twice, or a refill that followed an evicted entry.
  datatype Allocation = Given(id: int) | NoneFree | Misled | Faulted

  // The n table sectors of a drive, as words.
  function DiskTable(view: seq<Sector>, base: int, n: int): (blocks: seq<seq<int>>)
    requires 0 <= base <= base + n <= |view| && 0 <= n
    ensures |blocks| == n
  {
    seq(n, b requires 0 <= b < n => WordsOf(view[base + b]))
  }

  lemma DiskTableStored(view: seq<Sector>, base: int, n: int, b: int, words: seq<int>)
    requires 0 <= base <= base + n <= |view| && 0 <= b < n && AreWords(words)
    ensures var view' := Stored(view, base + b, [BytesOf(words)]);
            && DiskTable(view', base, n) == DiskTable(view, base, n)[b := words]
            && view'[base + n..] == view[base + n..]
  {
    hide WordsOf, BytesOf;
    WordsRoundTrip(words);
    StoredAt(view, base + b, [BytesOf(words)]);
  }

  lemma DiskWords(view: seq<Sector>, base: int, n: int)
    requires 0 <= base <= base + n <= |view| && 0 <= n
    ensures forall b :: 0 <= b < n ==> AreWords(DiskTable(view, base, n)[b])
  {
    forall b | 0 <= b < n
      ensures AreWords(DiskTable(view, base, n)[b])
    {
      BytesRoundTrip(view[base + b]);
    }
  }

  // The table of a freshly mounted drive, entry by entry.
  ghost function Flattened(disk: seq<seq<int>>): (table: seq<int>)
    requires forall b :: 0 <= b < |disk| ==> AreWords(disk[b])
    ensures |table| == 128 * |disk|
  {
    seq(128 * |disk|, id requires 0 <= id < 128 * |disk| => assert AreWords(disk[id / 128]); disk[id / 128][id % 128])
  }

  lemma NothingCached(disk: seq<seq<int>>)
    requires forall b :: 0 <= b < |disk| ==> AreWords(disk[b])
    ensures Caches([], disk, Flattened(disk))
    ensures forall id :: 0 <= id < 128 * |disk| ==> 0 <= Flattened(disk)[id] < 0x1_0000_0000
  {
  }

  ghost predicate OnDisk(cache: seq<Block>, disk: seq<seq<int>>, k: int) {
    forall i :: 0 <= i < k && i < |cache| ==> 0 <= cache[i].id < |disk| && disk[cache[i].id] == cache[i].words
  }

  lemma FlushedOneMore(cache: seq<Block>, disk: seq<seq<int>>, table: seq<int>, i: int)
    requires Caches(cache, disk, table) && 0 <= i < |cache| && OnDisk(cache, disk, i)
    requires forall id :: 0 <= id < |table| ==> 0 <= table[id] < 0x1_0000_0000
    ensures 0 <= cache[i].id < |disk| && AreWords(cache[i].words)
    ensures cache[i].writes == 0 ==> OnDisk(cache, disk, i + 1)
    ensures OnDisk(cache, disk[cache[i].id := cache[i].words], i + 1)
  {
  }

  lemma CacheFacts(cache: seq<Block>, disk: seq<seq<int>>, table: seq<int>)
    requires Caches(cache, disk, table)
    ensures Sorted(cache) && |cache| <= MAX_SECTORS_IN_TABLE_CACHE
    ensures |table| == 128 * |disk|
    ensures forall b :: Cached(cache, b) ==> 0 <= b < |disk|
    ensures |cache| > 1 ==> forall b :: Cached(cache[1..], b) ==> Cached(cache, b)
  {
  }

  lemma SameBlocksCached(cache: seq<Block>, i: int, words: seq<int>, writes: int, n: int)
    requires 0 <= i < |cache|
    ensures var cache' := cache[i := Block(cache[i].id, words, writes)];
            (forall b :: 0 <= b < n ==> Cached(cache, b)) ==> forall b :: 0 <= b < n ==> Cached(cache', b)
  {
    var cache' := cache[i := Block(cache[i].id, words, writes)];
    assert forall k :: 0 <= k < |cache| ==> cache'[k].id == cache[k].id;
    forall b | Cached(cache, b)
      ensures Cached(cache', b)
    {
    }
  }

  lemma HeldAt(cache: seq<Block>, disk: seq<seq<int>>, table: seq<int>, i: int, id: int)
    requires Caches(cache, disk, table) && 0 <= i < |cache| && 0 <= id < |table| && cache[i].id == id / 128
    ensures |cache[i].words| == 128 && table[id] == cache[i].words[id % 128]
  {
  }

  // The elements of `list` were pushed to a queue until it was full; `stop` says that one did not
  // find room.
  ghost predicate Pushed(before: seq<int>, list: seq<int>, after: seq<int>, stop: bool, capacity: nat) {
    && |after| <= capacity
    && if stop then |before| + |list| > capacity && after == Filled(before, list, capacity) else after == before + list
  }

  lemma PushedIsFilled(before: seq<int>, list: seq<int>, after: seq<int>, stop: bool, capacity: nat)
    requires Pushed(before, list, after, stop, capacity)
    ensures after == Filled(before, list, capacity)
  {
  }

  lemma PushedFits(before: seq<int>, list: seq<int>, after: seq<int>, stop: bool, capacity: nat)
    requires Pushed(before, list, after, stop, capacity)
    ensures |after| <= capacity
  {
  }

  lemma FilledFull(pool: seq<int>, list: seq<int>, capacity: nat)
    requires |pool| == capacity
    ensures Filled(pool, list, capacity) == pool
  {
  }

  // A push of the whole list stops where that of its part `here` does.
  lemma StopsThere(before: seq<int>, all: seq<int>, pool: seq<int>, here: seq<int>, rest: seq<int>, after: seq<int>,
                   capacity: nat)
    requires pool + (here + rest) == before + all && |pool| <= capacity && Pushed(pool, here, after, true, capacity)
    ensures Pushed(before, all, after, true, capacity)
  {
    assert pool + here + rest == before + all;
    assert |pool + here| <= |before + all|;
  }

  lemma GoesOn(before: seq<int>, all: seq<int>, pool: seq<int>, here: seq<int>, rest: seq<int>)
    requires pool + (here + rest) == before + all
    ensures (pool + here) + rest == before + all
  {
  }

  // A table read of the scan follows an evicted entry: the scan is at block i, the drive in state
  // c, and there is room for `room` more entries; it stops when there is none for one it finds.
  ghost predicate ScanFaults(c: Cache<Sector>, cache: seq<Block>, disk: seq<seq<int>>, base: int, i: int, room: int)
    requires 0 <= i <= |disk| && 0 <= base && base + |disk| <= |c.disk|
    decreases |disk| - i
  {
    if i == |disk| || room < 0 then false
    else if Cached(cache, i) then ScanFaults(c, cache, disk, base, i + 1, room)
    else
      var end := WindowEnd(|disk|, i);
      || EvictsInside(c, base + i, base + end)
      || ScanFaults(AfterReads(c, c.tree, base + i, base + end), cache, disk, base, end,
           room - |FreeBlocks(disk, i, end)|)
  }

  lemma NoRoomNoFault(c: Cache<Sector>, cache: seq<Block>, disk: seq<seq<int>>, base: int, i: int, room: int)
    requires 0 <= i <= |disk| && 0 <= base && base + |disk| <= |c.disk| && room < 0
    ensures !ScanFaults(c, cache, disk, base, i, room)
  {
  }

  lemma {:induction false} WholeCacheNeverFaults(c: Cache<Sector>, cache: seq<Block>, disk: seq<seq<int>>, base: int,
                                                 i: int, room: int)
    requires 0 <= i <= |disk| && 0 <= base && base + |disk| <= |c.disk|
    requires forall b :: 0 <= b < |disk| ==> Cached(cache, b)
    ensures !ScanFaults(c, cache, disk, base, i, room)
    decreases |disk| - i
  {
    if i < |disk| {
      WholeCacheNeverFaults(c, cache, disk, base, i + 1, room);
    }
  }

  lemma {:induction false} ReadsShrinkList<S>(c: Cache<S>, tree0: map<int, int>, lo: int, i: int)
    requires 0 <= lo <= i <= |c.disk|
    ensures forall s :: s in AfterReads(c, tree0, lo, i).list ==> s in c.list
    decreases i - lo
  {
    hide Clean;
    if lo < i {
      ReadsShrinkList(c, tree0, lo, i - 1);
    }
  }

  // Nor does a scan while no table sector is on the release list.
  lemma {:induction false} PinnedNeverFaults(c: Cache<Sector>, cache: seq<Block>, disk: seq<seq<int>>, base: int,
                                             i: int, room: int)
    requires 0 <= i <= |disk| && 0 <= base && base + |disk| <= |c.disk|
    requires forall s :: s in c.list ==> !(base <= s < base + |disk|)
    ensures !ScanFaults(c, cache, disk, base, i, room)
    decreases |disk| - i
  {
    hide EvictsInside, AfterReads;
    if i < |disk| && 0 <= room {
      if Cached(cache, i) {
        PinnedNeverFaults(c, cache, disk, base, i + 1, room);
      } else {
        var end := WindowEnd(|disk|, i);
        PinnedReads(c, base + i, base + end);
        ReadsShrinkList(c, c.tree, base + i, base + end);
        PinnedNeverFaults(AfterReads(c, c.tree, base + i, base + end), cache, disk, base, end,
                          room - |FreeBlocks(disk, i, end)|);
      }
    }
  }

  lemma PinnedReads<S>(c: Cache<S>, lo: int, hi: int)
    requires forall s :: s in c.list ==> !(lo <= s < hi)
    ensures !EvictsInside(c, lo, hi)
  {
    NothingInteriorListed(c, lo, hi);
  }

  // A refill of the empty pool keeps the volume sound exactly if its windows are clear, and then
  // leaves it empty only if no entry is free.
  lemma RefillSoundIff(cache: seq<Block>, disk: seq<seq<int>>, v: Volume, capacity: nat)
    requires Caches(cache, disk, v.table) && v.Sound() && v.pool == [] && 0 < capacity
    requires forall b :: 0 <= b < |disk| ==> |disk[b]| == 128
    ensures var pool, clear := Filled([], Scanned(cache, disk), capacity),
                               WindowsClear(cache, disk, 0, RoomLeft(cache, capacity));
            && (clear <==> ListsFree(v.table, pool)) && (v.(pool := pool).Sound() <==> clear)
            && (clear && pool == [] ==> forall id :: 0 <= id < |v.table| ==> v.Entry(id) != 0)
  {
    hide Caches, WindowsClear, Scanned, Filled;
    PoolSoundIff(cache, disk, v.table, capacity);
    var pool := Filled([], Scanned(cache, disk), capacity);
    if WindowsClear(cache, disk, 0, RoomLeft(cache, capacity)) {
      PoolListsFree(cache, disk, v.table, capacity);
    }
    forall i | 0 <= i < |pool|
      ensures pool[i] in pool
    {
    }
    assert forall x :: x in pool ==> exists i :: 0 <= i < |pool| && pool[i] == x;
  }

  lemma SoundPool(v: Volume)
    requires v.Sound() && v.pool != []
    ensures 0 < v.pool[0] < |v.table|
  {
  }

  lemma PinnedWrites<S>(c: Cache<S>, lo: int, hi: int)
    requires lo <= hi && forall s :: s in c.list ==> !(lo <= s < hi)
    ensures !WriteEvictsInside(c, lo, hi - lo)
  {
    hide WriteEvictsInside, WrittenFirst, DirtySectors;
    NothingListedInside(c, lo, hi - lo);
  }

  lemma DataSlice(view: seq<Sector>, base: int, n: int, sector: int, count: int)
    requires 0 <= base && 0 < n && base + n + 128 * n <= |view|
    requires 0 <= sector && 0 <= count && sector + count <= 128 * n
    ensures view[base + n + sector..base + n + sector + count] == view[base + n..][..128 * n][sector..sector + count]
  {
  }

  lemma DataStored(view: seq<Sector>, base: int, n: int, sector: int, data: seq<Sector>)
    requires 0 <= base && 0 < n && base + n + 128 * n <= |view|
    requires 0 <= sector && sector + |data| <= 128 * n
    ensures var view' := Stored(view, base + n + sector, data);
            && DiskTable(view', base, n) == DiskTable(view, base, n)
            && view'[base + n..][..128 * n] == Stored(view[base + n..][..128 * n], sector, data)
  {
    StoredAt(view, base + n + sector, data);
    StoredAt(view[base + n..][..128 * n], sector, data);
  }

  lemma SingleSectorNeverFaults<S>(c: Cache<S>, sector: int, end: int)
    requires end == sector + 1
    ensures !EvictsInside(c, sector, end) && !WriteEvictsInside(c, sector, 1)
  {
    hide Follows, WrittenFirst, AfterFirstClean, FirstClean, DirtySectors;
    var dirty, list := DirtySectors(c.dirty) + WrittenFirst(c.tree, sector, 1), Evictable(c);
    if sector in c.tree {
      FollowsHit(c.tree, list, dirty, {}, sector, end);
      NothingFollowed(c.tree, list, dirty + {sector}, {}, end, end);
    } else {
      FollowsMiss(c.tree, list, dirty, {}, sector, end);
      NothingFollowed(c.tree, AfterFirstClean(list, dirty), dirty, {} + FirstClean(list, dirty), end, end);
    }
  }

  class FileSystem {
    const drive: DiskDrive<Sector>
    const tableSize: int
    const poolCapacity: nat
    var usedSectors: int
    var tableCache: seq<Block>
    var freePool: seq<int>
    ghost var table: seq<int>

    ghost predicate Valid()
      reads this, drive
    {
      && drive.Valid()
      && 0 < tableSize && TableBase() + tableSize + 128 * tableSize <= |drive.disk|
      && (forall i :: 0 <= i < |table| ==> 0 <= table[i] < 0x1_0000_0000)
      && Caches(tableCache, DiskTable(drive.View(), TableBase(), tableSize), table)
      && |freePool| <= poolCapacity
    }

    function TableBase(): int {
      drive.lbaStart + 1 + RESERVED_SECTORS
    }

    function DataBase(): int {
      TableBase() + tableSize
    }

    // Every block of the table is cached.
    ghost predicate WholeTableCached()
      reads this
    {
      forall b :: 0 <= b < tableSize ==> Cached(tableCache, b)
    }

    ghost function Data(): seq<Sector>
      requires 0 < tableSize && TableBase() + tableSize + 128 * tableSize <= |drive.disk|
      reads drive
    {
      drive.View()[TableBase() + tableSize..][..128 * tableSize]
    }

    // What the file system holds, seen without the table cache and the sector cache.
    ghost function Contents(): (v: Volume)
      requires Valid()
      reads this, drive
      ensures |v.table| == |v.data| == 128 * tableSize
    {
      Volume(table, freePool, usedSectors, Data())
    }

    // A drive is mounted with an empty table cache and an empty pool.
    constructor Mount(drive: DiskDrive<Sector>, tableSize: int, usedSectors: int, poolCapacity: nat)
      requires drive.Valid() && 0 < tableSize
      requires drive.lbaStart + 1 + RESERVED_SECTORS + tableSize + 128 * tableSize <= |drive.disk|
      ensures Valid() && this.drive == drive && this.tableSize == tableSize && this.poolCapacity == poolCapacity
      ensures freePool == [] && tableCache == [] && this.usedSectors == usedSectors
      ensures table == Flattened(DiskTable(drive.View(), TableBase(), tableSize))
    {
      hide Caches;
      this.drive, this.tableSize, this.usedSectors, this.poolCapacity := drive, tableSize, usedSectors, poolCapacity;
      tableCache, freePool := [], [];
      var base := drive.lbaStart + 1 + RESERVED_SECTORS;
      ghost var disk := DiskTable(drive.View(), base, tableSize);
      DiskWords(drive.View(), base, tableSize);
      NothingCached(disk);
      table := Flattened(disk);
    }

    // Reads the block of the entry from the disk into the cache at its place.
    method Load(pos: int, block: int)
      requires Valid() && |tableCache| < MAX_SECTORS_IN_TABLE_CACHE && 0 <= block < tableSize
      requires 0 <= pos <= |tableCache| && !Cached(tableCache, block)
      requires forall i :: 0 <= i < pos ==> tableCache[i].id < block
      requires forall i :: pos <= i < |tableCache| ==> block < tableCache[i].id
      modifies `tableCache, drive
      ensures Valid() && Contents() == old(Contents()) && Cached(tableCache, block)
      ensures forall s :: s in drive.releaseList ==> s in old(drive.releaseList)
    {
      hide Caches, Cached, EvictsInside, WriteEvictsInside;
      ghost var disk := DiskTable(drive.View(), TableBase(), tableSize);
      SingleSectorNeverFaults(drive.State(), TableBase() + block, TableBase() + block + 1);
      var r := drive.Read(TableSectorId(block), 1);
      InsertKeeps(tableCache, disk, table, pos, block);
      assert disk[block] == WordsOf(drive.View()[TableBase() + block]);
      tableCache := Inserted(tableCache, pos, Block(block, WordsOf(r.data[0]), 0));
    }

    // Writes the first blocks back that were written to, then drops them, unless that would be
    // the whole cache.
    method FlushTableCache(count: int)
      requires Valid() && 0 <= count
      modifies `tableCache, drive
      ensures Valid() && Contents() == old(Contents())
      ensures forall s :: s in drive.releaseList ==> s in old(drive.releaseList)
      ensures tableCache == if count < |old(tableCache)| then old(tableCache)[count..] else old(tableCache)
      ensures count >= |old(tableCache)| ==>
                forall i :: 0 <= i < |tableCache| ==>
                    DiskTable(drive.View(), TableBase(), tableSize)[tableCache[i].id] == tableCache[i].words
    {
      hide Caches, Cached;
      var flushed := if count > |tableCache| then |tableCache| else count;
      for i := 0 to flushed
        invariant Valid() && Contents() == old(Contents()) && tableCache == old(tableCache)
        invariant forall s :: s in drive.releaseList ==> s in old(drive.releaseList)
        invariant OnDisk(tableCache, DiskTable(drive.View(), TableBase(), tableSize), i)
      {
        FlushBlock(i);
      }
      if flushed < |tableCache| {
        DropKeeps(tableCache, DiskTable(drive.View(), TableBase(), tableSize), table, flushed);
        tableCache := tableCache[flushed..];
      }
    }

    method FlushBlock(i: int)
      requires Valid() && 0 <= i < |tableCache|
      requires OnDisk(tableCache, DiskTable(drive.View(), TableBase(), tableSize), i)
      modifies drive
      ensures Valid() && Contents() == old(Contents())
      ensures forall s :: s in drive.releaseList ==> s in old(drive.releaseList)
      ensures OnDisk(tableCache, DiskTable(drive.View(), TableBase(), tableSize), i + 1)
    {
      hide Cache.Valid, AfterWrite, Caches, Cached, OnDisk, EvictsInside, WriteEvictsInside, Stored, WordsOf, BytesOf;
      var block := tableCache[i];
      ghost var disk := DiskTable(drive.View(), TableBase(), tableSize);
      FlushedOneMore(tableCache, disk, table, i);
      if block.writes == 0 {
        return;
      }
      DiskTableStored(drive.View(), TableBase(), tableSize, block.id, block.words);
      FlushKeeps(tableCache, disk, table, i);
      SingleSectorNeverFaults(drive.State(), TableBase() + block.id, TableBase() + block.id + 1);
      var _ := drive.Write(TableSectorId(block.id), [BytesOf(block.words)]);
    }

    method AddToTableCache(id: int)
      requires Valid() && 0 <= id < 128 * tableSize
      modifies `tableCache, drive
      ensures Valid() && Contents() == old(Contents()) && Cached(tableCache, id / ENTRIES_PER_TABLE_SECTOR)
      ensures forall s :: s in drive.releaseList ==> s in old(drive.releaseList)
    {
      hide Caches;
      CacheFacts(tableCache, DiskTable(drive.View(), TableBase(), tableSize), table);
      if |tableCache| == MAX_SECTORS_IN_TABLE_CACHE {
        FlushTableCache(1);
        CacheFacts(tableCache, DiskTable(drive.View(), TableBase(), tableSize), table);
      }
      var found, pos := BinarySearch(tableCache, id / ENTRIES_PER_TABLE_SECTOR);
      if found {
        return;
      }
      Load(pos, id / ENTRIES_PER_TABLE_SECTOR);
    }

    // The cached block of an entry, loaded first if it is absent.
    method GetSectorEntryFromCache(id: int) returns (i: int)
      requires Valid() && 0 <= id < 128 * tableSize
      modifies `tableCache, drive
      ensures Valid() && Contents() == old(Contents())
      ensures 0 <= i < |tableCache| && tableCache[i].id == id / ENTRIES_PER_TABLE_SECTOR
      ensures |tableCache[i].words| == 128 && table[id] == tableCache[i].words[id % 128]
      ensures old(WholeTableCached()) ==> WholeTableCached()
      ensures forall s :: s in drive.releaseList ==> s in old(drive.releaseList)
    {
      hide Caches;
      CacheFacts(tableCache, DiskTable(drive.View(), TableBase(), tableSize), table);
      var found;
      found, i := BinarySearch(tableCache, id / ENTRIES_PER_TABLE_SECTOR);
      if !found {
        AddToTableCache(id);
        CacheFacts(tableCache, DiskTable(drive.View(), TableBase(), tableSize), table);
        found, i := BinarySearch(tableCache, id / ENTRIES_PER_TABLE_SECTOR);
      }
      HeldAt(tableCache, DiskTable(drive.View(), TableBase(), tableSize), table, i, id);
    }

    // The guards of the accessors compare with the table's size in entries.
    predicate BeyondTable(id: int) {
      id > tableSize * SECTOR_SIZE / 4
    }

    method GetSectorEntryValue(id: int) returns (r: Entry)
      requires Valid() && 0 <= id && id != 128 * tableSize
      modifies `tableCache, drive
      ensures Valid() && Contents() == old(Contents())
      ensures r == if id < 128 * tableSize then Value(Contents().Entry(id)) else InvalidClusterId
      ensures old(WholeTableCached()) ==> WholeTableCached()
      ensures forall s :: s in drive.releaseList ==> s in old(drive.releaseList)
    {
      hide Caches;
      if BeyondTable(id) {
        return InvalidClusterId;
      }
      var i := GetSectorEntryFromCache(id);
      r := Value(Low28(tableCache[i].words[id % ENTRIES_PER_TABLE_SECTOR]));
    }

    method SetSectorEntryValue(id: int, value: int) returns (ok: bool)
      requires Valid() && 0 <= id && id != 128 * tableSize
      modifies this, drive
      ensures Valid() && ok == (id < 128 * tableSize)
      ensures Contents() == if ok then old(Contents()).Set(id, value) else old(Contents())
      ensures ok ==> EntryChanged(old(table), table, id, value) && freePool == old(freePool)
                     && usedSectors == old(usedSectors)
                                       + (if value == 0x0FFF_FFFF then 1 else if value == 0 then -1 else 0)
      ensures old(WholeTableCached()) ==> WholeTableCached()
      ensures forall s :: s in drive.releaseList ==> s in old(drive.releaseList)
    {
      hide Caches;
      if BeyondTable(id) {
        return false;
      }
      SetIs(Contents(), id, value);
      UpdateUsedSectors(value);
      var i := GetSectorEntryFromCache(id);
      var block := tableCache[i];
      var offset := id % ENTRIES_PER_TABLE_SECTOR;
      var word := WithLow28(block.words[offset], value);
      WriteKeeps(tableCache, DiskTable(drive.View(), TableBase(), tableSize), table, i, offset, word);
      SameBlocksCached(tableCache, i, block.words[offset := word], block.writes + 1, tableSize);
      tableCache := tableCache[i := Block(block.id, block.words[offset := word], block.writes + 1)];
      table := table[id := word];
      ok := true;
    }

    method UpdateUsedSectors(value: int)
      modifies `usedSectors
      ensures usedSectors == if value == EOC then old(usedSectors) + 1
                             else if value == 0 then old(usedSectors) - 1 else old(usedSectors)
    {
      if value == EOC {
        usedSectors := usedSectors + 1;
      } else if value == 0 {
        usedSectors := usedSectors - 1;
      }
    }

    // Pushes the free entries of one table block.
    method PushFree(words: seq<int>, first: int) returns (stop: bool)
      requires |freePool| <= poolCapacity
      modifies `freePool
      ensures Pushed(old(freePool), FreeFrom(words, first, 0), freePool, stop, poolCapacity)
    {
      for j := 0 to |words|
        invariant |freePool| <= poolCapacity
        invariant freePool + FreeFrom(words, first, j) == old(freePool) + FreeFrom(words, first, 0)
      {
        if Low28(words[j]) == 0 {
          if |freePool| == poolCapacity {
            assert |freePool + FreeFrom(words, first, j)| > poolCapacity;
            return true;
          }
          freePool := freePool + [first + j];
        }
      }
      stop := false;
    }

    function DiskBlocks(): (disk: seq<seq<int>>)
      requires Valid()
      reads this, drive
      ensures |disk| == tableSize
    {
      DiskTable(drive.View(), TableBase(), tableSize)
    }

    // The room that the pool and the cached blocks' free entries leave.
    ghost function Room(): int
      reads this
    {
      poolCapacity - |freePool| - |FreeCached(tableCache, 0)|
    }

    ghost predicate ScanReadsFault()
      requires Valid()
      reads this, drive
    {
      |freePool| < poolCapacity && ScanFaults(drive.State(), tableCache, DiskBlocks(), TableBase(), 0, Room())
    }

    // Refills the pool, unless a read of the scan follows an evicted entry.
    method LoadFreeSectors() returns (ok: bool)
      requires Valid()
      modifies `freePool, drive
      ensures Valid() && Contents() == old(Contents()).(pool := freePool) && drive.View() == old(drive.View())
      ensures ok <==> !old(ScanReadsFault())
      ensures ok ==> freePool == Filled(old(freePool), old(Scanned(tableCache, DiskBlocks())), poolCapacity)
      ensures forall s :: s in drive.releaseList ==> s in old(drive.releaseList)
    {
      hide Caches, Filled, FreeFrom, FreeCached, FreeOnDisk, ScanFaults;
      ghost var disk, before := DiskBlocks(), freePool;
      ghost var cached, onDisk := FreeCached(tableCache, 0), FreeOnDisk(tableCache, disk, 0);
      ok := true;
      if |freePool| == poolCapacity {
        FilledFull(freePool, cached + onDisk, poolCapacity);
        return;
      }
      var stop := ScanCache();
      if stop {
        NoRoomNoFault(drive.State(), tableCache, disk, TableBase(), 0, old(Room()));
        StopsThere(before, cached + onDisk, before, cached, onDisk, freePool, poolCapacity);
      } else {
        ghost var pool := freePool;
        ok, stop := ScanDisk(disk);
        if !ok {
          return;
        }
        assert before + (cached + onDisk) == pool + onDisk;
        if stop {
          StopsThere(before, cached + onDisk, pool, onDisk, [], freePool, poolCapacity);
        }
      }
      PushedIsFilled(before, cached + onDisk, freePool, stop, poolCapacity);
    }

    method ScanCache() returns (stop: bool)
      requires |freePool| <= poolCapacity
      modifies `freePool
      ensures Pushed(old(freePool), FreeCached(tableCache, 0), freePool, stop, poolCapacity)
    {
      hide Filled, FreeFrom;
      ghost var before, all := freePool, FreeCached(tableCache, 0);
      for k := 0 to |tableCache|
        invariant |freePool| <= poolCapacity
        invariant freePool + FreeCached(tableCache, k) == before + all
      {
        ghost var pool, here := freePool, FreeFrom(tableCache[k].words, 128 * tableCache[k].id, 0);
        stop := PushFree(tableCache[k].words, tableCache[k].id * ENTRIES_PER_TABLE_SECTOR);
        if stop {
          StopsThere(before, all, pool, here, FreeCached(tableCache, k + 1), freePool, poolCapacity);
          return;
        }
        GoesOn(before, all, pool, here, FreeCached(tableCache, k + 1));
      }
      assert freePool + FreeCached(tableCache, |tableCache|) == freePool;
      stop := false;
    }

    method ScanDisk(ghost disk: seq<seq<int>>) returns (ok: bool, stop: bool)
      requires Valid() && disk == DiskBlocks()
      modifies `freePool, drive
      ensures Valid() && drive.View() == old(drive.View())
      ensures ok <==> !old(ScanFaults(drive.State(), tableCache, disk, TableBase(), 0, poolCapacity - |freePool|))
      ensures ok ==> Pushed(old(freePool), FreeOnDisk(tableCache, disk, 0), freePool, stop, poolCapacity)
      ensures forall s :: s in drive.releaseList ==> s in old(drive.releaseList)
    {
      hide Caches, Filled, FreeFrom, FreeBlocks, EvictsInside, AfterReads;
      ghost var before, all := freePool, FreeOnDisk(tableCache, disk, 0);
      var i;
      i, ok, stop := 0, true, false;
      ghost var faults := ScanFaults(drive.State(), tableCache, disk, TableBase(), 0, poolCapacity - |freePool|);
      CacheFacts(tableCache, disk, table);
      while i < tableSize && !stop
        invariant Valid() && 0 <= i <= tableSize && drive.View() == old(drive.View())
        invariant forall s :: s in drive.releaseList ==> s in old(drive.releaseList)
        invariant stop ==> Pushed(before, all, freePool, true, poolCapacity)
        invariant !stop ==> freePool + FreeOnDisk(tableCache, disk, i) == before + all
        invariant if stop then !faults
                  else faults == ScanFaults(drive.State(), tableCache, disk, TableBase(), i, poolCapacity - |freePool|)
        decreases tableSize - i, if stop then 0 else 1
      {
        var found, _ := BinarySearch(tableCache, i);
        if found {
          i := i + 1;
        } else {
          var end := WindowEnd(tableSize, i);
          ghost var pool, here, rest := freePool, FreeBlocks(disk, i, end), FreeOnDisk(tableCache, disk, end);
          ok, stop := ScanWindow(disk, i, end);
          if !ok {
            return;
          }
          if stop {
            NoRoomNoFault(drive.State(), tableCache, disk, TableBase(), end, poolCapacity - |pool| - |here|);
            StopsThere(before, all, pool, here, rest, freePool, poolCapacity);
          } else {
            GoesOn(before, all, pool, here, rest);
          }
          i := end;
        }
      }
      assert !stop ==> freePool + FreeOnDisk(tableCache, disk, tableSize) == freePool;
    }

    // One read of up to eight table sectors.
    method ScanWindow(ghost disk: seq<seq<int>>, i: int, end: int) returns (ok: bool, stop: bool)
      requires Valid() && disk == DiskBlocks() && 0 <= i <= end <= tableSize
      modifies `freePool, drive
      ensures Valid() && drive.View() == old(drive.View())
      ensures ok <==> !EvictsInside(old(drive.State()), TableBase() + i, TableBase() + end)
      ensures ok ==>
                drive.State() == AfterReads(old(drive.State()), old(drive.tree), TableBase() + i, TableBase() + end)
      ensures ok ==> Pushed(old(freePool), FreeBlocks(disk, i, end), freePool, stop, poolCapacity)
      ensures forall s :: s in drive.releaseList ==> s in old(drive.releaseList)
    {
      hide Caches, Filled, FreeFrom, FreeBlocks, EvictsInside, WordsOf, AfterReads, Pushed, Cache.Valid, Cache.View;
      var r := drive.Read(TableSectorId(i), end - i);
      ok, stop := r.Read?, false;
      if !ok {
        return;
      }
      stop := PushBlocks(disk, i, end, r.data);
      PushedFits(old(freePool), FreeBlocks(disk, i, end), freePool, stop, poolCapacity);
    }

    method PushBlocks(ghost disk: seq<seq<int>>, i: int, end: int, data: seq<Sector>) returns (stop: bool)
      requires |freePool| <= poolCapacity && 0 <= i <= end <= |disk| && |data| == end - i
      requires forall b :: i <= b < end ==> disk[b] == WordsOf(data[b - i])
      modifies `freePool
      ensures Pushed(old(freePool), FreeBlocks(disk, i, end), freePool, stop, poolCapacity)
    {
      hide Filled, FreeFrom, WordsOf;
      ghost var before, all := freePool, FreeBlocks(disk, i, end);
      for b := i to end
        invariant |freePool| <= poolCapacity
        invariant freePool + FreeBlocks(disk, b, end) == before + all
      {
        ghost var pool, here := freePool, FreeFrom(disk[b], 128 * b, 0);
        stop := PushFree(WordsOf(data[b - i]), b * ENTRIES_PER_TABLE_SECTOR);
        if stop {
          StopsThere(before, all, pool, here, FreeBlocks(disk, b + 1, end), freePool, poolCapacity);
          return;
        }
        GoesOn(before, all, pool, here, FreeBlocks(disk, b + 1, end));
      }
      assert freePool + FreeBlocks(disk, end, end) == freePool;
      stop := false;
    }

    // A refill of the empty pool is right: no read of it follows an evicted entry, and no window
    // that it reads takes in a cached block whose outdated copy shows a free entry.
    ghost predicate RefillReady()
      requires Valid()
      reads this, drive
    {
      !ScanReadsFault() && WindowsAreClear()
    }

    // It is while the whole table is cached, and while a first part of it is cached and no sector of
    // it is up for eviction.

    lemma WholeTableReady()
      requires Valid() && WholeTableCached()
      ensures RefillReady()
    {
      WholeCacheNeverFaults(drive.State(), tableCache, DiskBlocks(), TableBase(), 0, Room());
      PrefixCacheClear(tableCache, DiskBlocks(), tableSize, 0, RoomLeft(tableCache, poolCapacity));
    }

    lemma PrefixReady(m: int)
      requires Valid() && forall b :: 0 <= b < tableSize ==> (Cached(tableCache, b) <==> b < m)
      requires forall s :: s in drive.releaseList ==> !(TableBase() <= s < DataBase())
      ensures RefillReady()
    {
      PinnedNeverFaults(drive.State(), tableCache, DiskBlocks(), TableBase(), 0, Room());
      PrefixCacheClear(tableCache, DiskBlocks(), m, 0, RoomLeft(tableCache, poolCapacity));
    }

    // The windows that a refill of the empty pool reads are clear.
    predicate WindowsAreClear()
      requires Valid()
      reads this, drive
    {
      WindowsClear(tableCache, DiskBlocks(), 0, RoomLeft(tableCache, poolCapacity))
    }

    // Takes the first pooled sector, refilling an empty pool first; there is none only if no entry
    // of the table is free. With a refill that is wrong it stops.
    method AllocateSector() returns (r: Allocation)
      requires Valid() && Contents().Sound() && 0 < poolCapacity
      modifies this, drive
      ensures Valid()
      ensures r.Faulted? <==> old(freePool == [] && ScanReadsFault())
      ensures r.Misled? <==> old(freePool == [] && !ScanReadsFault() && !WindowsAreClear())
      ensures r.Misled? ==> Contents() == old(Contents()).(pool := freePool) && !ListsFree(table, freePool)
                            && freePool == Filled([], old(Scanned(tableCache, DiskBlocks())), poolCapacity)
      ensures old(freePool) != [] ==> r == Given(old(freePool[0])) && Contents() == Allocated(old(Contents()))
      ensures r.Given? ==> EntryChanged(old(table), table, r.id, 0x0FFF_FFFF) && usedSectors == old(usedSectors) + 1
                           && Contents().data == old(Contents()).data
                           && (old(freePool) != [] ==> freePool == old(freePool)[1..] && r.id == old(freePool)[0])
      ensures r.NoneFree? ==>
                Contents() == old(Contents()) && forall id :: 0 <= id < |table| ==> Contents().Entry(id) != 0
      ensures r.Given? ==>
                && 0 < r.id < |table| && old(Contents()).Entry(r.id) == 0
                && old(Contents()).(pool := [r.id] + freePool).Sound()
                && Contents().Sound() && Contents() == Allocated(old(Contents()).(pool := [r.id] + freePool))
      ensures old(WholeTableCached()) ==> WholeTableCached()
      ensures forall s :: s in drive.releaseList ==> s in old(drive.releaseList)
    {
      hide Caches, Filled, Scanned, WindowsClear, ScanFaults, Volume.Sound, ListsFree;
      ghost var v := Contents();
      if freePool == [] {
        DiskWords(drive.View(), TableBase(), tableSize);
        RefillSoundIff(tableCache, DiskBlocks(), v, poolCapacity);
        var clear := WindowsAreClear();
        var ok := LoadFreeSectors();
        if !ok {
          return Faulted;
        } else if !clear {
          return Misled;
        } else if freePool == [] {
          return NoneFree;
        }
      }
      AllocationSound(Contents());
      SoundPool(Contents());
      AllocatedIs(Contents());
      var id := freePool[0];
      assert [id] + freePool[1..] == freePool;
      freePool := freePool[1..];
      var _ := SetSectorEntryValue(id, EOC);
      r := Given(id);
    }

    // Frees an entry and pools its sector if there is room; returns what the entry held.
    method DeAllocateSector(id: int) returns (next: int)
      requires Valid() && 0 <= id < 128 * tableSize
      modifies this, drive
      ensures Valid() && next == old(Contents()).Entry(id)
      ensures Contents() == Freed(old(Contents()), id, poolCapacity)
      ensures EntryChanged(old(table), table, id, 0) && usedSectors == old(usedSectors) - 1
      ensures freePool == old(freePool) + (if |old(freePool)| < poolCapacity then [id] else [])
      ensures Contents().data == old(Contents()).data
      ensures old(WholeTableCached()) ==> WholeTableCached()
      ensures forall s :: s in drive.releaseList ==> s in old(drive.releaseList)
    {
      hide Caches;
      FreedIs(Contents(), id, poolCapacity);
      var r := GetSectorEntryValue(id);
      next := r.entry;
      var _ := SetSectorEntryValue(id, 0);
      AddToFreePoolCache(id);
    }

    method AddToFreePoolCache(id: int)
      modifies `freePool
      ensures freePool == if |old(freePool)| < poolCapacity then old(freePool) + [id] else old(freePool)
    {
      if |freePool| < poolCapacity {
        freePool := freePool + [id];
      }
    }

    // None of these data sectors is up for eviction.
    ghost predicate Apart(ids: set<int>)
      reads this, drive
    {
      forall s :: s in drive.releaseList ==> s - DataBase() !in ids
    }

    // Transfers addressed by data sector id, unless they follow an evicted entry.

    method xRead(sector: int, count: int) returns (data: Option<seq<Sector>>)
      requires Valid() && 0 <= sector && 0 <= count && sector + count <= 128 * tableSize
      modifies drive
      ensures Valid() && Contents() == old(Contents())
      ensures data == if EvictsInside(old(drive.State()), DataBase() + sector, DataBase() + sector + count) then None
                      else Some(Contents().data[sector..sector + count])
      ensures forall s :: s in drive.releaseList ==> s in old(drive.releaseList)
    {
      hide Caches, EvictsInside, AfterReads, Cache.View, Cache.Valid;
      DataSlice(drive.View(), TableBase(), tableSize, sector, count);
      var r := drive.Read(RealSectorNumber(sector, tableSize), count);
      data := if r.Read? then Some(r.data) else None;
    }

    method xWrite(sector: int, data: seq<Sector>) returns (ok: bool)
      requires Valid() && 0 <= sector && sector + |data| <= 128 * tableSize
      modifies drive
      ensures ok <==> !WriteEvictsInside(old(drive.State()), DataBase() + sector, |data|)
      ensures ok ==> Valid() && Contents() == old(Contents()).(data := Stored(old(Contents()).data, sector, data))
      ensures forall s :: s in drive.releaseList ==> s in old(drive.releaseList)
    {
      hide Caches, WriteEvictsInside, AfterWrite, Cache.View, Cache.Valid, Stored;
      DataStored(drive.View(), TableBase(), tableSize, sector, data);
      ok := drive.Write(RealSectorNumber(sector, tableSize), data);
    }

    // A transfer of a single sector, or of sectors none of which is up for eviction, is safe.

    lemma OneSectorSafe(sector: int)
      ensures !EvictsInside(drive.State(), DataBase() + sector, DataBase() + sector + 1)
      ensures !WriteEvictsInside(drive.State(), DataBase() + sector, 1)
    {
      SingleSectorNeverFaults(drive.State(), TableBase() + tableSize + sector, TableBase() + tableSize + sector + 1);
    }

    lemma ApartSafe(ids: set<int>, sector: int, count: int)
      requires Apart(ids) && 0 <= count && forall id :: sector <= id < sector + count ==> id in ids
      ensures !EvictsInside(drive.State(), DataBase() + sector, DataBase() + sector + count)
      ensures !WriteEvictsInside(drive.State(), DataBase() + sector, count)
    {
      hide EvictsInside, WriteEvictsInside;
      var lo := DataBase() + sector;
      forall s | s in drive.State().list
        ensures !(lo <= s < lo + count)
      {
        assert s in drive.releaseList;
      }
      PinnedReads(drive.State(), lo, lo + count);
      PinnedWrites(drive.State(), lo, lo + count);
    }
  }
}
