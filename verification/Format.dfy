// Formatting a drive and mounting it (filesystem/FileSystem.cpp, drivers/DeviceDrive.cpp).
module Formats {
  import opened Wrappers
  import opened Sectors
  import opened DiskCaches
  import opened DiskDrives
  import opened Volumes
  import opened BootBlocks
  import opened TableCaches
  import opened FreeSectors
  import opened FileSystems

  // Block b of the table that a format writes.
  function FormatBlock(b: int): (words: seq<int>)
    ensures |words| == ENTRIES_PER_TABLE_SECTOR
  {
    [if b == 0 then EOC else 0] + seq(ENTRIES_PER_TABLE_SECTOR - 1, _ => 0)
  }

  lemma FormatBlockWords(b: int)
    ensures AreWords(FormatBlock(b))
  {
  }

  // The drive as formatted so far: i blocks of the table, the boot block in front of it.
  ghost predicate FormattedUpTo(view: seq<Sector>, before: seq<Sector>, base: int, n: int, boot: Sector, i: int)
    requires 2 <= base && 0 <= n && base + n <= |view| == |before|
  {
    && view[base - 2] == boot
    && (forall b :: 0 <= b < i && b < n ==> DiskTable(view, base, n)[b] == FormatBlock(b))
    && view[base + n..] == before[base + n..]
  }

  lemma BootWritten(view: seq<Sector>, base: int, n: int, boot: Sector)
    requires 2 <= base && 0 <= n && base + n <= |view|
    ensures FormattedUpTo(Stored(view, base - 2, [boot]), view, base, n, boot, 0)
  {
    StoredAt(view, base - 2, [boot]);
  }

  lemma BlockWritten(view: seq<Sector>, before: seq<Sector>, base: int, n: int, boot: Sector, i: int)
    requires 2 <= base && 0 < n && base + n <= |view| == |before| && 0 <= i < n
    requires FormattedUpTo(view, before, base, n, boot, i)
    ensures FormattedUpTo(Stored(view, base + i, [BytesOf(FormatBlock(i))]), before, base, n, boot, i + 1)
  {
    hide BytesOf, FormatBlock, WordsOf;
    FormatBlockWords(i);
    DiskTableStored(view, base, n, i, FormatBlock(i));
    StoredAt(view, base + i, [BytesOf(FormatBlock(i))]);
  }

  lemma RootWritten(view: seq<Sector>, before: seq<Sector>, base: int, n: int, boot: Sector, root: Sector)
    requires 2 <= base && 0 <= n && base + n < |view| == |before| && FormattedUpTo(view, before, base, n, boot, n)
    ensures var view' := Stored(view, base + n, [root]);
            && view'[base - 2] == boot && view'[base + n..] == [root] + before[base + n + 1..]
            && forall b :: 0 <= b < n ==> DiskTable(view', base, n)[b] == FormatBlock(b)
  {
    hide WordsOf, FormatBlock;
    StoredAt(view, base + n, [root]);
    var view' := Stored(view, base + n, [root]);
    assert forall b :: 0 <= b < n ==> DiskTable(view', base, n)[b] == DiskTable(view, base, n)[b];
    var now, was := view[base + n..], before[base + n..];
    assert forall k :: 0 < k < |now| ==> now[k] == was[k];
  }

  // A formatted drive: the boot block, the table with only the root's entry in use, the root
  // directory's sector, and whatever the other data sectors held.
  ghost predicate IsFormatted(view: seq<Sector>, before: seq<Sector>, lbaStart: nat, boot: Sector, root: Sector)
    requires lbaStart + 4 <= |view| == |before|
  {
    var base, n := lbaStart + 1 + RESERVED_SECTORS, TableSize(|view| - lbaStart);
    && 0 <= n && base + n < |view| && view[lbaStart + 1] == boot
    && (forall b :: 0 <= b < n ==> DiskTable(view, base, n)[b] == FormatBlock(b))
    && view[base + n..] == [root] + before[base + n + 1..]
  }

  method Format(drive: DiskDrive<Sector>, sectorsPerTrack: int, heads: int, floppy: bool, buffer: Sector, root: Sector)
    requires drive.Valid() && 4 <= |drive.disk| - drive.lbaStart < 0x1_0000_0000
    requires 0 <= sectorsPerTrack < 0x1_0000 && 0 <= heads < 0x1_0000
    modifies drive
    ensures drive.Valid() && |drive.disk| == |old(drive.disk)| && drive.disk == drive.View()
    ensures var boot := Initial(|drive.disk| - drive.lbaStart, sectorsPerTrack, heads, floppy, buffer[46]);
            IsFormatted(drive.View(), old(drive.View()), drive.lbaStart, BootSector(boot, buffer), root)
    ensures BootBytes(drive.View()[drive.lbaStart + 1], |drive.disk| - drive.lbaStart, sectorsPerTrack, heads, floppy,
                      buffer)
    ensures forall s :: s in drive.releaseList ==> s in old(drive.releaseList)
  {
    hide FormattedUpTo, Stored, BootSector, BootBytes, Initial, Cache.Valid, Cache.View, AfterFlush;
    ghost var before, base := drive.View(), drive.lbaStart + 1 + RESERVED_SECTORS;
    var total := |drive.disk| - drive.lbaStart;
    var n := TableSize(total);
    var boot := BootSector(Initial(total, sectorsPerTrack, heads, floppy, buffer[46]), buffer);
    FormatBytes(total, sectorsPerTrack, heads, floppy, buffer);
    BootWritten(before, base, n, boot);
    WriteOneSector(drive, 1, boot);
    WriteTable(drive, n, before, boot);
    RootWritten(drive.View(), before, base, n, boot, root);
    WriteOneSector(drive, RealSectorNumber(0, n), root);
    drive.FlushDirtyCacheSectors(-1);
  }

  method WriteTable(drive: DiskDrive<Sector>, n: int, ghost before: seq<Sector>, ghost boot: Sector)
    requires drive.Valid() && 0 <= n && drive.lbaStart + 1 + RESERVED_SECTORS + n <= |drive.disk| == |before|
    requires FormattedUpTo(drive.View(), before, drive.lbaStart + 1 + RESERVED_SECTORS, n, boot, 0)
    modifies drive
    ensures drive.Valid() && |drive.disk| == |old(drive.disk)|
    ensures FormattedUpTo(drive.View(), before, drive.lbaStart + 1 + RESERVED_SECTORS, n, boot, n)
    ensures forall s :: s in drive.releaseList ==> s in old(drive.releaseList)
  {
    hide BytesOf, FormatBlock, FormattedUpTo, Stored, Cache.Valid, Cache.View;
    ghost var base := drive.lbaStart + 1 + RESERVED_SECTORS;
    for i := 0 to n
      invariant drive.Valid() && |drive.disk| == |old(drive.disk)|
      invariant FormattedUpTo(drive.View(), before, base, n, boot, i)
      invariant forall s :: s in drive.releaseList ==> s in old(drive.releaseList)
    {
      BlockWritten(drive.View(), before, base, n, boot, i);
      WriteOneSector(drive, TableSectorId(i), BytesOf(FormatBlock(i)));
    }
  }

  method WriteOneSector(drive: DiskDrive<Sector>, sector: nat, data: Sector)
    requires drive.Valid() && drive.lbaStart + sector < |drive.disk|
    modifies drive
    ensures drive.Valid() && |drive.disk| == |old(drive.disk)|
    ensures drive.View() == Stored(old(drive.View()), drive.lbaStart + sector, [data])
    ensures forall s :: s in drive.releaseList ==> s in old(drive.releaseList)
  {
    hide WriteEvictsInside, AfterWrite, Stored, Cache.Valid, Cache.View;
    SingleSectorNeverFaults(drive.State(), drive.lbaStart + sector, drive.lbaStart + sector + 1);
    var _ := drive.Write(sector, [data]);
  }

  // What became of a mount; it misreads if a read of the table follows an evicted entry.
  datatype MountOutcome = Mounted(fs: FileSystem) | Rejected | Misread

  // Reads and checks the boot block, then takes up the table, and fills the pool.
  method Mount(drive: DiskDrive<Sector>, floppy: bool, poolCapacity: nat) returns (r: MountOutcome)
    requires drive.Valid() && 2 <= |drive.disk| - drive.lbaStart
    requires var boot := drive.View()[drive.lbaStart + 1];
             Accepts(boot, |drive.disk| - drive.lbaStart, floppy) ==> TableFits(drive, Decoded(boot).tableSize)
    modifies drive
    ensures drive.Valid() && drive.View() == old(drive.View())
    ensures forall s :: s in drive.releaseList ==> s in old(drive.releaseList)
    ensures r.Rejected? <==> !Accepts(old(drive.View())[drive.lbaStart + 1], |old(drive.disk)| - drive.lbaStart, floppy)
    ensures r.Rejected? <==> !Checked(old(drive.View())[drive.lbaStart + 1], |old(drive.disk)| - drive.lbaStart, floppy)
    ensures r.Mounted? ==> r.fs.tableSize == Long(old(drive.View())[drive.lbaStart + 1], 20)
                           && r.fs.usedSectors == Long(old(drive.View())[drive.lbaStart + 1], 47)
    ensures r.Misread? ==> TableListed(old(drive.releaseList), drive.lbaStart + 1 + RESERVED_SECTORS,
                                       Decoded(old(drive.View())[drive.lbaStart + 1]).tableSize)
    ensures r.Mounted? ==>
              && fresh(r.fs) && r.fs.Valid() && r.fs.drive == drive && r.fs.tableCache == []
              && r.fs.tableSize == Decoded(old(drive.View())[drive.lbaStart + 1]).tableSize
              && r.fs.usedSectors == Decoded(old(drive.View())[drive.lbaStart + 1]).usedSectors
              && r.fs.table == Flattened(r.fs.DiskBlocks()) && r.fs.poolCapacity == poolCapacity
              && r.fs.freePool == Filled([], Scanned([], r.fs.DiskBlocks()), poolCapacity)
  {
    hide Cache.Valid, Cache.View, Number, Long, Short, Checked, Accepts, EvictsInside, AfterReads, Caches, WordsOf;
    hide Scanned, Filled, ScanFaults;
    SingleSectorNeverFaults(drive.State(), drive.lbaStart + 1, drive.lbaStart + 2);
    var data := drive.Read(1, 1);
    var boot := data.data[0];
    AcceptsIff(boot, |drive.disk| - drive.lbaStart, floppy);
    if !Accepts(boot, |drive.disk| - drive.lbaStart, floppy) {
      return Rejected;
    }
    var fs := new FileSystem.Mount(drive, Decoded(boot).tableSize, Decoded(boot).usedSectors, poolCapacity);
    if !TableListed(drive.releaseList, fs.TableBase(), fs.tableSize) {
      PinnedNeverFaults(drive.State(), fs.tableCache, fs.DiskBlocks(), fs.TableBase(), 0, fs.Room());
    }
    var ok := fs.LoadFreeSectors();
    r := if ok then Mounted(fs) else Misread;
  }

  // The table and its data sectors lie inside the drive.
  ghost predicate TableFits(drive: DiskDrive<Sector>, n: int)
    reads drive
  {
    0 < n && drive.lbaStart + 1 + RESERVED_SECTORS + n + 128 * n <= |drive.disk|
  }

  // Some table sector is up for eviction.
  ghost predicate TableListed(list: seq<int>, base: int, n: int) {
    exists s :: s in list && base <= s < base + n
  }

  lemma FormattedTable(view: seq<Sector>, base: int, n: int, data: seq<Sector>)
    requires 0 <= base && 0 < n && base + n <= |view| && |data| == 128 * n
    requires forall b :: 0 <= b < n ==> DiskTable(view, base, n)[b] == FormatBlock(b)
    requires forall b :: 0 <= b < n ==> AreWords(DiskTable(view, base, n)[b])
    ensures Flattened(DiskTable(view, base, n)) == Formatted(data).table
  {
    hide FormatBlock;
    var table := Flattened(DiskTable(view, base, n));
    forall id | 0 <= id < 128 * n
      ensures table[id] == Formatted(data).table[id]
    {
      FormatEntry(id);
    }
  }

  lemma FormatEntry(id: int)
    requires 0 <= id
    ensures FormatBlock(id / 128)[id % 128] == if id == 0 then EOC else 0
  {
  }

  // A mounted drive that was formatted: everything but the root is free, and pooled up to the
  // capacity.
  lemma FormattedMounts(fs: FileSystem, view: seq<Sector>)
    requires fs.Valid() && view == fs.drive.View() && fs.tableCache == [] && fs.usedSectors == 1
    requires fs.table == Flattened(fs.DiskBlocks()) && 0 < |fs.table| <= LOW_BITS - 2
    requires fs.freePool == Filled([], Scanned([], fs.DiskBlocks()), fs.poolCapacity)
    requires forall b :: 0 <= b < fs.tableSize ==> fs.DiskBlocks()[b] == FormatBlock(b)
    ensures fs.Contents().Sound() && fs.Contents() == Formatted(fs.Contents().data).(pool := fs.freePool)
    ensures |fs.freePool| <= fs.poolCapacity
    ensures |fs.freePool| == fs.poolCapacity || forall id :: 0 < id < |fs.table| ==> id in fs.freePool
  {
    hide FormatBlock, Scanned, Filled, Caches, Volume.Sound, WindowsClear, Flattened, ListsFree, Cache.Valid,
         Cache.View;
    hide WordsOf;
    var disk, v := fs.DiskBlocks(), fs.Contents().(pool := []);
    DiskWords(view, fs.TableBase(), fs.tableSize);
    FormattedTable(view, fs.TableBase(), fs.tableSize, v.data);
    FormatSound(v.data);
    PrefixCacheClear([], disk, 0, 0, RoomLeft([], fs.poolCapacity));
    PoolListsFree([], disk, v.table, fs.poolCapacity);
    PooledSound(v, fs.freePool);
    OnlyRootUsed(v.data);
  }

  lemma OnlyRootUsed(data: seq<Sector>)
    ensures var table := Formatted(data).table;
            |table| == |data| && forall id :: 0 < id < |table| ==> Low28(table[id]) == 0
  {
  }

  lemma PooledSound(v: Volume, pool: seq<int>)
    requires v.Sound() && ListsFree(v.table, pool)
    ensures v.(pool := pool).Sound()
  {
    forall i | 0 <= i < |pool|
      ensures 0 < pool[i] < |v.table| && v.Entry(pool[i]) == 0
    {
      assert pool[i] in pool;
    }
  }

  lemma PoolFull(v: Volume, capacity: nat)
    requires v.Sound() && v.used == 1 && 0 < |v.table| && |v.pool| <= capacity
    requires |v.pool| == capacity || forall id :: 0 < id < |v.table| ==> id in v.pool
    ensures |v.pool| == if capacity < |v.table| - 1 then capacity else |v.table| - 1
  {
    PoolFits(v);
    if |v.pool| < capacity {
      AllNamed(v.pool, |v.table|);
    }
  }

  lemma {:induction false} AllNamed(list: seq<int>, n: int)
    requires 0 < n && forall id :: 0 < id < n ==> id in list
    ensures n - 1 <= |list|
    decreases n
  {
    if 1 < n {
      assert n - 1 in list;
      var i :| 0 <= i < |list| && list[i] == n - 1;
      var rest := list[..i] + list[i + 1..];
      forall id | 0 < id < n - 1
        ensures id in rest
      {
        assert id in list;
        var j :| 0 <= j < |list| && list[j] == id;
        assert rest[if j < i then j else j - 1] == id;
      }
      AllNamed(rest, n - 1);
    }
  }

  // Formatting a drive and mounting it succeeds exactly from 132 sectors on, and then the volume
  // holds the root directory and nothing else.
  method FormatAndMount(drive: DiskDrive<Sector>, sectorsPerTrack: int, heads: int, floppy: bool, buffer: Sector,
                        root: Sector, poolCapacity: nat)
    returns (r: MountOutcome)
    requires drive.Valid()
    requires 4 <= |drive.disk| - drive.lbaStart && 128 * TableSize(|drive.disk| - drive.lbaStart) <= LOW_BITS - 2
    requires |drive.disk| - drive.lbaStart < 0x1_0000_0000
    requires 0 <= sectorsPerTrack < 0x1_0000 && 0 <= heads < 0x1_0000
    modifies drive
    ensures forall s :: s in drive.releaseList ==> s in old(drive.releaseList)
    ensures r.Rejected? <==> |old(drive.disk)| - drive.lbaStart < 132
    ensures r.Misread? ==> TableListed(old(drive.releaseList), drive.lbaStart + 1 + RESERVED_SECTORS,
                                       TableSize(|old(drive.disk)| - drive.lbaStart))
    ensures r.Mounted? ==>
              && fresh(r.fs) && r.fs.Valid() && r.fs.drive == drive && r.fs.poolCapacity == poolCapacity
              && r.fs.Contents().Sound() && r.fs.Contents().data[0] == root
              && r.fs.Contents() == Formatted(r.fs.Contents().data).(pool := r.fs.freePool)
              && r.fs.tableSize == TableSize(|old(drive.disk)| - drive.lbaStart) && r.fs.usedSectors == 1
              && (|r.fs.freePool| == poolCapacity || forall id :: 0 < id < |r.fs.table| ==> id in r.fs.freePool)
              && |r.fs.freePool| == if poolCapacity < |r.fs.table| - 1 then poolCapacity else |r.fs.table| - 1
  {
    hide FormatBlock, BootSector, Initial, Accepts, Decoded, Cache.Valid, Cache.View, FileSystem.Valid, Formatted;
    hide Volume.Sound, Flattened, Scanned, Filled, DiskTable;
    ghost var total := |drive.disk| - drive.lbaStart;
    Format(drive, sectorsPerTrack, heads, floppy, buffer, root);
    ghost var view := drive.View();
    BootRoundTrip(Initial(total, sectorsPerTrack, heads, floppy, buffer[46]), buffer);
    FormattedAcceptedIff(total, sectorsPerTrack, heads, floppy, buffer);
    InitialIs(total, sectorsPerTrack, heads, floppy, buffer[46]);
    r := Mount(drive, floppy, poolCapacity);
    if r.Mounted? {
      FormattedMounts(r.fs, view);
      PoolFull(r.fs.Contents(), poolCapacity);
    }
  }

  lemma InitialIs(total: int, sectorsPerTrack: int, heads: int, floppy: bool, last: Byte)
    requires 4 <= total < 0x1_0000_0000 && 0 <= sectorsPerTrack < 0x1_0000 && 0 <= heads < 0x1_0000
    ensures var b := Initial(total, sectorsPerTrack, heads, floppy, last);
            b.tableSize == TableSize(total) && b.usedSectors == 1 && 3 + 129 * TableSize(total) <= total
  {
  }
}
