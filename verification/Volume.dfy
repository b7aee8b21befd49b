// What a mounted file system holds, seen without its caches: the sector table, the pool of
// free sectors, the used-sector counter and the data sectors (filesystem/FileSystem.cpp).
module Volumes {
  import opened Sectors

  const EOC := 0x0FFFFFFF
  const LOW_BITS := 0x10000000
  const ENTRIES_PER_TABLE_SECTOR := 128
  const RESERVED_SECTORS := 2

  function Low28(word: int): int {
    word % LOW_BITS
  }

  // The word with its low 28 bits replaced and its high four kept.
  function WithLow28(word: int, value: int): (r: int)
    ensures Low28(r) == Low28(value) && r / LOW_BITS == word / LOW_BITS
  {
    word - word % LOW_BITS + value % LOW_BITS
  }

  // The number of table entries in use.
  function InUse(table: seq<int>): (n: nat)
  {
    if table == [] then 0
    else InUse(table[..|table| - 1]) + if Low28(table[|table| - 1]) != 0 then 1 else 0
  }

  lemma InUseUpdated(table: seq<int>, i: nat, word: int)
    requires i < |table|
    ensures InUse(table[i := word]) == InUse(table) + (if Low28(word) != 0 then 1 else 0)
                                                     - (if Low28(table[i]) != 0 then 1 else 0)
  {
    var n := |table| - 1;
    if i < n {
      assert table[i := word][..n] == table[..n][i := word];
      InUseUpdated(table[..n], i, word);
    } else {
      assert table[i := word][..n] == table[..n];
    }
  }

  lemma InUseAtMost(table: seq<int>)
    ensures InUse(table) <= |table|
    ensures (forall i :: 0 <= i < |table| ==> Low28(table[i]) != 0) ==> InUse(table) == |table|
  {
  }

  datatype Volume = Volume(table: seq<int>, pool: seq<int>, used: int, data: seq<Sector>)
  {
    function Entry(id: int): int
      requires 0 <= id < |table|
    {
      Low28(table[id])
    }

    function Set(id: int, value: int): (v: Volume)
      requires 0 <= id < |table|
      ensures |v.table| == |table|
    {
      this.(table := table[id := WithLow28(table[id], value)],
            used := if value == EOC then used + 1 else if value == 0 then used - 1 else used)
    }

    // The free pool names distinct free sectors, the counter counts the entries in use, and the
    // root directory's sector is in use.
    ghost predicate Sound() {
      && 0 < |table| == |data| <= LOW_BITS - 2
      && Entry(0) != 0
      && used == InUse(table)
      && (forall i :: 0 <= i < |pool| ==> 0 < pool[i] < |table| && Entry(pool[i]) == 0)
      && (forall i, j :: 0 <= i < j < |pool| ==> pool[i] != pool[j])
    }
  }

  // One entry's low 28 bits become the value's; its high four and all other entries stay.
  ghost predicate EntryChanged(table: seq<int>, table': seq<int>, id: int, value: int) {
    && |table'| == |table| && 0 <= id < |table|
    && table'[id] % 0x1000_0000 == value % 0x1000_0000 && table'[id] / 0x1000_0000 == table[id] / 0x1000_0000
    && forall k :: 0 <= k < |table| && k != id ==> table'[k] == table[k]
  }

  lemma SetIs(v: Volume, id: int, value: int)
    requires 0 <= id < |v.table|
    ensures EntryChanged(v.table, v.Set(id, value).table, id, value)
    ensures v.Set(id, value).used == v.used + (if value == 0x0FFF_FFFF then 1 else if value == 0 then -1 else 0)
    ensures v.Set(id, value).pool == v.pool && v.Set(id, value).data == v.data
  {
  }

  lemma AllocatedIs(v: Volume)
    requires v.pool != [] && 0 <= v.pool[0] < |v.table|
    ensures EntryChanged(v.table, Allocated(v).table, v.pool[0], 0x0FFF_FFFF)
    ensures Allocated(v).used == v.used + 1 && Allocated(v).pool == v.pool[1..] && Allocated(v).data == v.data
  {
  }

  lemma FreedIs(v: Volume, id: int, capacity: nat)
    requires 0 <= id < |v.table|
    ensures EntryChanged(v.table, Freed(v, id, capacity).table, id, 0)
    ensures Freed(v, id, capacity).used == v.used - 1 && Freed(v, id, capacity).data == v.data
    ensures Freed(v, id, capacity).pool == v.pool + (if |v.pool| < capacity then [id] else [])
  {
  }

  // The volume after its first pooled sector was handed out, and after a sector was freed.
  function Allocated(v: Volume): Volume
    requires v.pool != [] && 0 <= v.pool[0] < |v.table|
  {
    v.(pool := v.pool[1..]).Set(v.pool[0], EOC)
  }

  function Freed(v: Volume, id: int, capacity: nat): Volume
    requires 0 <= id < |v.table|
  {
    v.Set(id, 0).(pool := if |v.pool| < capacity then v.pool + [id] else v.pool)
  }

  // Taking the first pooled sector hands out a sector that was free and keeps the volume sound.
  lemma AllocationSound(v: Volume)
    requires v.Sound() && v.pool != []
    ensures var v' := Allocated(v);
            v'.Sound() && v.Entry(v.pool[0]) == 0 && v'.Entry(v.pool[0]) == EOC
  {
    InUseUpdated(v.table, v.pool[0], WithLow28(v.table[v.pool[0]], EOC));
    var v' := Allocated(v);
    assert forall i :: 0 <= i < |v'.pool| ==> v'.pool[i] == v.pool[i + 1];
  }

  // There are at least as many free entries as pooled sectors.
  lemma {:induction false} PoolFits(v: Volume)
    requires v.Sound()
    ensures v.used + |v.pool| <= |v.table|
    decreases |v.pool|
  {
    hide InUse;
    InUseAtMost(v.table);
    if v.pool != [] {
      AllocationSound(v);
      PoolFits(Allocated(v));
    }
  }

  // Freeing a sector in use, other than the root's, pools it if there is room.
  lemma FreeSound(v: Volume, id: int, capacity: nat)
    requires v.Sound() && 0 < id < |v.table| && v.Entry(id) != 0
    ensures Freed(v, id, capacity).Sound()
  {
    InUseUpdated(v.table, id, WithLow28(v.table[id], 0));
    var v' := Freed(v, id, capacity);
    forall i | 0 <= i < |v'.pool|
      ensures 0 < v'.pool[i] < |v'.table| && v'.Entry(v'.pool[i]) == 0
      ensures i < |v.pool| ==> v'.pool[i] == v.pool[i] != id
    {
    }
  }

  // Linking a sector in use to another one changes no count.
  lemma LinkSound(v: Volume, id: int, next: int)
    requires v.Sound() && 0 <= id < |v.table| && v.Entry(id) != 0 && 0 < next < EOC
    ensures v.Set(id, next).Sound()
  {
    InUseUpdated(v.table, id, WithLow28(v.table[id], next));
  }

  // A link is read back as it was set exactly if its 28 bits hold it.
  lemma LinkSurvivesIff(v: Volume, id: int, next: int)
    requires 0 <= id < |v.table| && 0 <= next
    ensures v.Set(id, next).Entry(id) == next <==> next < LOW_BITS
  {
  }

  // So all sectors of a table of n entries can be linked, none of them being taken for free or for
  // the end of a chain, exactly up to 2^28 - 1 entries; the code does not check that.
  lemma LinksFollowedIff(v: Volume, id: int, n: int)
    requires 0 <= id < |v.table| && 0 < n
    ensures (forall next :: 0 < next < n ==> v.Set(id, next).Entry(id) == next && next != EOC) <==> n <= EOC
  {
    if EOC < n {
      LinkSurvivesIff(v, id, EOC);
      assert v.Set(id, EOC).Entry(id) == EOC;
    }
    forall next | 0 < next < n <= EOC
      ensures v.Set(id, next).Entry(id) == next
    {
      LinkSurvivesIff(v, id, next);
    }
  }

  // The table a format writes: only the root directory's entry is in use, and one is counted.
  function Formatted(data: seq<Sector>): Volume {
    Volume(seq(|data|, id => if id == 0 then EOC else 0), [], 1, data)
  }

  lemma FormatSound(data: seq<Sector>)
    requires 0 < |data| <= LOW_BITS - 2
    ensures Formatted(data).Sound()
  {
    OnlyFirstInUse(Formatted(data).table);
  }

  lemma OnlyFirstInUse(table: seq<int>)
    requires |table| > 0 && Low28(table[0]) != 0 && forall i :: 0 < i < |table| ==> Low28(table[i]) == 0
    ensures InUse(table) == 1
  {
  }

  // The boot block's geometry, in unsigned 32-bit arithmetic.
  function TableSize(totalSectors: int): int {
    (totalSectors - RESERVED_SECTORS - 1) % 0x1_0000_0000 / (ENTRIES_PER_TABLE_SECTOR + 1)
  }

  // So many blocks of 128 entries fit with their sectors behind the first three, and not one more.
  lemma TableSizeIs(totalSectors: int)
    requires 3 <= totalSectors < 0x1_0000_0000
    ensures 3 + 129 * TableSize(totalSectors) <= totalSectors < 3 + 129 * (TableSize(totalSectors) + 1)
  {
  }

  function TableSectorId(id: int): int {
    id + 1 + RESERVED_SECTORS
  }

  function RealSectorNumber(id: int, tableSize: int): int {
    id + 1 + RESERVED_SECTORS + tableSize
  }

  // Every entry's sector lies behind the boot block, the reserved sectors and the table, and
  // inside the drive, exactly if the drive has the three sectors in front of the table.
  lemma GeometryFits(totalSectors: int)
    requires 0 <= totalSectors < 0x1_0000_0000
    ensures var n := TableSize(totalSectors);
            (forall id :: 0 <= id < n * ENTRIES_PER_TABLE_SECTOR ==>
               TableSectorId(n - 1) < RealSectorNumber(id, n) < totalSectors)
            <==> totalSectors >= 3
  {
    var n := TableSize(totalSectors);
    if totalSectors < 3 {
      assert n == 33294320;
      assert RealSectorNumber(0, n) >= totalSectors;
    } else {
      assert n * 129 <= totalSectors - 3;
    }
  }

  // The guard of the table accessors admits one id too many: its block is the sector behind
  // the table, where the root directory is.
  lemma GuardAdmitsRootSector(id: int, n: int)
    requires 0 < n && 0 <= id <= n * ENTRIES_PER_TABLE_SECTOR
    ensures TableSectorId(id / ENTRIES_PER_TABLE_SECTOR) < RealSectorNumber(0, n) <==> id < n * ENTRIES_PER_TABLE_SECTOR
    ensures id == n * ENTRIES_PER_TABLE_SECTOR ==>
              TableSectorId(id / ENTRIES_PER_TABLE_SECTOR) == RealSectorNumber(0, n)
  {
  }
}
