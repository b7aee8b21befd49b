// The partition table of a disk's first sector: how it is accepted, read, extended and cut back
// (drivers/PartitionManager.cpp).
module PrimaryPartitions {
  import opened Partitions
  import opened Wrappers

  const MAX_NO_OF_PRIMARY_PARTITIONS := 4
  const SI_GPT := 0xEE

  datatype Entry = Entry(active: bool, system: int, start: int, size: int) {
    predicate IsEmpty() { system == 0 || size == 0 }
  }

  const EMPTY_ENTRY := Entry(false, 0, 0, 0)

  datatype Kind = Active | Extended | Normal

  ghost predicate IsTable(entries: seq<Entry>) {
    |entries| == MAX_NO_OF_PRIMARY_PARTITIONS && forall i :: 0 <= i < |entries| ==>
        0 <= entries[i].start < WORD && 0 <= entries[i].size < WORD
  }

  // The number of entries before the first empty one.
  function Lead(entries: seq<Entry>): (n: int)
    ensures 0 <= n <= |entries| && (n < |entries| ==> entries[n].IsEmpty())
    ensures forall i :: 0 <= i < n ==> !entries[i].IsEmpty()
  {
    if entries == [] || entries[0].IsEmpty() then 0 else 1 + Lead(entries[1..])
  }

  function Actives(entries: seq<Entry>, n: int): int
    requires 0 <= n <= |entries|
  {
    if n == 0 then 0 else Actives(entries, n - 1) + if entries[n - 1].active then 1 else 0
  }

  function Sum(entries: seq<Entry>, n: int): int
    requires 0 <= n <= |entries|
  {
    if n == 0 then 0 else Sum(entries, n - 1) + entries[n - 1].size
  }

  // The last sector of the entry before the i-th.
  function EndBefore(entries: seq<Entry>, i: int): int
    requires 0 <= i <= |entries|
  {
    if i == 0 then 0 else (entries[i - 1].start + entries[i - 1].size - 1) % WORD
  }

  ghost predicate Rising(entries: seq<Entry>, n: int)
    requires 0 <= n <= |entries|
  {
    forall i :: 0 <= i < n ==> entries[i].start > EndBefore(entries, i)
  }

  predicate IsGpt(entries: seq<Entry>)
    requires |entries| == MAX_NO_OF_PRIMARY_PARTITIONS
  {
    !entries[0].IsEmpty() && entries[0].start > 0 && entries[0].system == SI_GPT
  }

  // A table is taken as partitioned: its leading entries rise, are together no larger than the
  // disk, and one entry up to the first empty one is active.
  ghost predicate Accepted(entries: seq<Entry>, sectors: int)
    requires |entries| == MAX_NO_OF_PRIMARY_PARTITIONS
  {
    var n := Lead(entries);
    && !IsGpt(entries) && 0 < n && Rising(entries, n) && Sum(entries, n) % WORD <= sectors
    && Actives(entries, if n < |entries| then n + 1 else n) == 1
  }

  // Written out for n leading entries: each starts behind the end of the one before, in 32 bits, and
  // of those and the empty one behind them exactly one, the a-th, is active.
  ghost predicate Partitioned(e: seq<Entry>, n: int, a: int, sectors: int)
    requires |e| == 4
  {
    && 1 <= n <= 4 && (forall i :: 0 <= i < n ==> e[i].system != 0 && e[i].size != 0)
    && (n < 4 ==> e[n].system == 0 || e[n].size == 0)
    && e[0].system != 0xEE && 0 < e[0].start
    && (forall i :: 1 <= i < n ==> (e[i - 1].start + e[i - 1].size - 1) % 0x1_0000_0000 < e[i].start)
    && (e[0].size + (if n > 1 then e[1].size else 0) + (if n > 2 then e[2].size else 0)
        + (if n > 3 then e[3].size else 0)) % 0x1_0000_0000 <= sectors
    && 0 <= a <= n && a < 4 && (forall i :: 0 <= i <= n && i < 4 ==> (e[i].active <==> i == a))
  }

  lemma AcceptedIff(entries: seq<Entry>, sectors: int)
    requires |entries| == 4
    ensures Accepted(entries, sectors) <==> exists n, a :: Partitioned(entries, n, a, sectors)
  {
    hide Accepted, Partitioned, Actives;
    forall n, a | Partitioned(entries, n, a, sectors)
      ensures Accepted(entries, sectors)
    {
      PartitionedAccepted(entries, n, a, sectors);
    }
    if Accepted(entries, sectors) {
      var n := Lead(entries);
      var a := ActiveOf(entries, sectors);
      AcceptedPartitioned(entries, n, a, sectors);
    }
  }

  lemma ActiveOf(entries: seq<Entry>, sectors: int) returns (a: int)
    requires |entries| == 4 && Accepted(entries, sectors)
    ensures var n := Lead(entries);
            0 <= a <= n && a < 4 && forall i :: 0 <= i <= n && i < 4 ==> (entries[i].active <==> i == a)
  {
    var n := Lead(entries);
    a := TheActive(entries, if n < 4 then n + 1 else n);
  }

  lemma PartitionedAccepted(entries: seq<Entry>, n: int, a: int, sectors: int)
    requires |entries| == 4 && Partitioned(entries, n, a, sectors)
    ensures Accepted(entries, sectors)
  {
    hide Sum, Actives;
    LeadIs(entries, n);
    SumsUp(entries, n);
    OneActive(entries, if n < 4 then n + 1 else n, a);
  }

  lemma AcceptedPartitioned(entries: seq<Entry>, n: int, a: int, sectors: int)
    requires |entries| == 4 && Accepted(entries, sectors) && n == Lead(entries)
    requires 0 <= a <= n && a < 4 && forall i :: 0 <= i <= n && i < 4 ==> (entries[i].active <==> i == a)
    ensures Partitioned(entries, n, a, sectors)
  {
    hide Sum, Actives;
    SumsUp(entries, n);
    assert Rising(entries, n);
    forall i | 1 <= i < n
      ensures (entries[i - 1].start + entries[i - 1].size - 1) % 0x1_0000_0000 < entries[i].start
    {
      assert entries[i].start > EndBefore(entries, i);
    }
  }

  lemma SumsUp(e: seq<Entry>, n: int)
    requires 0 <= n <= 4 == |e|
    ensures Sum(e, n) == (if n > 0 then e[0].size else 0) + (if n > 1 then e[1].size else 0)
                         + (if n > 2 then e[2].size else 0) + (if n > 3 then e[3].size else 0)
  {
    assert Sum(e, 1) == e[0].size && Sum(e, 2) == e[0].size + e[1].size;
    assert Sum(e, 3) == e[0].size + e[1].size + e[2].size;
  }

  lemma {:induction false} NoneActive(entries: seq<Entry>, n: int)
    requires 0 <= n <= |entries|
    ensures Actives(entries, n) >= 0 && (Actives(entries, n) == 0 <==> forall i :: 0 <= i < n ==> !entries[i].active)
  {
    if n > 0 {
      NoneActive(entries, n - 1);
    }
  }

  lemma {:induction false} OneActive(entries: seq<Entry>, n: int, a: int)
    requires 0 <= a < n <= |entries| && forall i :: 0 <= i < n ==> (entries[i].active <==> i == a)
    ensures Actives(entries, n) == 1
  {
    if a < n - 1 {
      OneActive(entries, n - 1, a);
    } else {
      NoneActive(entries, n - 1);
    }
  }

  lemma {:induction false} TheActive(entries: seq<Entry>, n: int) returns (a: int)
    requires 0 <= n <= |entries| && Actives(entries, n) == 1
    ensures 0 <= a < n && forall i :: 0 <= i < n ==> (entries[i].active <==> i == a)
  {
    if entries[n - 1].active {
      a := n - 1;
      NoneActive(entries, n - 1);
    } else {
      a := TheActive(entries, n - 1);
    }
  }

  // Which partitioning a table is taken for.
  method VerifyMBR(entries: seq<Entry>, sectorLimit: int) returns (gpt: bool, mbr: bool)
    requires IsTable(entries)
    ensures (gpt <==> IsGpt(entries)) && (mbr <==> Accepted(entries, sectorLimit))
    ensures gpt <==> entries[0].size != 0 && 0 < entries[0].start && entries[0].system == 0xEE
    ensures mbr <==> exists n, a :: Partitioned(entries, n, a, sectorLimit)
  {
    hide Sum, Rising, EndBefore, Partitioned;
    AcceptedIff(entries, sectorLimit);
    var activeCount, partitioned, prevEnd, sectorCount := 0, false, 0, 0;
    gpt := false;
    NothingYet(entries);
    ghost var n := Lead(entries);
    var i := 0;
    while i < MAX_NO_OF_PRIMARY_PARTITIONS
      invariant 0 <= i <= n && activeCount == Actives(entries, i) && (partitioned <==> 0 < i)
      invariant prevEnd == EndBefore(entries, i) && sectorCount == Sum(entries, i) % WORD && Rising(entries, i)
      invariant i > 0 ==> entries[0].system != SI_GPT
    {
      if entries[i].active {
        activeCount := activeCount + 1;
      }
      if entries[i].IsEmpty() {
        break;
      }
      if entries[i].start > prevEnd {
        prevEnd := (entries[i].start + entries[i].size - 1) % WORD;
        SumWraps(entries, i);
        RisesFurther(entries, i);
        sectorCount := (sectorCount + entries[i].size) % WORD;
        partitioned := true;
        if i == 0 && entries[i].system == SI_GPT {
          return true, false;
        }
      } else {
        DoesNotRise(entries, i, n);
        partitioned := false;
        break;
      }
      i := i + 1;
    }
    mbr := !(!partitioned || activeCount != 1 || sectorCount > sectorLimit);
  }

  lemma NothingYet(entries: seq<Entry>)
    ensures Sum(entries, 0) == 0 && EndBefore(entries, 0) == 0 && Rising(entries, 0)
  {
  }

  lemma RisesFurther(entries: seq<Entry>, i: int)
    requires 0 <= i < |entries| && Rising(entries, i) && entries[i].start > EndBefore(entries, i)
    ensures Rising(entries, i + 1) && EndBefore(entries, i + 1) == (entries[i].start + entries[i].size - 1) % WORD
  {
  }

  lemma DoesNotRise(entries: seq<Entry>, i: int, n: int)
    requires 0 <= i < n <= |entries| && entries[i].start <= EndBefore(entries, i)
    ensures !Rising(entries, n)
  {
  }

  lemma SumWraps(entries: seq<Entry>, i: int)
    requires 0 <= i < |entries|
    ensures (Sum(entries, i) % WORD + entries[i].size) % WORD == Sum(entries, i + 1) % WORD
  {
  }

  // Partitions side by side from sector 63 on, inside the disk, only the last one possibly an
  // extended one.
  ghost predicate Laid(parts: seq<Entry>, sectors: int) {
    && |parts| <= MAX_NO_OF_PRIMARY_PARTITIONS && 0 <= sectors < WORD
    && (forall i :: 0 <= i < |parts| ==> 0 < parts[i].size && parts[i].system != 0 && parts[i].system != SI_GPT)
    && (forall i :: 0 <= i < |parts| ==>
          parts[i].start == EndOf(parts, i) && EndOf(parts, i) + parts[i].size <= sectors)
    && (forall i :: 0 <= i < |parts| - 1 ==> parts[i].system != SI_EXT)
    && (parts != [] ==> parts[0].system != SI_EXT)
  }

  // A table as the operations below keep it: one of the partitions is active.
  ghost predicate Good(parts: seq<Entry>, sectors: int) {
    Laid(parts, sectors) && (parts != [] ==> Actives(parts, |parts|) == 1)
  }

  // Where the i-th partition starts.
  function EndOf(parts: seq<Entry>, i: int): int
    requires 0 <= i <= |parts|
  {
    if i == 0 then DEF_START_SEC else parts[i - 1].start + parts[i - 1].size
  }

  // The table holds these partitions and nothing else.
  ghost predicate Holds(entries: seq<Entry>, parts: seq<Entry>) {
    && |entries| == MAX_NO_OF_PRIMARY_PARTITIONS && |parts| <= |entries|
    && (forall i :: 0 <= i < |parts| ==> entries[i] == parts[i])
    && (forall i :: |parts| <= i < |entries| ==> entries[i] == EMPTY_ENTRY)
  }

  lemma {:induction false} LeadIs(entries: seq<Entry>, n: int)
    requires 0 <= n <= |entries| && (n < |entries| ==> entries[n].IsEmpty())
    requires forall i :: 0 <= i < n ==> !entries[i].IsEmpty()
    ensures Lead(entries) == n
  {
  }

  lemma {:induction false} SamePrefix(entries: seq<Entry>, parts: seq<Entry>, n: int)
    requires 0 <= n <= |parts| <= |entries| && forall i :: 0 <= i < n ==> entries[i] == parts[i]
    ensures Actives(entries, n) == Actives(parts, n) && Sum(entries, n) == Sum(parts, n)
  {
    if n > 0 {
      SamePrefix(entries, parts, n - 1);
    }
  }

  // The partitions fit side by side behind sector 63.
  lemma {:induction false} SumBounded(parts: seq<Entry>, sectors: int, n: int)
    requires Laid(parts, sectors) && 0 <= n <= |parts|
    ensures Sum(parts, n) == EndOf(parts, n) - DEF_START_SEC && DEF_START_SEC <= EndOf(parts, n)
    ensures n > 0 ==> EndOf(parts, n) <= sectors
  {
    if n > 0 {
      SumBounded(parts, sectors, n - 1);
    }
  }

  lemma LaidTable(entries: seq<Entry>, parts: seq<Entry>, sectors: int)
    requires Laid(parts, sectors) && Holds(entries, parts)
    ensures IsTable(entries) && Lead(entries) == |parts| && Rising(entries, |parts|) && !IsGpt(entries)
  {
    forall i | 0 <= i < |parts|
      ensures 0 <= parts[i].start < WORD && 0 <= parts[i].size < WORD
    {
      SumBounded(parts, sectors, i);
    }
    LeadIs(entries, |parts|);
  }

  // Such a table is accepted exactly if one of its partitions is active.
  lemma LaidAcceptedIff(entries: seq<Entry>, parts: seq<Entry>, sectors: int)
    requires Laid(parts, sectors) && Holds(entries, parts)
    ensures Accepted(entries, sectors) <==> Actives(parts, |parts|) == 1
  {
    hide Rising, IsTable, EndOf, IsGpt, Lead;
    LaidTable(entries, parts, sectors);
    SamePrefix(entries, parts, |parts|);
    SumBounded(parts, sectors, |parts|);
  }

  // A table made by the operations is accepted exactly if it has a partition.
  lemma GoodAccepted(entries: seq<Entry>, parts: seq<Entry>, sectors: int)
    requires Good(parts, sectors) && Holds(entries, parts)
    ensures IsTable(entries) && Lead(entries) == |parts| && (Accepted(entries, sectors) <==> parts != [])
  {
    hide Accepted;
    LaidTable(entries, parts, sectors);
    LaidAcceptedIff(entries, parts, sectors);
  }

  datatype Mounted = Mounted(primaries: seq<Entry>, extended: Option<Entry>)

  // What reading a table with these partitions gives.
  function MountedAs(parts: seq<Entry>): Mounted {
    if parts != [] && parts[|parts| - 1].system == SI_EXT then Mounted(parts[..|parts| - 1], Some(parts[|parts| - 1]))
    else Mounted(parts, None)
  }

  class MasterBootRecord {
    var entries: seq<Entry>
    const sectors: int
    ghost var parts: seq<Entry>

    ghost predicate Valid()
      reads this
    {
      Good(parts, sectors) && Holds(entries, parts)
    }

    // A disk that is not partitioned.
    constructor (sectors: int)
      requires 0 <= sectors < WORD
      ensures Valid() && parts == []
    {
      this.sectors := sectors;
      entries, parts := [EMPTY_ENTRY, EMPTY_ENTRY, EMPTY_ENTRY, EMPTY_ENTRY], [];
    }

    // Verifies the table and reads its entries, as every command starts by doing: it gives the
    // partitions back as they were made.
    method Mount() returns (m: Mounted)
      requires Valid()
      ensures m == MountedAs(parts)
      ensures parts == m.primaries + (if m.extended.Some? then [m.extended.value] else [])
      ensures m.extended.Some? <==> parts != [] && parts[|parts| - 1].system == 5
    {
      hide Accepted, IsTable, EndOf, Actives;
      GoodAccepted(entries, parts, sectors);
      var gpt, mbr := VerifyMBR(entries, sectors);
      m := Mounted([], None);
      if mbr {
        var i := 0;
        while i < MAX_NO_OF_PRIMARY_PARTITIONS && !entries[i].IsEmpty()
          invariant 0 <= i <= |parts| && m == MountedAs(parts[..i])
        {
          assert parts[..i + 1] == parts[..i] + [parts[i]];
          if entries[i].system == SI_EXT {
            m := m.(extended := Some(entries[i]));
          } else {
            m := m.(primaries := m.primaries + [entries[i]]);
          }
          i := i + 1;
        }
        assert parts[..i] == parts;
      }
    }

    // Adds a partition behind the last one. The first becomes the active one whatever was asked
    // for; a new active one replaces the old. The table stays good unless the size is zero or the
    // disk ends before the first partition could start, where the space is not checked.
    method CreatePrimaryPartitionEntry(size: int, kind: Kind) returns (ok: bool)
      requires Valid() && 0 <= size < WORD
      modifies this
      ensures ok <==> Possible(old(parts), size, kind, sectors)
      ensures parts == if ok then WithPartition(old(parts), size, kind) else old(parts)
      ensures Holds(entries, parts) && (!ok ==> entries == old(entries) && parts == old(parts))
      ensures ok <==> var n, used := |old(parts)|, UsedSectors(old(parts));
                && n < 4 && (if n == 0 then kind != Extended else old(parts)[n - 1].system != 5)
                && (sectors < used || used + size <= sectors)
      ensures ok ==> |parts| == |old(parts)| + 1
      ensures ok && (old(parts) == [] || kind == Active) ==>
                parts[|old(parts)|] == Entry(true, 1, UsedSectors(old(parts)), size)
      ensures ok && old(parts) != [] && kind != Active ==>
                parts[|old(parts)|] == Entry(false, if kind == Extended then 5 else 1, UsedSectors(old(parts)), size)
      ensures ok ==> forall i :: 0 <= i < |old(parts)| ==>
                parts[i] == if kind == Active then old(parts)[i].(active := false) else old(parts)[i]
      ensures Valid() <==> (ok ==> 0 < size && EndOf(old(parts), |old(parts)|) + size <= sectors)
    {
      hide Good, Holds;
      GoodFacts(parts, sectors);
      HoldsFacts(entries, parts);
      var m := Mount();
      if |m.primaries| == MAX_NO_OF_PRIMARY_PARTITIONS || m.extended.Some? {
        return false;
      }
      var k := kind;
      if m.primaries == [] {
        if kind == Extended {
          return false;
        }
        k := Active;
      }
      var used := DEF_START_SEC;
      if m.primaries != [] {
        var last := m.primaries[|m.primaries| - 1];
        used := last.start + last.size;
      }
      if sectors >= used {
        if sectors - used < size {
          return false;
        }
      }
      var entry := Entry(k == Active, if k == Extended then SI_EXT else SI_EMTY, used, size);
      ghost var entries0 := entries;
      assert m.primaries == parts;
      if k == Active {
        for i := 0 to |m.primaries|
          invariant |entries| == |entries0| && Cleared(entries0, entries, i) && parts == old(parts)
        {
          entries := entries[i := entries[i].(active := false)];
        }
      }
      WithPartitionHeld(entries0, entries, parts, size, kind, entry);
      entries := entries[|m.primaries| := entry];
      WithPartitionGoodIff(parts, size, kind, sectors);
      parts := WithPartition(parts, size, kind);
      return true;
    }

    // Removes the last entry. The table stays good unless that was the active one of several.
    method DeletePrimaryPartition() returns (ok: bool)
      requires Valid()
      modifies this
      ensures ok <==> old(parts) != []
      ensures parts == if ok then old(parts)[..|old(parts)| - 1] else old(parts)
      ensures entries == if ok && |old(parts)| <= |old(entries)| then old(entries)[|old(parts)| - 1 := EMPTY_ENTRY]
              else old(entries)
      ensures Holds(entries, parts)
      ensures Valid() <==> (|old(parts)| > 1 ==> !old(parts)[|old(parts)| - 1].active)
    {
      hide Good, Holds;
      GoodFacts(parts, sectors);
      HoldsFacts(entries, parts);
      var m := Mount();
      if m.primaries == [] {
        return false;
      }
      LastRemoved(entries, parts, sectors);
      entries := entries[if m.extended.Some? then |m.primaries| else |m.primaries| - 1 := EMPTY_ENTRY];
      parts := parts[..|parts| - 1];
      return true;
    }
  }

  // The sectors up to the end of the last partition; the first one starts at sector 63.
  function UsedSectors(parts: seq<Entry>): int {
    if parts == [] then 63 else parts[|parts| - 1].start + parts[|parts| - 1].size
  }

  // A partition of this size and kind can be added.
  predicate Possible(parts: seq<Entry>, size: int, kind: Kind, sectors: int) {
    && |parts| < MAX_NO_OF_PRIMARY_PARTITIONS && (parts == [] ==> kind != Extended)
    && (parts != [] ==> parts[|parts| - 1].system != SI_EXT)
    && (EndOf(parts, |parts|) <= sectors ==> EndOf(parts, |parts|) + size <= sectors)
  }

  function Passive(parts: seq<Entry>): (r: seq<Entry>)
    ensures |r| == |parts| && forall i :: 0 <= i < |parts| ==> r[i] == parts[i].(active := false)
  {
    if parts == [] then [] else Passive(parts[..|parts| - 1]) + [parts[|parts| - 1].(active := false)]
  }

  function WithPartition(parts: seq<Entry>, size: int, kind: Kind): seq<Entry> {
    var k := if parts == [] then Active else kind;
    (if k == Active then Passive(parts) else parts)
        + [Entry(k == Active, if k == Extended then SI_EXT else SI_EMTY, EndOf(parts, |parts|), size)]
  }

  // The first n entries lost their active mark and nothing else changed.
  ghost predicate Cleared(entries: seq<Entry>, entries': seq<Entry>, n: int) {
    && |entries'| == |entries|
    && forall i :: 0 <= i < |entries| ==> entries'[i] == if i < n then entries[i].(active := false) else entries[i]
  }

  lemma HoldsFacts(entries: seq<Entry>, parts: seq<Entry>)
    requires Holds(entries, parts)
    ensures |parts| <= |entries| == MAX_NO_OF_PRIMARY_PARTITIONS
  {
  }

  lemma GoodFacts(parts: seq<Entry>, sectors: int)
    requires Good(parts, sectors)
    ensures |parts| <= MAX_NO_OF_PRIMARY_PARTITIONS
    ensures EndOf(parts, |parts|) <= (if parts == [] then DEF_START_SEC else sectors)
    ensures parts != [] ==> parts[0].system != SI_EXT
  {
  }

  lemma WithPartitionHeld(entries: seq<Entry>, entries': seq<Entry>, parts: seq<Entry>, size: int, kind: Kind,
          entry: Entry)
    requires Holds(entries, parts) && |parts| < MAX_NO_OF_PRIMARY_PARTITIONS
    requires var k := if parts == [] then Active else kind;
             && entry == Entry(k == Active, if k == Extended then SI_EXT else SI_EMTY, EndOf(parts, |parts|), size)
             && (if k == Active then Cleared(entries, entries', |parts|) else entries' == entries)
    ensures |parts| < |entries'| && Holds(entries'[|parts| := entry], WithPartition(parts, size, kind))
  {
  }

  lemma {:induction false} PassiveActives(parts: seq<Entry>, n: int)
    requires 0 <= n <= |parts|
    ensures Actives(Passive(parts), n) == 0
  {
    if n > 0 {
      PassiveActives(parts, n - 1);
    }
  }

  lemma WithPartitionGoodIff(parts: seq<Entry>, size: int, kind: Kind, sectors: int)
    requires Good(parts, sectors) && 0 <= size && Possible(parts, size, kind, sectors)
    ensures Good(WithPartition(parts, size, kind), sectors) <==> 0 < size && EndOf(parts, |parts|) + size <= sectors
  {
    hide Passive;
    var k := if parts == [] then Active else kind;
    var before, parts' := if k == Active then Passive(parts) else parts, WithPartition(parts, size, kind);
    SamePrefix(parts', before, |parts|);
    if k == Active {
      PassiveActives(parts, |parts|);
    }
    assert parts'[|parts|].size == size;
    forall i | 0 <= i < |parts'|
      ensures EndOf(parts', i) == EndOf(parts, i)
    {
    }
  }

  lemma LastRemoved(entries: seq<Entry>, parts: seq<Entry>, sectors: int)
    requires Good(parts, sectors) && Holds(entries, parts) && parts != []
    ensures var rest := parts[..|parts| - 1];
            && Laid(rest, sectors) && Actives(rest, |rest|) == Actives(parts, |rest|)
            && (Good(rest, sectors) <==> (|parts| > 1 ==> !parts[|parts| - 1].active))
            && |parts| <= |entries| && Holds(entries[|rest| := EMPTY_ENTRY], rest)
  {
    var rest := parts[..|parts| - 1];
    SamePrefix(parts, rest, |rest|);
    forall i | 0 <= i < |rest|
      ensures EndOf(rest, i) == EndOf(parts, i)
    {
    }
  }

  // The table left when the last partition is removed is accepted exactly if others are left and
  // the removed one was not the active one.
  lemma RemovalAcceptedIff(entries: seq<Entry>, parts: seq<Entry>, sectors: int)
    requires Good(parts, sectors) && Holds(entries, parts) && parts != []
    ensures |parts| <= |entries|
    ensures Accepted(entries[|parts| - 1 := EMPTY_ENTRY], sectors) <==> |parts| > 1 && !parts[|parts| - 1].active
  {
    hide Accepted, Laid;
    LastRemoved(entries, parts, sectors);
    LaidAcceptedIff(entries[|parts| - 1 := EMPTY_ENTRY], parts[..|parts| - 1], sectors);
  }

  // It happens: of two partitions the second is the active one; removed, it leaves a table that
  // is no longer taken as partitioned.
  lemma ActiveLastRemoved() returns (entries: seq<Entry>, parts: seq<Entry>)
    ensures Good(parts, 300) && Holds(entries, parts) && |parts| == 2 <= |entries| && Accepted(entries, 300)
    ensures !Accepted(entries[1 := EMPTY_ENTRY], 300)
  {
    hide Accepted;
    parts := [Entry(false, SI_EMTY, 63, 100), Entry(true, SI_EMTY, 163, 100)];
    entries := parts + [EMPTY_ENTRY, EMPTY_ENTRY];
    assert Actives(parts, 0) == 0 && Actives(parts, 1) == 0;
    GoodAccepted(entries, parts, 300);
    RemovalAcceptedIff(entries, parts, 300);
  }
}
