// The chain of logical partitions inside an extended partition (drivers/PartitionManager.cpp).
module Partitions {
  const WORD := 0x1_0000_0000
  const DEF_START_SEC := 63
  const SI_EXT := 5
  const SI_EMTY := 1

  // An entry of a partition table: its system indicator, start and number of sectors.
  datatype Info = Info(system: int, start: int, size: int) {
    predicate IsEmpty() { system == 0 || size == 0 }
  }

  const NO_ENTRY := Info(0, 0, 0)

  // The first two entries of the table in a boot sector; logical partitions use no others.
  datatype Boot = Boot(first: Info, second: Info)

  // A logical partition: its entry, and the sector of the table that holds it.
  datatype Logical = Logical(info: Info, table: int)

  // Where the i-th of partitions of these sizes begins, counted from the first.
  function Offset(sizes: seq<int>, i: int): int
    requires 0 <= i <= |sizes|
  {
    if i == 0 then 0 else Offset(sizes, i - 1) + sizes[i - 1]
  }

  function EntryFor(size: int): Info {
    Info(SI_EMTY, DEF_START_SEC, size - DEF_START_SEC)
  }

  // The partitions of these sizes, one after the other from sector `at`.
  function Layout(at: int, sizes: seq<int>): (r: seq<Logical>)
    ensures |r| == |sizes|
  {
    if sizes == [] then []
    else
      var n := |sizes| - 1;
      Layout(at, sizes[..n]) + [Logical(EntryFor(sizes[n]), at + Offset(sizes, n))]
  }

  lemma {:induction false} LayoutAt(at: int, sizes: seq<int>, i: int)
    requires 0 <= i < |sizes|
    ensures Layout(at, sizes)[i] == Logical(EntryFor(sizes[i]), at + Offset(sizes, i))
  {
    var n := |sizes| - 1;
    if i < n {
      LayoutAt(at, sizes[..n], i);
      assert sizes == sizes[..n] + [sizes[n]];
      OffsetPrefix(sizes[..n], i, [sizes[n]]);
    }
  }

  lemma {:induction false} OffsetPrefix(sizes: seq<int>, i: int, more: seq<int>)
    requires 0 <= i <= |sizes|
    ensures Offset(sizes + more, i) == Offset(sizes, i)
  {
    if i > 0 {
      OffsetPrefix(sizes, i - 1, more);
    }
  }

  lemma {:induction false} OffsetGrows(sizes: seq<int>, i: int, j: int)
    requires 0 <= i <= j <= |sizes| && Viable(sizes)
    ensures Offset(sizes, j) >= Offset(sizes, i)
    ensures i < j ==> Offset(sizes, j) >= Offset(sizes, i) + sizes[i] > Offset(sizes, i) + DEF_START_SEC
  {
    if i < j {
      OffsetGrows(sizes, i, j - 1);
    }
  }

  // Every partition has room for its table and at least one sector.
  ghost predicate Viable(sizes: seq<int>) {
    forall i :: 0 <= i < |sizes| ==> DEF_START_SEC < sizes[i]
  }

  // The second entry of the i-th table: a link to the next one, relative to the first.
  function Link(sizes: seq<int>, i: int): Info
    requires 0 <= i < |sizes|
  {
    if i + 1 < |sizes| then Info(SI_EXT, Offset(sizes, i + 1), sizes[i + 1]) else NO_ENTRY
  }

  // The table of the i-th partition is on the disk.
  predicate TableOnDisk(disk: map<int, Boot>, at: int, sizes: seq<int>, i: int)
    requires 0 <= i < |sizes|
  {
    at + Offset(sizes, i) in disk && disk[at + Offset(sizes, i)] == Boot(EntryFor(sizes[i]), Link(sizes, i))
  }

  // The disk holds the chain of partitions of these sizes.
  ghost predicate Chained(disk: map<int, Boot>, at: int, sizes: seq<int>) {
    && at in disk && (sizes == [] ==> disk[at].first.IsEmpty())
    && forall i :: 0 <= i < |sizes| ==> TableOnDisk(disk, at, sizes, i)
  }

  // The partitions are apart from each other and inside the extended partition.
  ghost predicate Inside(at: int, total: int, parts: seq<Logical>) {
    && (forall i :: 0 <= i < |parts| ==>
          at <= parts[i].table < parts[i].table + parts[i].info.start && 0 < parts[i].info.size
          && parts[i].table + parts[i].info.start + parts[i].info.size <= at + total)
    && (forall i, j :: 0 <= i < j < |parts| ==>
          parts[i].table + parts[i].info.start + parts[i].info.size <= parts[j].table)
  }

  lemma LayoutInside(at: int, total: int, sizes: seq<int>)
    requires Viable(sizes) && Offset(sizes, |sizes|) <= total
    ensures Inside(at, total, Layout(at, sizes))
  {
    hide Layout, Offset;
    var parts := Layout(at, sizes);
    forall i | 0 <= i < |sizes|
      ensures at <= parts[i].table < parts[i].table + parts[i].info.start && 0 < parts[i].info.size
      ensures parts[i].table + parts[i].info.start + parts[i].info.size <= at + total
    {
      LayoutAt(at, sizes, i);
      FirstOffset(sizes);
      OffsetGrows(sizes, 0, i);
      OffsetGrows(sizes, i, |sizes|);
    }
    forall i, j | 0 <= i < j < |sizes|
      ensures parts[i].table + parts[i].info.start + parts[i].info.size <= parts[j].table
    {
      LayoutAt(at, sizes, i);
      LayoutAt(at, sizes, j);
      OffsetGrows(sizes, i, j);
    }
  }

  lemma FirstOffset(sizes: seq<int>)
    ensures Offset(sizes, 0) == 0
  {
  }

  // The disk after a partition of this size was added behind the others.
  function Added(disk: map<int, Boot>, at: int, sizes: seq<int>, size: int): map<int, Boot>
    requires at + Offset(sizes, |sizes|) in disk && (sizes != [] ==> at + Offset(sizes, |sizes| - 1) in disk)
  {
    var n, used := |sizes|, Offset(sizes, |sizes|);
    var disk' := disk[at + used := Boot(Info(SI_EMTY, DEF_START_SEC, (size - DEF_START_SEC) % WORD), NO_ENTRY)];
    if n == 0 then disk'
    else
      var last := at + Offset(sizes, n - 1);
      disk'[last := disk'[last].(second := Info(SI_EXT, used, size))]
  }

  // The tables before the new one: only the last of them changes, to link to it.
  lemma AddedBefore(disk: map<int, Boot>, at: int, sizes: seq<int>, size: int, i: int)
    requires 0 <= i < |sizes| && Viable(sizes) && TableOnDisk(disk, at, sizes, i)
    requires at + Offset(sizes, |sizes|) in disk && at + Offset(sizes, |sizes| - 1) in disk
    ensures TableOnDisk(Added(disk, at, sizes, size), at, sizes + [size], i)
  {
    OffsetPrefix(sizes, i, [size]);
    OffsetPrefix(sizes, i + 1, [size]);
    OffsetGrows(sizes, i, |sizes|);
    OffsetGrows(sizes, i, |sizes| - 1);
  }

  // The new table.
  lemma AddedLast(disk: map<int, Boot>, at: int, sizes: seq<int>, size: int)
    requires Viable(sizes) && at + Offset(sizes, |sizes|) in disk
    requires (sizes != [] ==> at + Offset(sizes, |sizes| - 1) in disk)
    ensures Offset(sizes + [size], |sizes|) == Offset(sizes, |sizes|)
    ensures var sector := at + Offset(sizes, |sizes|);
            && sector in Added(disk, at, sizes, size)
            && Added(disk, at, sizes, size)[sector] ==
               Boot(Info(SI_EMTY, DEF_START_SEC, (size - DEF_START_SEC) % WORD), NO_ENTRY)
  {
    OffsetPrefix(sizes, |sizes|, [size]);
    if sizes != [] {
      OffsetGrows(sizes, |sizes| - 1, |sizes|);
    }
  }

  lemma AddedChains(disk: map<int, Boot>, at: int, sizes: seq<int>, size: int)
    requires Chained(disk, at, sizes) && Viable(sizes) && DEF_START_SEC < size < WORD
    requires at + Offset(sizes, |sizes|) in disk
    ensures sizes != [] ==> at + Offset(sizes, |sizes| - 1) in disk
    ensures Chained(Added(disk, at, sizes, size), at, sizes + [size]) && Viable(sizes + [size])
    ensures Offset(sizes + [size], |sizes| + 1) == Offset(sizes, |sizes|) + size
  {
    assert sizes != [] ==> TableOnDisk(disk, at, sizes, |sizes| - 1);
    OffsetPrefix(sizes, |sizes|, [size]);
    forall i | 0 <= i < |sizes + [size]|
      ensures TableOnDisk(Added(disk, at, sizes, size), at, sizes + [size], i)
    {
      if i < |sizes| {
        AddedBefore(disk, at, sizes, size, i);
      } else {
        AddedLast(disk, at, sizes, size);
      }
    }
  }

  // The disk after the last partition was removed.
  function Removed(disk: map<int, Boot>, at: int, sizes: seq<int>): map<int, Boot>
    requires sizes != [] && at + Offset(sizes, |sizes| - 1) in disk
    requires |sizes| > 1 ==> at + Offset(sizes, |sizes| - 2) in disk
  {
    var n := |sizes|;
    var disk' := if n > 1 then disk[at + Offset(sizes, n - 2) := disk[at + Offset(sizes, n - 2)].(second := NO_ENTRY)]
        else disk;
    disk'[at + Offset(sizes, n - 1) := Boot(NO_ENTRY, NO_ENTRY)]
  }

  lemma RemovedAt(disk: map<int, Boot>, at: int, sizes: seq<int>, i: int)
    requires 0 <= i < |sizes| - 1 && Viable(sizes) && at + Offset(sizes, |sizes| - 1) in disk
    requires at + Offset(sizes, |sizes| - 2) in disk
    requires TableOnDisk(disk, at, sizes, i)
    ensures TableOnDisk(Removed(disk, at, sizes), at, sizes[..|sizes| - 1], i)
  {
    var n, rest := |sizes|, sizes[..|sizes| - 1];
    assert sizes == rest + [sizes[n - 1]];
    OffsetPrefix(rest, i, [sizes[n - 1]]);
    OffsetPrefix(rest, i + 1, [sizes[n - 1]]);
    OffsetGrows(sizes, i, n - 1);
    OffsetGrows(sizes, i, n - 2);
    OffsetGrows(sizes, n - 2, n - 1);
  }

  lemma TableOnDiskAt(disk: map<int, Boot>, at: int, sizes: seq<int>, i: int)
    requires 0 <= i < |sizes| && TableOnDisk(disk, at, sizes, i)
    ensures at + Offset(sizes, i) in disk
  {
  }

  lemma RemovedFirst(disk: map<int, Boot>, at: int, sizes: seq<int>)
    requires sizes != [] && Viable(sizes) && at in disk && at + Offset(sizes, |sizes| - 1) in disk
    requires |sizes| > 1 ==> at + Offset(sizes, |sizes| - 2) in disk
    ensures at in Removed(disk, at, sizes) && (|sizes| == 1 ==> Removed(disk, at, sizes)[at].first.IsEmpty())
  {
  }

  lemma OffsetInPrefix(sizes: seq<int>, i: int)
    requires sizes != [] && 0 <= i < |sizes|
    ensures Offset(sizes[..|sizes| - 1], i) == Offset(sizes, i)
  {
  }

  lemma RemovedChains(disk: map<int, Boot>, at: int, sizes: seq<int>)
    requires sizes != [] && Chained(disk, at, sizes) && Viable(sizes)
    ensures at + Offset(sizes, |sizes| - 1) in disk && (|sizes| > 1 ==> at + Offset(sizes, |sizes| - 2) in disk)
    ensures Chained(Removed(disk, at, sizes), at, sizes[..|sizes| - 1]) && Viable(sizes[..|sizes| - 1])
    ensures Offset(sizes[..|sizes| - 1], |sizes| - 1) == Offset(sizes, |sizes| - 1)
  {
    hide TableOnDisk, Link, EntryFor, Removed, Offset;
    var n, rest := |sizes|, sizes[..|sizes| - 1];
    TableOnDiskAt(disk, at, sizes, n - 1);
    if n > 1 {
      TableOnDiskAt(disk, at, sizes, n - 2);
    }
    OffsetInPrefix(sizes, n - 1);
    RemovedFirst(disk, at, sizes);
    forall i | 0 <= i < |rest|
      ensures TableOnDisk(Removed(disk, at, sizes), at, rest, i)
    {
      RemovedAt(disk, at, sizes, i);
    }
  }

  // What the walk along the chain from a sector reads: links are relative to the first table.
  ghost predicate ReadsAs(disk: map<int, Boot>, at: int, sector: int, parts: seq<Logical>)
    decreases |parts|
  {
    && sector in disk
    && if parts == [] then disk[sector].first.IsEmpty()
       else
         && !disk[sector].first.IsEmpty() && parts[0] == Logical(disk[sector].first, sector)
         && if disk[sector].second.IsEmpty() then |parts| == 1
            else ReadsAs(disk, at, at + disk[sector].second.start, parts[1..])
  }

  lemma {:induction false} ChainReads(disk: map<int, Boot>, at: int, sizes: seq<int>, i: int)
    requires Chained(disk, at, sizes) && Viable(sizes) && 0 <= i < |sizes|
    ensures ReadsAs(disk, at, at + Offset(sizes, i), Layout(at, sizes)[i..])
    decreases |sizes| - i
  {
    assert TableOnDisk(disk, at, sizes, i);
    LayoutAt(at, sizes, i);
    if i + 1 < |sizes| {
      ChainReads(disk, at, sizes, i + 1);
      assert Layout(at, sizes)[i..][1..] == Layout(at, sizes)[i + 1..];
    }
  }

  // Read from its first table, the chain gives exactly the partitions it was made of.
  lemma ChainReadsBack(disk: map<int, Boot>, at: int, sizes: seq<int>)
    requires Chained(disk, at, sizes) && Viable(sizes)
    ensures ReadsAs(disk, at, at, Layout(at, sizes))
  {
    if sizes != [] {
      ChainReads(disk, at, sizes, 0);
      assert Layout(at, sizes)[0..] == Layout(at, sizes);
    }
  }

  // A walk of as many partitions as were added ends at the one added last.
  lemma {:induction false} LastRead(disk: map<int, Boot>, at: int, sizes: seq<int>, size: int, i: int,
          parts: seq<Logical>)
    requires Chained(disk, at, sizes) && Viable(sizes) && at + Offset(sizes, |sizes|) in disk && 0 <= i <= |sizes|
    requires sizes != [] ==> at + Offset(sizes, |sizes| - 1) in disk
    requires |parts| == |sizes| + 1 - i && ReadsAs(Added(disk, at, sizes, size), at, at + Offset(sizes, i), parts)
    ensures parts[|parts| - 1].info == Info(SI_EMTY, DEF_START_SEC, (size - DEF_START_SEC) % WORD)
    ensures parts[|parts| - 1].table == at + Offset(sizes, |sizes|)
    decreases |sizes| - i
  {
    AddedLast(disk, at, sizes, size);
    if i < |sizes| {
      assert TableOnDisk(disk, at, sizes, i);
      AddedBefore(disk, at, sizes, size, i);
      OffsetPrefix(sizes, i, [size]);
      OffsetPrefix(sizes, i + 1, [size]);
      LastRead(disk, at, sizes, size, i + 1, parts[1..]);
    }
  }

  // A partition added where it fits is read back inside the extended partition exactly if it is
  // larger than the gap before its first sector; the code does not check that.
  lemma AddedReadsBackIff(disk: map<int, Boot>, at: int, total: int, sizes: seq<int>, size: int)
    requires Chained(disk, at, sizes) && Viable(sizes) && at + Offset(sizes, |sizes|) in disk
    requires 0 <= at && 0 <= size && Offset(sizes, |sizes|) + size <= total < WORD
    ensures sizes != [] ==> at + Offset(sizes, |sizes| - 1) in disk
    ensures (exists parts :: |parts| == |sizes| + 1 && ReadsAs(Added(disk, at, sizes, size), at, at, parts)
              && Inside(at, total, parts))
            <==> DEF_START_SEC < size
  {
    assert sizes != [] ==> TableOnDisk(disk, at, sizes, |sizes| - 1);
    OffsetGrows(sizes, 0, |sizes|);
    if DEF_START_SEC < size {
      AddedChains(disk, at, sizes, size);
      ChainReadsBack(Added(disk, at, sizes, size), at, sizes + [size]);
      LayoutInside(at, total, sizes + [size]);
    } else {
      forall parts | |parts| == |sizes| + 1 && ReadsAs(Added(disk, at, sizes, size), at, at, parts)
        ensures !Inside(at, total, parts)
      {
        LastRead(disk, at, sizes, size, 0, parts);
        TooLarge(at, total, size, parts);
      }
    }
  }

  lemma TooLarge(at: int, total: int, size: int, parts: seq<Logical>)
    requires parts != [] && 0 <= size <= DEF_START_SEC && total < WORD
    requires parts[|parts| - 1].info == Info(SI_EMTY, DEF_START_SEC, (size - DEF_START_SEC) % WORD)
    ensures !Inside(at, total, parts)
  {
  }

  datatype Command = Create(size: int) | Delete

  // The sizes of the partitions after a command that is carried out.
  function Changed(sizes: seq<int>, command: Command, total: int): seq<int> {
    match command
    case Create(size) => if Offset(sizes, |sizes|) + size <= total then sizes + [size] else sizes
    case Delete => if sizes == [] then sizes else sizes[..|sizes| - 1]
  }

  function AfterAll(sizes: seq<int>, commands: seq<Command>, total: int): seq<int>
    decreases |commands|
  {
    if commands == [] then sizes
    else Changed(AfterAll(sizes, commands[..|commands| - 1], total), commands[|commands| - 1], total)
  }

  // The creates that were carried out less the deletes that were.
  function Balance(commands: seq<Command>, done: seq<bool>): int
    requires |commands| == |done|
  {
    if commands == [] then 0
    else
      var n := |commands| - 1;
      Balance(commands[..n], done[..n]) + if !done[n] then 0 else if commands[n].Create? then 1 else -1
  }

  // No delete of the run comes down to the k-th of the partitions there were at first.
  predicate Untouched(commands: seq<Command>, done: seq<bool>, count: int, k: int)
    requires |commands| == |done|
  {
    k < count + Balance(commands, done) &&
    (commands == [] || Untouched(commands[..|commands| - 1], done[..|done| - 1], count, k))
  }

  // The list after a run: as many partitions as the balance says, those untouched being the same.
  ghost predicate Carried<T>(list0: seq<T>, list: seq<T>, commands: seq<Command>, done: seq<bool>) {
    && |done| == |commands| && |list| == |list0| + Balance(commands, done)
    && forall k :: 0 <= k < |list0| && Untouched(commands, done, |list0|, k) ==> k < |list| && list[k] == list0[k]
  }

  lemma NothingCarried<T>(list: seq<T>, commands: seq<Command>)
    ensures Carried(list, list, commands[..0], [])
  {
  }

  lemma OneMoreCarried<T>(list0: seq<T>, list: seq<T>, list': seq<T>, commands: seq<Command>, i: int, done: seq<bool>,
                          carried: bool)
    requires 0 <= i < |commands| && Carried(list0, list, commands[..i], done)
    requires |list'| == |list| + if !carried then 0 else if commands[i].Create? then 1 else -1
    requires !carried ==> list' == list
    requires carried && commands[i].Create? ==> list'[..|list|] == list
    requires carried && commands[i].Delete? ==> list' == list[..|list'|]
    ensures Carried(list0, list', commands[..i + 1], done + [carried])
  {
    var done' := done + [carried];
    assert commands[..i + 1][..i] == commands[..i] && done'[..i] == done;
    forall k | 0 <= k < |list0| && Untouched(commands[..i + 1], done', |list0|, k)
      ensures k < |list'| && list'[k] == list0[k]
    {
      assert Untouched(commands[..i], done, |list0|, k);
      assert carried && commands[i].Create? ==> list'[..|list|][k] == list'[k];
    }
  }

  // What a command makes of the sizes: one more at the end if it fits, the last one less if there is
  // one; a delete takes back what the create before it added.
  lemma ChangedLaw(sizes: seq<int>, size: int, total: int)
    ensures Offset(sizes, |sizes|) + size <= total ==> Changed(sizes, Create(size), total) == sizes + [size]
    ensures Offset(sizes, |sizes|) + size > total ==> Changed(sizes, Create(size), total) == sizes
    ensures |Changed(sizes, Delete, total)| == (if |sizes| == 0 then 0 else |sizes| - 1)
    ensures Changed(sizes, Delete, total) <= sizes
    ensures Offset(sizes, |sizes|) + size <= total ==>
              Changed(Changed(sizes, Create(size), total), Delete, total) == sizes
  {
  }

  lemma DeleteTakesBack(sizes: seq<int>, commands: seq<Command>, size: int, total: int)
    requires var before := AfterAll(sizes, commands, total); Offset(before, |before|) + size <= total
    ensures AfterAll(sizes, commands + [Create(size), Delete], total) == AfterAll(sizes, commands, total)
  {
    var all := commands + [Create(size), Delete];
    var n := |commands|;
    assert all[..n + 1][..n] == commands && all[..|all| - 1] == all[..n + 1] && all[..n + 1][n] == Create(size);
    ChangedLaw(AfterAll(sizes, commands, total), size, total);
  }

  // The command, if it is carried out, adds no partition too small for its gap.
  predicate Keeps(sizes: seq<int>, command: Command, total: int) {
    command.Create? && Offset(sizes, |sizes|) + command.size <= total ==> DEF_START_SEC < command.size
  }

  predicate KeepAll(sizes: seq<int>, commands: seq<Command>, total: int) {
    forall i | 0 <= i < |commands| :: Keeps(AfterAll(sizes, commands[..i], total), commands[i], total)
  }

  // No n partitions can be read from the disk that are apart and inside the extended partition.
  ghost predicate NoneReadsInside(disk: map<int, Boot>, at: int, total: int, n: int) {
    forall parts :: |parts| == n && ReadsAs(disk, at, at, parts) ==> !Inside(at, total, parts)
  }

  class PartitionTable {
    var disk: map<int, Boot>
    // The extended partition.
    const at: int
    const total: int
    var extPartitions: seq<Logical>
    ghost var sizes: seq<int>

    ghost predicate Valid()
      reads this
    {
      && 0 <= at && 0 <= total && at + total < WORD && (forall q :: at <= q < at + total ==> q in disk)
      && Viable(sizes) && Offset(sizes, |sizes|) <= total && Chained(disk, at, sizes)
      && extPartitions == Layout(at, sizes)
    }

    // An empty extended partition.
    constructor (disk: map<int, Boot>, at: int, total: int)
      requires 0 <= at && 0 <= total && at + total < WORD && forall q :: at <= q < at + total ==> q in disk
      requires at in disk && disk[at].first.IsEmpty()
      ensures Valid() && sizes == [] && this.at == at && this.total == total
    {
      this.disk, this.at, this.total := disk, at, total;
      extPartitions, sizes := [], [];
    }

    // Adds a logical partition behind the last one, or fails for want of space. The chain stays
    // good exactly if the partition is larger than the gap before its first sector.
    method CreateExtPartitionEntry(size: int) returns (ok: bool)
      requires Valid() && 0 < size < WORD
      modifies this
      ensures ok <==> Offset(old(sizes), |old(sizes)|) + size <= total
      ensures sizes == Changed(old(sizes), Create(size), total)
      ensures Valid() <==> Keeps(old(sizes), Create(size), total)
      ensures old(sizes) != [] ==> at + Offset(old(sizes), |old(sizes)| - 1) in old(disk)
      ensures if ok then at + Offset(old(sizes), |old(sizes)|) in old(disk)
              && disk == Added(old(disk), at, old(sizes), size)
              else disk == old(disk)
      ensures var n := |old(extPartitions)|;
              var end := if n == 0 then at
                         else var last := old(extPartitions)[n - 1]; last.table + last.info.start + last.info.size;
              && (ok <==> end + size <= at + total)
              && extPartitions == if ok then old(extPartitions)
                                             + [Logical(Info(1, 63, (size - 63) % 0x1_0000_0000), end)]
                                  else old(extPartitions)
      ensures ok && 63 < size ==> ReadsAs(disk, at, at, extPartitions)
    {
      hide Chained, Viable, Layout;
      var used := 0;
      if extPartitions != [] {
        LayoutAt(at, sizes, |sizes| - 1);
        var last := extPartitions[|extPartitions| - 1];
        used := last.table + last.info.start + last.info.size - at;
      }
      assert used == Offset(sizes, |sizes|);
      LastTable(disk, at, sizes);
      if total >= used {
        if total - used < size {
          return false;
        }
      }
      UsedInside(sizes);
      var info := Info(SI_EMTY, DEF_START_SEC, (size - DEF_START_SEC) % WORD);
      var sector := used + at;
      if DEF_START_SEC < size {
        AddedChains(disk, at, sizes, size);
        LayoutGrows(at, sizes, size);
      } else {
        NotViable(sizes, size);
      }
      disk := disk[sector := Boot(info, NO_ENTRY)];
      if extPartitions != [] {
        var previous := extPartitions[|extPartitions| - 1].table;
        disk := disk[previous := disk[previous].(second := Info(SI_EXT, used, size))];
      }
      extPartitions := extPartitions + [Logical(info, sector)];
      sizes := sizes + [size];
      if DEF_START_SEC < size {
        ChainReadsBack(disk, at, sizes);
      }
      return true;
    }

    // Removes the last logical partition, or fails if there is none.
    method DeleteExtPartition() returns (ok: bool)
      requires Valid()
      modifies this
      ensures Valid() && (ok <==> old(sizes) != []) && sizes == Changed(old(sizes), Delete, total)
      ensures ok <==> old(extPartitions) != []
      ensures ok ==> extPartitions == old(extPartitions)[..|old(extPartitions)| - 1]
      ensures !ok ==> extPartitions == old(extPartitions) && disk == old(disk)
      ensures ReadsAs(disk, at, at, extPartitions)
    {
      hide Chained, Viable, Layout;
      if extPartitions == [] {
        ChainReadsBack(disk, at, sizes);
        return false;
      }
      RemovedChains(disk, at, sizes);
      var n := |extPartitions|;
      LayoutAt(at, sizes, n - 1);
      var current := extPartitions[n - 1].table;
      if n > 1 {
        LayoutAt(at, sizes, n - 2);
        var previous := extPartitions[n - 2].table;
        disk := disk[previous := disk[previous].(second := NO_ENTRY)];
      }
      disk := disk[current := Boot(NO_ENTRY, NO_ENTRY)];
      extPartitions := extPartitions[..n - 1];
      LayoutShrinks(at, sizes);
      sizes := sizes[..n - 1];
      ChainReadsBack(disk, at, sizes);
      return true;
    }

    // The walk of ReadMBRPartition along the chain on the disk; it ends, as the chain does.
    method ReadExtPartitions(ghost parts: seq<Logical>) returns (read: seq<Logical>)
      requires ReadsAs(disk, at, at, parts)
      ensures read == parts
    {
      read := [];
      var sector := at;
      while true
        invariant |read| <= |parts| && read == parts[..|read|] && ReadsAs(disk, at, sector, parts[|read|..])
        decreases |parts| - |read|
      {
        var boot := disk[sector];
        if boot.first.IsEmpty() {
          return;
        }
        assert parts[|read|..][1..] == parts[|read| + 1..];
        read := read + [Logical(boot.first, sector)];
        if boot.second.IsEmpty() {
          return;
        }
        sector := at + boot.second.start;
      }
    }

    // One command; `ok` says that it leaves a chain of partitions, `done` that it was carried out.
    method Carry(command: Command) returns (ok: bool, done: bool)
      requires Valid() && (command.Create? ==> 0 < command.size < WORD)
      modifies this
      ensures (ok <==> Keeps(old(sizes), command, total)) && sizes == Changed(old(sizes), command, total)
      ensures if ok then Valid() else NoneReadsInside(disk, at, total, |sizes|)
      ensures |extPartitions| == |old(extPartitions)| + if !done then 0 else if command.Create? then 1 else -1
      ensures !done ==> extPartitions == old(extPartitions)
      ensures done && command.Create? ==> extPartitions[..|old(extPartitions)|] == old(extPartitions)
      ensures done && command.Delete? ==> extPartitions == old(extPartitions)[..|extPartitions|]
    {
      hide Chained, Viable, ReadsAs, Inside, Added, Layout;
      ghost var before, made := disk, sizes;
      ok := true;
      match command {
        case Create(size) =>
          FitsInside(disk, at, total, sizes, size);
          done := CreateExtPartitionEntry(size);
          if done && size <= DEF_START_SEC {
            AddedReadsBackIff(before, at, total, made, size);
            ok := false;
          }
        case Delete =>
          done := DeleteExtPartition();
      }
    }

    // After any sequence of creates and deletes the disk reads back as the same partitions in
    // the same order, apart from each other and inside the extended partition, exactly if no
    // partition too small for its gap was added.
    method Run(commands: seq<Command>) returns (ok: bool, read: seq<Logical>, done: seq<bool>)
      requires Valid() && forall c :: c in commands && c.Create? ==> 0 < c.size < WORD
      modifies this
      ensures ok <==> KeepAll(old(sizes), commands, total)
      ensures ok ==> Valid() && sizes == AfterAll(old(sizes), commands, total)
      ensures ok ==> read == extPartitions == Layout(at, sizes) && Inside(at, total, read)
      ensures !ok ==> NoneReadsInside(disk, at, total, |sizes|)
      ensures ok ==> Carried(old(extPartitions), read, commands, done)
    {
      hide Chained, Viable, Keeps, NoneReadsInside, Changed, Carried;
      read, done := [], [];
      NothingCarried(extPartitions, commands);
      for i := 0 to |commands|
        invariant Valid() && sizes == AfterAll(old(sizes), commands[..i], total)
        invariant Carried(old(extPartitions), extPartitions, commands[..i], done)
        invariant forall k :: 0 <= k < i ==> Keeps(AfterAll(old(sizes), commands[..k], total), commands[k], total)
      {
        assert commands[..i + 1][..i] == commands[..i];
        assert commands[i] in commands;
        ghost var before := extPartitions;
        var carried;
        ok, carried := Carry(commands[i]);
        if !ok {
          return;
        }
        OneMoreCarried(old(extPartitions), before, extPartitions, commands, i, done, carried);
        done := done + [carried];
      }
      assert commands[..|commands|] == commands;
      ChainReadsBack(disk, at, sizes);
      LayoutInside(at, total, sizes);
      read := ReadExtPartitions(Layout(at, sizes));
      ok := true;
    }
  }

  lemma FitsInside(disk: map<int, Boot>, at: int, total: int, sizes: seq<int>, size: int)
    requires 0 < size && Viable(sizes) && forall q :: at <= q < at + total ==> q in disk
    ensures Offset(sizes, |sizes|) + size <= total ==> at + Offset(sizes, |sizes|) in disk
  {
    UsedInside(sizes);
  }

  lemma LastTable(disk: map<int, Boot>, at: int, sizes: seq<int>)
    requires Chained(disk, at, sizes)
    ensures sizes != [] ==> at + Offset(sizes, |sizes| - 1) in disk
  {
    assert sizes != [] ==> TableOnDisk(disk, at, sizes, |sizes| - 1);
  }

  lemma NotViable(sizes: seq<int>, size: int)
    requires size <= DEF_START_SEC
    ensures !Viable(sizes + [size])
  {
    assert (sizes + [size])[|sizes|] == size;
  }

  lemma UsedInside(sizes: seq<int>)
    requires Viable(sizes)
    ensures 0 <= Offset(sizes, |sizes|)
  {
    OffsetGrows(sizes, 0, |sizes|);
  }

  lemma LayoutGrows(at: int, sizes: seq<int>, size: int)
    ensures Layout(at, sizes + [size]) == Layout(at, sizes) + [Logical(EntryFor(size), at + Offset(sizes, |sizes|))]
  {
    OffsetPrefix(sizes, |sizes|, [size]);
    assert (sizes + [size])[..|sizes|] == sizes;
  }

  lemma LayoutShrinks(at: int, sizes: seq<int>)
    requires sizes != [] && Viable(sizes)
    ensures Layout(at, sizes[..|sizes| - 1]) == Layout(at, sizes)[..|sizes| - 1]
    ensures Offset(sizes[..|sizes| - 1], |sizes| - 1) <= Offset(sizes, |sizes|)
  {
    var rest, last := sizes[..|sizes| - 1], sizes[|sizes| - 1];
    assert sizes == rest + [last];
    OffsetPrefix(rest, |rest|, [last]);
    OffsetGrows(sizes, |rest|, |sizes|);
  }

  // It happens in an empty extended partition of 100 sectors: a partition of 63 sectors is written
  // with size zero and reads back as none, a smaller one with a size of nearly 2^32.
  lemma SmallPartitionHappens(size: int) returns (disk: map<int, Boot>)
    requires 0 < size <= DEF_START_SEC
    ensures Chained(disk, 0, []) && 0 in disk
    ensures NoneReadsInside(Added(disk, 0, [], size), 0, 100, 1)
  {
    disk := map[0 := Boot(NO_ENTRY, NO_ENTRY)];
    assert Offset([], 0) == 0;
    AddedReadsBackIff(disk, 0, 100, [], size);
  }
}
