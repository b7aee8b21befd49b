// The scan that refills the pool of free sectors: first the cached table blocks, then the
// blocks on the disk, read eight at a time (filesystem/FileSystem.cpp).
module FreeSectors {
  import opened Volumes
  import opened TableCaches

  const SECTORS_PER_SCAN := 8

  // The free entries of a block from entry j on; `first` is the id of the block's entry 0.
  function FreeFrom(words: seq<int>, first: int, j: int): seq<int>
    requires 0 <= j <= |words|
    decreases |words| - j
  {
    if j == |words| then [] else (if Low28(words[j]) == 0 then [first + j] else []) + FreeFrom(words, first, j + 1)
  }

  // ... of the cached blocks from block k on.
  function FreeCached(cache: seq<Block>, k: int): seq<int>
    requires 0 <= k <= |cache|
    decreases |cache| - k
  {
    if k == |cache| then [] else FreeFrom(cache[k].words, 128 * cache[k].id, 0) + FreeCached(cache, k + 1)
  }

  // ... of the disk blocks i to end.
  function FreeBlocks(disk: seq<seq<int>>, i: int, end: int): seq<int>
    requires 0 <= i <= end <= |disk|
    decreases end - i
  {
    if i == end then [] else FreeFrom(disk[i], 128 * i, 0) + FreeBlocks(disk, i + 1, end)
  }

  function WindowEnd(n: int, i: int): int {
    if n - i > SECTORS_PER_SCAN then i + SECTORS_PER_SCAN else n
  }

  // ... of the disk as it is scanned from block i on: a cached block is skipped, but a read
  // that starts at an absent block takes in whatever follows.
  function FreeOnDisk(cache: seq<Block>, disk: seq<seq<int>>, i: int): seq<int>
    requires 0 <= i <= |disk|
    decreases |disk| - i
  {
    if i == |disk| then []
    else if Cached(cache, i) then FreeOnDisk(cache, disk, i + 1)
    else FreeBlocks(disk, i, WindowEnd(|disk|, i)) + FreeOnDisk(cache, disk, WindowEnd(|disk|, i))
  }

  predicate NoneFree(words: seq<int>) {
    forall j :: 0 <= j < |words| ==> Low28(words[j]) != 0
  }

  // Of the blocks i to end, read in one go while there is room for `room` more entries, a cached
  // one that is reached has an outdated copy on the disk only if that shows no free entry.
  predicate BlocksClear(cache: seq<Block>, disk: seq<seq<int>>, i: int, end: int, room: int)
    requires 0 <= i <= end <= |disk|
    decreases end - i
  {
    if i == end || room <= 0 then true
    else
      && (Cached(cache, i) ==> NoneFree(disk[i]))
      && BlocksClear(cache, disk, i + 1, end, room - |FreeFrom(disk[i], 128 * i, 0)|)
  }

  // The same of all reads of the scan from block i on.
  predicate WindowsClear(cache: seq<Block>, disk: seq<seq<int>>, i: int, room: int)
    requires 0 <= i <= |disk|
    decreases |disk| - i
  {
    if i == |disk| || room <= 0 then true
    else if Cached(cache, i) then WindowsClear(cache, disk, i + 1, room)
    else
      var end := WindowEnd(|disk|, i);
      BlocksClear(cache, disk, i, end, room) && WindowsClear(cache, disk, end, room - |FreeBlocks(disk, i, end)|)
  }

  // What a queue of the given capacity holds after the elements were pushed until it was full.
  function Filled(pool: seq<int>, list: seq<int>, capacity: nat): seq<int> {
    if |pool + list| <= capacity then pool + list else (pool + list)[..capacity]
  }

  function Upto(list: seq<int>, room: int): seq<int> {
    if room <= 0 then [] else if |list| <= room then list else list[..room]
  }

  ghost predicate Distinct(list: seq<int>) {
    forall i, j :: 0 <= i < j < |list| ==> list[i] != list[j]
  }

  lemma DistinctConcat(a: seq<int>, b: seq<int>)
    requires Distinct(a) && Distinct(b) && forall x :: x in a ==> x !in b
    ensures Distinct(a + b)
  {
    forall i, j | 0 <= i < j < |a + b|
      ensures (a + b)[i] != (a + b)[j]
    {
      if i < |a| <= j {
        assert a[i] in a && b[j - |a|] in b;
      }
    }
  }

  lemma {:induction false} FreeFromIs(words: seq<int>, first: int, j: int)
    requires 0 <= j <= |words|
    ensures Distinct(FreeFrom(words, first, j))
    ensures forall x :: x in FreeFrom(words, first, j) <==>
            first + j <= x < first + |words| && Low28(words[x - first]) == 0
    decreases |words| - j
  {
    if j < |words| {
      FreeFromIs(words, first, j + 1);
      DistinctConcat(if Low28(words[j]) == 0 then [first + j] else [], FreeFrom(words, first, j + 1));
    }
  }

  lemma {:induction false} FreeBlocksIs(disk: seq<seq<int>>, i: int, end: int)
    requires 0 <= i <= end <= |disk| && forall b :: i <= b < end ==> |disk[b]| == 128
    ensures Distinct(FreeBlocks(disk, i, end))
    ensures forall x :: x in FreeBlocks(disk, i, end) <==>
            128 * i <= x < 128 * end && Low28(disk[x / 128][x % 128]) == 0
    decreases end - i
  {
    if i < end {
      FreeFromIs(disk[i], 128 * i, 0);
      FreeBlocksIs(disk, i + 1, end);
      DistinctConcat(FreeFrom(disk[i], 128 * i, 0), FreeBlocks(disk, i + 1, end));
    }
  }

  // The disk scan lists every free entry of an absent block, and nothing twice.
  lemma {:induction false} FreeOnDiskIs(cache: seq<Block>, disk: seq<seq<int>>, i: int)
    requires 0 <= i <= |disk| && forall b :: 0 <= b < |disk| ==> |disk[b]| == 128
    ensures Distinct(FreeOnDisk(cache, disk, i))
    ensures forall x :: x in FreeOnDisk(cache, disk, i) ==>
              128 * i <= x < 128 * |disk| && Low28(disk[x / 128][x % 128]) == 0
    ensures forall x :: 128 * i <= x < 128 * |disk| && !Cached(cache, x / 128) && Low28(disk[x / 128][x % 128]) == 0 ==>
              x in FreeOnDisk(cache, disk, i)
    decreases |disk| - i
  {
    if i < |disk| {
      if Cached(cache, i) {
        FreeOnDiskIs(cache, disk, i + 1);
      } else {
        var end := WindowEnd(|disk|, i);
        FreeBlocksIs(disk, i, end);
        FreeOnDiskIs(cache, disk, end);
        DistinctConcat(FreeBlocks(disk, i, end), FreeOnDisk(cache, disk, end));
      }
    }
  }

  // No entry of the list belongs to a cached block.
  ghost predicate NoneCached(cache: seq<Block>, list: seq<int>) {
    forall x :: x in list ==> !Cached(cache, x / 128)
  }

  lemma UptoConcat(a: seq<int>, b: seq<int>, room: int)
    ensures Upto(a + b, room) == Upto(a, room) + Upto(b, room - |a|)
  {
  }

  lemma NoneCachedConcat(cache: seq<Block>, a: seq<int>, b: seq<int>)
    ensures NoneCached(cache, a + b) <==> NoneCached(cache, a) && NoneCached(cache, b)
  {
    assert forall x :: x in a + b <==> x in a || x in b;
  }

  lemma {:induction false} NothingFree(words: seq<int>, first: int, j: int)
    requires 0 <= j <= |words| && NoneFree(words)
    ensures FreeFrom(words, first, j) == []
    decreases |words| - j
  {
    if j < |words| {
      NothingFree(words, first, j + 1);
    }
  }

  // The entries one block contributes.
  lemma BlockCachedIff(cache: seq<Block>, words: seq<int>, b: int, room: int)
    requires |words| == 128 && 0 <= b && 0 < room
    ensures NoneCached(cache, Upto(FreeFrom(words, 128 * b, 0), room)) <==> (Cached(cache, b) ==> NoneFree(words))
  {
    var list := FreeFrom(words, 128 * b, 0);
    FreeFromIs(words, 128 * b, 0);
    if NoneFree(words) {
      NothingFree(words, 128 * b, 0);
    } else {
      var j :| 0 <= j < 128 && Low28(words[j]) == 0;
      assert 128 * b + j in list;
      assert list[0] in list && list[0] / 128 == b;
      assert Upto(list, room)[0] == list[0];
      forall x | x in Upto(list, room)
        ensures x / 128 == b
      {
        assert x in list;
      }
    }
  }

  lemma {:induction false} BlocksClearIff(cache: seq<Block>, disk: seq<seq<int>>, i: int, end: int, room: int)
    requires 0 <= i <= end <= |disk| && forall b :: 0 <= b < |disk| ==> |disk[b]| == 128
    ensures BlocksClear(cache, disk, i, end, room) <==> NoneCached(cache, Upto(FreeBlocks(disk, i, end), room))
    decreases end - i
  {
    hide NoneCached, Upto, FreeFrom;
    if i == end || room <= 0 {
      NothingUpto(cache, FreeBlocks(disk, i, end), room);
    } else {
      var here, rest := FreeFrom(disk[i], 128 * i, 0), FreeBlocks(disk, i + 1, end);
      BlockCachedIff(cache, disk[i], i, room);
      BlocksClearIff(cache, disk, i + 1, end, room - |here|);
      UptoConcat(here, rest, room);
      NoneCachedConcat(cache, Upto(here, room), Upto(rest, room - |here|));
    }
  }

  lemma NothingUpto(cache: seq<Block>, list: seq<int>, room: int)
    requires list == [] || room <= 0
    ensures NoneCached(cache, Upto(list, room))
  {
  }

  // The windows are clear exactly if no entry that finds room comes from a cached block.
  lemma {:induction false} WindowsClearIff(cache: seq<Block>, disk: seq<seq<int>>, i: int, room: int)
    requires 0 <= i <= |disk| && forall b :: 0 <= b < |disk| ==> |disk[b]| == 128
    ensures WindowsClear(cache, disk, i, room) <==> NoneCached(cache, Upto(FreeOnDisk(cache, disk, i), room))
    decreases |disk| - i
  {
    hide NoneCached, Upto, BlocksClear, FreeBlocks;
    if i == |disk| || room <= 0 {
      NothingUpto(cache, FreeOnDisk(cache, disk, i), room);
    } else if Cached(cache, i) {
      WindowsClearIff(cache, disk, i + 1, room);
    } else {
      var end := WindowEnd(|disk|, i);
      var here, rest := FreeBlocks(disk, i, end), FreeOnDisk(cache, disk, end);
      BlocksClearIff(cache, disk, i, end, room);
      WindowsClearIff(cache, disk, end, room - |here|);
      UptoConcat(here, rest, room);
      NoneCachedConcat(cache, Upto(here, room), Upto(rest, room - |here|));
    }
  }

  lemma {:induction false} FreeCachedIs(cache: seq<Block>, table: seq<int>, k: int)
    requires 0 <= k <= |cache| && Sorted(cache)
    requires forall i :: 0 <= i < |cache| ==> Holds(table, cache[i].id, cache[i].words)
    ensures Distinct(FreeCached(cache, k))
    ensures forall x :: x in FreeCached(cache, k) <==>
              0 <= x < |table| && Low28(table[x]) == 0 && exists i :: k <= i < |cache| && cache[i].id == x / 128
    decreases |cache| - k
  {
    if k < |cache| {
      FreeFromIs(cache[k].words, 128 * cache[k].id, 0);
      FreeCachedIs(cache, table, k + 1);
      assert Holds(table, cache[k].id, cache[k].words);
      DistinctConcat(FreeFrom(cache[k].words, 128 * cache[k].id, 0), FreeCached(cache, k + 1));
    }
  }

  // The list the scan pushes into an empty pool.
  ghost function Scanned(cache: seq<Block>, disk: seq<seq<int>>): seq<int> {
    FreeCached(cache, 0) + FreeOnDisk(cache, disk, 0)
  }

  // The room the cached blocks leave for those on the disk.
  function RoomLeft(cache: seq<Block>, capacity: nat): int {
    capacity - |FreeCached(cache, 0)|
  }

  lemma FilledIs(cache: seq<Block>, disk: seq<seq<int>>, capacity: nat)
    ensures var pool := Filled([], Scanned(cache, disk), capacity);
            && pool == Upto(FreeCached(cache, 0), capacity)
               + Upto(FreeOnDisk(cache, disk, 0), RoomLeft(cache, capacity))
            && |pool| <= capacity && (|pool| < capacity ==> pool == Scanned(cache, disk))
  {
    hide FreeCached, FreeOnDisk;
    assert [] + Scanned(cache, disk) == Scanned(cache, disk);
    UptoConcat(FreeCached(cache, 0), FreeOnDisk(cache, disk, 0), capacity);
  }

  ghost predicate ListsFree(table: seq<int>, list: seq<int>) {
    Distinct(list) && forall x :: x in list ==> 0 <= x < |table| && Low28(table[x]) == 0
  }

  // With clear windows the pool gets free entries only, none of them twice, and all of them
  // unless it is full.
  lemma PoolListsFree(cache: seq<Block>, disk: seq<seq<int>>, table: seq<int>, capacity: nat)
    requires Caches(cache, disk, table) && WindowsClear(cache, disk, 0, RoomLeft(cache, capacity))
    requires forall b :: 0 <= b < |disk| ==> |disk[b]| == 128
    ensures var pool := Filled([], Scanned(cache, disk), capacity);
            && ListsFree(table, pool)
            && (|pool| < capacity ==> forall x :: 0 <= x < |table| && Low28(table[x]) == 0 ==> x in pool)
  {
    hide FreeCached, FreeOnDisk, WindowsClear, Caches, Filled, Upto, NoneCached;
    var cached, onDisk, room := FreeCached(cache, 0), FreeOnDisk(cache, disk, 0), RoomLeft(cache, capacity);
    FilledIs(cache, disk, capacity);
    CachedAre(cache, disk, table);
    OnDiskAre(cache, disk, table);
    WindowsClearIff(cache, disk, 0, room);
    UptoFacts(cached, capacity);
    UptoFacts(onDisk, room);
    NoneCachedAre(cache, Upto(onDisk, room));
    DistinctConcat(Upto(cached, capacity), Upto(onDisk, room));
  }

  lemma UptoFacts(list: seq<int>, room: int)
    ensures forall x :: x in Upto(list, room) ==> x in list
    ensures Distinct(list) ==> Distinct(Upto(list, room))
  {
  }

  lemma NoneCachedAre(cache: seq<Block>, list: seq<int>)
    requires NoneCached(cache, list)
    ensures forall x :: x in list ==> !Cached(cache, x / 128)
  {
  }

  lemma CachedAre(cache: seq<Block>, disk: seq<seq<int>>, table: seq<int>)
    requires Caches(cache, disk, table)
    ensures Distinct(FreeCached(cache, 0))
    ensures forall x :: x in FreeCached(cache, 0) <==>
              0 <= x < |table| && Low28(table[x]) == 0 && Cached(cache, x / 128)
  {
    FreeCachedIs(cache, table, 0);
  }

  lemma OnDiskAre(cache: seq<Block>, disk: seq<seq<int>>, table: seq<int>)
    requires Caches(cache, disk, table) && forall b :: 0 <= b < |disk| ==> |disk[b]| == 128
    ensures Distinct(FreeOnDisk(cache, disk, 0))
    ensures forall x :: !Cached(cache, x / 128) ==>
              (x in FreeOnDisk(cache, disk, 0) <==> 0 <= x < |table| && Low28(table[x]) == 0)
  {
    hide FreeOnDisk;
    FreeOnDiskIs(cache, disk, 0);
    AbsentOnDisk(cache, disk, table);
    assert |table| == 128 * |disk|;
  }

  lemma AbsentOnDisk(cache: seq<Block>, disk: seq<seq<int>>, table: seq<int>)
    requires Caches(cache, disk, table) && forall b :: 0 <= b < |disk| ==> |disk[b]| == 128
    ensures forall x :: 0 <= x < |table| && !Cached(cache, x / 128) ==> disk[x / 128][x % 128] == table[x]
  {
    forall x | 0 <= x < |table| && !Cached(cache, x / 128)
      ensures disk[x / 128][x % 128] == table[x]
    {
      assert Holds(table, x / 128, disk[x / 128]);
    }
  }

  // The refill is right exactly if its windows are clear: else it pools a sector in use, or a
  // free one twice.
  lemma PoolSoundIff(cache: seq<Block>, disk: seq<seq<int>>, table: seq<int>, capacity: nat)
    requires Caches(cache, disk, table) && forall b :: 0 <= b < |disk| ==> |disk[b]| == 128
    ensures ListsFree(table, Filled([], Scanned(cache, disk), capacity))
            <==> WindowsClear(cache, disk, 0, RoomLeft(cache, capacity))
  {
    hide WindowsClear, FreeCached, FreeOnDisk;
    var cached, onDisk, room := FreeCached(cache, 0), FreeOnDisk(cache, disk, 0), RoomLeft(cache, capacity);
    if WindowsClear(cache, disk, 0, room) {
      PoolListsFree(cache, disk, table, capacity);
    } else {
      WindowsClearIff(cache, disk, 0, room);
      var x :| x in Upto(onDisk, room) && Cached(cache, x / 128);
      FilledIs(cache, disk, capacity);
      FreeOnDiskIs(cache, disk, 0);
      assert x in onDisk;
      FreeCachedIs(cache, table, 0);
      ListedTwice(table, cached, Upto(onDisk, room), x);
    }
  }

  lemma ListedTwice(table: seq<int>, a: seq<int>, b: seq<int>, x: int)
    requires x in b && (0 <= x < |table| && Low28(table[x]) == 0 ==> x in a)
    ensures !ListsFree(table, a + b)
  {
    assert x in a + b;
    if x in a {
      var i :| 0 <= i < |a| && a[i] == x;
      var j :| 0 <= j < |b| && b[j] == x;
      assert (a + b)[i] == (a + b)[|a| + j];
    }
  }

  // Windows are clear while the cached blocks are the first m of the table: none, as at a mount,
  // all, or those of a table that fills up from its beginning.
  lemma {:induction false} PrefixCacheClear(cache: seq<Block>, disk: seq<seq<int>>, m: int, i: int, room: int)
    requires 0 <= i <= |disk| && forall b :: i <= b < |disk| ==> (Cached(cache, b) <==> b < m)
    ensures WindowsClear(cache, disk, i, room)
    decreases |disk| - i
  {
    if i < |disk| && 0 < room {
      if Cached(cache, i) {
        PrefixCacheClear(cache, disk, m, i + 1, room);
      } else {
        var end := WindowEnd(|disk|, i);
        NoneCachedClear(cache, disk, i, end, room);
        PrefixCacheClear(cache, disk, m, end, room - |FreeBlocks(disk, i, end)|);
      }
    }
  }

  lemma {:induction false} NoneCachedClear(cache: seq<Block>, disk: seq<seq<int>>, i: int, end: int, room: int)
    requires 0 <= i <= end <= |disk| && forall b :: i <= b < end ==> !Cached(cache, b)
    ensures BlocksClear(cache, disk, i, end, room)
    decreases end - i
  {
    if i < end {
      NoneCachedClear(cache, disk, i + 1, end, room - |FreeFrom(disk[i], 128 * i, 0)|);
    }
  }

  // It does go wrong: block 1 is cached with every entry in use and not yet written back, the
  // scan reads blocks 0 and 1 in one go, and the first sector it pools is in use.
  lemma StaleWindowHappens(capacity: nat) returns (cache: seq<Block>, disk: seq<seq<int>>, table: seq<int>)
    requires 0 < capacity
    ensures Caches(cache, disk, table)
    ensures var pool := Filled([], Scanned(cache, disk), capacity);
            pool != [] && 0 <= pool[0] < |table| && Low28(table[pool[0]]) != 0
  {
    hide FreeBlocks, FreeFrom, Scanned;
    var full, empty := seq(128, _ => EOC), seq(128, _ => 0);
    cache, disk, table := [Block(1, full, 1)], [full, empty], seq(256, _ => EOC);
    assert cache[0].id == 1;
    FreeOnDiskIs(cache, disk, 0);
    FreeBlocksIs(disk, 0, 2);
    assert 128 in FreeBlocks(disk, 0, 2) && FreeOnDisk(cache, disk, 0) == FreeBlocks(disk, 0, 2);
    NothingFree(full, 128, 0);
    var pool := Filled([], Scanned(cache, disk), capacity);
    assert FreeCached(cache, 0) == FreeFrom(full, 128, 0) + FreeCached(cache, 1);
    FirstPooled(cache, disk, capacity);
    assert pool[0] in FreeOnDisk(cache, disk, 0);
  }

  lemma FirstPooled(cache: seq<Block>, disk: seq<seq<int>>, capacity: nat)
    requires 0 < capacity && FreeOnDisk(cache, disk, 0) != []
    requires FreeCached(cache, 0) == []
    ensures var pool := Filled([], Scanned(cache, disk), capacity);
            pool != [] && pool[0] == FreeOnDisk(cache, disk, 0)[0]
  {
    hide FreeCached, FreeOnDisk;
  }
}
