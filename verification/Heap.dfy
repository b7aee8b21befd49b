// The kernel heap as a set of blocks and a list of the free ones (memory/DMM.cpp).
module Heaps {

  const HEADER_SIZE := 16
  const WORD := 0x1_0000_0000

  datatype Block = Free(size: int) | Used(size: int, padding: int, request: int)

  // Bytes to skip so that an address becomes a multiple of the alignment.
  function ByteStuffForAlign(address: int, align: int): (padding: int)
    requires 0 <= align
  {
    if align == 0 || address % align == 0 then 0 else align - address % align
  }

  lemma StuffingAligns(address: int, align: int)
    requires 0 <= address && 0 < align
    ensures var padding := ByteStuffForAlign(address, align);
            0 <= padding < align && (address + padding) % align == 0
  {
    var mod := address % align;
    if mod != 0 {
      assert address + (align - mod) == align * (address / align + 1);
      MultipleModulo(align, address / align + 1);
    }
  }

  lemma PaddingNonNegative(address: int, align: int)
    requires 0 <= align
    ensures 0 <= ByteStuffForAlign(address, align)
  {
  }

  lemma MultipleModulo(n: int, k: int)
    requires 0 < n
    ensures n * k % n == 0
  {
    var d := n * k / n;
    assert n * (k - d) == n * k % n;
    if k != d {
      FarFromZero(n, k - d);
    }
  }

  lemma FarFromZero(n: int, k: int)
    requires 0 < n && k != 0
    ensures n * k >= n || n * k <= -n
  {
  }

  // So many bytes behind the header's place the address is a multiple of the alignment, and not sooner.
  predicate Pads(address: int, align: int, padding: int) {
    0 <= padding && if align == 0 then padding == 0 else padding < align && (address + 16 + padding) % align == 0
  }

  lemma PadsIff(address: int, align: int, padding: int)
    requires 0 <= address && 0 <= align
    ensures Pads(address, align, padding) <==> padding == ByteStuffForAlign(address + HEADER_SIZE, align)
  {
    if align > 0 {
      var other := ByteStuffForAlign(address + HEADER_SIZE, align);
      StuffingAligns(address + HEADER_SIZE, align);
      if Pads(address, align, padding) && padding != other {
        var k, l := (address + 16 + padding) / align, (address + 16 + other) / align;
        assert align * (k - l) == padding - other;
        FarFromZero(align, k - l);
      }
    }
  }

  // What a request takes from a block: its bytes, a header, and the padding before the header.
  function Whole(address: int, request: int, align: int): int
    requires 0 <= align
  {
    request + HEADER_SIZE + ByteStuffForAlign(address + HEADER_SIZE, align)
  }

  // The size the allocator compares, in unsigned 32-bit arithmetic.
  function Need(address: int, request: int, align: int): int
    requires 0 <= align
  {
    Whole(address, request, align) % WORD
  }

  datatype Heap = Heap(start: int, size: int, blocks: map<int, Block>, free: seq<int>)

  // The blocks lie side by side from lo to hi: each is inside, holds its header, and ends where
  // another begins or at hi.
  ghost predicate Tiles(blocks: map<int, Block>, lo: int, hi: int) {
    && lo in blocks
    && (forall a :: a in blocks ==> lo <= a && a + blocks[a].size <= hi && HEADER_SIZE <= blocks[a].size)
    && (forall a {:trigger EndsAtBlock(blocks, hi, a)} :: a in blocks ==> EndsAtBlock(blocks, hi, a))
    && (forall a, b :: a in blocks && b in blocks && a < b ==> InOrder(blocks, a, b))
  }

  ghost predicate InOrder(blocks: map<int, Block>, a: int, b: int) {
    a in blocks && a + blocks[a].size <= b
  }

  ghost predicate EndsAtBlock(blocks: map<int, Block>, hi: int, a: int) {
    a in blocks && (a + blocks[a].size == hi || a + blocks[a].size in blocks)
  }

  // Every address of the heap lies in one block and no other.
  lemma {:induction false} TilesCover(blocks: map<int, Block>, lo: int, hi: int, x: int, from: int) returns (a: int)
    requires Tiles(blocks, lo, hi) && from in blocks && from <= x < hi
    ensures a in blocks && a <= x < a + blocks[a].size
    ensures forall b :: b in blocks && b <= x < b + blocks[b].size ==> b == a
    decreases x - from
  {
    if x < from + blocks[from].size {
      a := from;
    } else {
      assert EndsAtBlock(blocks, hi, from);
      a := TilesCover(blocks, lo, hi, x, from + blocks[from].size);
    }
  }

  // An allocated block holds its header, padding and request.
  ghost predicate Roomy(blocks: map<int, Block>) {
    forall a :: a in blocks && blocks[a].Used? ==>
      0 <= blocks[a].padding && 0 <= blocks[a].request
          && blocks[a].padding + HEADER_SIZE + blocks[a].request <= blocks[a].size
  }

  // The free list names every free block once.
  ghost predicate Listed(blocks: map<int, Block>, free: seq<int>) {
    && (forall i :: 0 <= i < |free| ==> free[i] in blocks && blocks[free[i]].Free?)
    && (forall i, j :: 0 <= i < j < |free| ==> free[i] != free[j])
    && (forall a :: a in blocks && blocks[a].Free? ==> a in free)
  }

  ghost predicate Good(h: Heap) {
    && 0 < h.start && h.start + h.size < WORD
    && Tiles(h.blocks, h.start, h.start + h.size) && Roomy(h.blocks) && Listed(h.blocks, h.free)
  }

  // Free block i takes the request, by the allocator's comparison.
  predicate Fits(h: Heap, i: int, request: int, align: int)
    requires 0 <= align
  {
    0 <= i < |h.free| && h.free[i] in h.blocks && Need(h.free[i], request, align) <= h.blocks[h.free[i]].size
  }

  // Free block j is too small for the request, a header and the padding, summed in 32 bits.
  ghost predicate Refuses(h: Heap, j: int, request: int, align: int) {
    0 <= j < |h.free| && h.free[j] in h.blocks
        && forall padding :: Pads(h.free[j], align, padding) ==>
             h.blocks[h.free[j]].size < (request + 16 + padding) % 0x1_0000_0000
  }

  lemma RefusesIff(h: Heap, j: int, request: int, align: int)
    requires 0 <= align && 0 <= j < |h.free| && h.free[j] in h.blocks && 0 <= h.free[j]
    ensures Refuses(h, j, request, align) <==> !Fits(h, j, request, align)
  {
    var padding := ByteStuffForAlign(h.free[j] + HEADER_SIZE, align);
    PadsIff(h.free[j], align, padding);
    forall p | Pads(h.free[j], align, p)
      ensures p == padding
    {
      PadsIff(h.free[j], align, p);
    }
  }

  predicate FirstFit(h: Heap, i: int, request: int, align: int)
    requires 0 <= align
  {
    Fits(h, i, request, align) && forall j :: 0 <= j < i ==> !Fits(h, j, request, align)
  }

  predicate NoFit(h: Heap, request: int, align: int)
    requires 0 <= align
  {
    forall i :: 0 <= i < |h.free| ==> !Fits(h, i, request, align)
  }

  // The heap after free block i was given out; a remainder too small for a header and more than
  // a byte goes with it.
  function Taken(h: Heap, i: int, request: int, align: int): Heap
    requires 0 <= i < |h.free| && h.free[i] in h.blocks && 0 <= align
  {
    var a := h.free[i];
    var need := Need(a, request, align);
    var padding := ByteStuffForAlign(a + HEADER_SIZE, align);
    var remaining := h.blocks[a].size - need;
    if remaining > HEADER_SIZE + 1 then
      h.(blocks := h.blocks[a := Used(need, padding, request)][a + need := Free(remaining)],
            free := h.free[i := a + need])
    else
      h.(blocks := h.blocks[a := Used(h.blocks[a].size, padding, request)], free := h.free[..i] + h.free[i + 1..])
  }

  lemma SplitTiles(blocks: map<int, Block>, lo: int, hi: int, a: int, used: Block, rest: int)
    requires Tiles(blocks, lo, hi) && a in blocks && HEADER_SIZE <= used.size && HEADER_SIZE <= rest
    requires used.size + rest == blocks[a].size
    ensures Tiles(blocks[a := used][a + used.size := Free(rest)], lo, hi) && a + used.size !in blocks
  {
    hide EndsAtBlock, InOrder;
    var b := a + used.size;
    var blocks' := blocks[a := used][b := Free(rest)];
    if b in blocks {
      SplitBetween(blocks, a, used, rest, b);
    }
    forall x | x in blocks'
      ensures EndsAtBlock(blocks', hi, x)
    {
      SplitEnds(blocks, hi, a, used, rest, x);
    }
    forall x, y | x in blocks' && y in blocks' && x < y
      ensures InOrder(blocks', x, y)
    {
      SplitOrder(blocks, a, used, rest, x, y);
    }
  }

  lemma SplitBetween(blocks: map<int, Block>, a: int, used: Block, rest: int, x: int)
    requires a in blocks && used.size + rest == blocks[a].size && (a < x ==> InOrder(blocks, a, x))
    ensures a < x ==> a + used.size + rest <= x
  {
  }

  lemma SplitOrder(blocks: map<int, Block>, a: int, used: Block, rest: int, x: int, y: int)
    requires a in blocks && used.size + rest == blocks[a].size && 0 < used.size && 0 < rest
    requires a + used.size !in blocks && x < y
    requires x in blocks && y in blocks ==> InOrder(blocks, x, y)
    requires a < x && x in blocks ==> InOrder(blocks, a, x)
    requires a < y && y in blocks ==> InOrder(blocks, a, y)
    requires x < a && x in blocks ==> InOrder(blocks, x, a)
    ensures var blocks' := blocks[a := used][a + used.size := Free(rest)];
            x in blocks' && y in blocks' ==> InOrder(blocks', x, y)
  {
  }

  lemma SplitEnds(blocks: map<int, Block>, hi: int, a: int, used: Block, rest: int, x: int)
    requires a in blocks && EndsAtBlock(blocks, hi, a) && used.size + rest == blocks[a].size && a + used.size !in blocks
    requires x in blocks ==> EndsAtBlock(blocks, hi, x)
    ensures var blocks' := blocks[a := used][a + used.size := Free(rest)];
            x in blocks' ==> EndsAtBlock(blocks', hi, x)
  {
  }

  lemma ResizedTiles(blocks: map<int, Block>, lo: int, hi: int, a: int, block: Block)
    requires Tiles(blocks, lo, hi) && a in blocks && block.size == blocks[a].size
    ensures Tiles(blocks[a := block], lo, hi)
  {
    hide EndsAtBlock;
    forall x | x in blocks
      ensures EndsAtBlock(blocks[a := block], hi, x)
    {
      ResizedEnds(blocks, hi, a, block, x);
    }
  }

  lemma ResizedEnds(blocks: map<int, Block>, hi: int, a: int, block: Block, x: int)
    requires a in blocks && block.size == blocks[a].size && EndsAtBlock(blocks, hi, x)
    ensures EndsAtBlock(blocks[a := block], hi, x)
  {
  }

  lemma ListedWithout(blocks: map<int, Block>, free: seq<int>, i: int, used: Block)
    requires Listed(blocks, free) && 0 <= i < |free| && used.Used?
    ensures Listed(blocks[free[i] := used], free[..i] + free[i + 1..])
  {
  }

  lemma ListedMoved(blocks: map<int, Block>, free: seq<int>, i: int, used: Block, b: int, rest: int)
    requires Listed(blocks, free) && 0 <= i < |free| && used.Used? && b !in blocks
    ensures Listed(blocks[free[i] := used][b := Free(rest)], free[i := b])
  {
    var free' := free[i := b];
    assert free'[i] == b;
    forall a | a in blocks && a != free[i] && blocks[a].Free?
      ensures a in free'
    {
      var j :| 0 <= j < |free| && free[j] == a;
      assert free'[j] == a;
    }
  }

  // Giving out a block keeps the heap good; the block holds the request at an aligned address,
  // and every other block is as it was.
  lemma TakenGood(h: Heap, i: int, request: int, align: int)
    requires Good(h) && 0 <= align && 0 <= request
    requires Fits(h, i, request, align) && Whole(h.free[i], request, align) < WORD
    ensures var h', a := Taken(h, i, request, align), h.free[i];
            && Good(h') && a in h'.blocks && h'.blocks[a].Used? && h'.blocks[a].request == request
            && h'.blocks[a].padding == ByteStuffForAlign(a + HEADER_SIZE, align)
            && (forall b :: b in h.blocks && b != a ==> b in h'.blocks && h'.blocks[b] == h.blocks[b])
  {
    hide Tiles, Listed, Roomy, ByteStuffForAlign;
    var a := h.free[i];
    ListedFacts(h.blocks, h.free, i, h.start, h.start + h.size);
    PaddingNonNegative(a + HEADER_SIZE, align);
    var padding := ByteStuffForAlign(a + HEADER_SIZE, align);
    var need := Need(a, request, align);
    var remaining := h.blocks[a].size - need;
    if remaining > HEADER_SIZE + 1 {
      RoomySplit(h.blocks, a, Used(need, padding, request), a + need, remaining);
      SplitTiles(h.blocks, h.start, h.start + h.size, a, Used(need, padding, request), remaining);
      ListedMoved(h.blocks, h.free, i, Used(need, padding, request), a + need, remaining);
    } else {
      RoomyResized(h.blocks, a, Used(h.blocks[a].size, padding, request));
      ResizedTiles(h.blocks, h.start, h.start + h.size, a, Used(h.blocks[a].size, padding, request));
      ListedWithout(h.blocks, h.free, i, Used(h.blocks[a].size, padding, request));
    }
  }

  lemma RoomySplit(blocks: map<int, Block>, a: int, used: Block, b: int, rest: int)
    requires Roomy(blocks) && used.Used? && 0 <= used.padding && 0 <= used.request
    requires used.padding + HEADER_SIZE + used.request <= used.size && a != b
    ensures Roomy(blocks[a := used][b := Free(rest)])
  {
  }

  lemma RoomyResized(blocks: map<int, Block>, a: int, used: Block)
    requires Roomy(blocks) && used.Used? && 0 <= used.padding && 0 <= used.request
    requires used.padding + HEADER_SIZE + used.request <= used.size
    ensures Roomy(blocks[a := used])
  {
  }

  lemma ListedFacts(blocks: map<int, Block>, free: seq<int>, i: int, lo: int, hi: int)
    requires Listed(blocks, free) && Tiles(blocks, lo, hi) && 0 <= i < |free|
    ensures free[i] in blocks && blocks[free[i]].Free? && lo <= free[i]
  {
  }

  // The heap after a block was given back: it becomes the first of the free list.
  function Released(h: Heap, a: int): Heap
    requires a in h.blocks
  {
    h.(blocks := h.blocks[a := Free(h.blocks[a].size)], free := [a] + h.free)
  }

  lemma ReleasedGood(h: Heap, a: int)
    requires Good(h) && a in h.blocks && h.blocks[a].Used?
    ensures Good(Released(h, a))
  {
    var free' := [a] + h.free;
    ResizedTiles(h.blocks, h.start, h.start + h.size, a, Free(h.blocks[a].size));
    forall b | b in h.blocks && h.blocks[b].Free?
      ensures b in free'
    {
      assert b in h.free;
    }
    assert free'[0] == a;
  }

  // The one block a heap is set up with whenever its free list is empty.
  function Fresh(h: Heap): Heap {
    h.(blocks := map[h.start := Free(h.size)], free := [h.start])
  }

  // Any block given back can be given out again, and is the first to be tried.
  lemma ReleasedIs(h: Heap, a: int)
    requires a in h.blocks
    ensures var h' := Released(h, a);
            && h'.start == h.start && h'.size == h.size && |h'.free| == |h.free| + 1
            && h'.free[0] == a && h'.free[1..] == h.free && h'.blocks.Keys == h.blocks.Keys
            && h'.blocks[a] == Free(h.blocks[a].size)
            && forall b :: b in h.blocks && b != a ==> h'.blocks[b] == h.blocks[b]
  {
  }

  // What the allocator searches: the free list, or a heap set up anew if there is none.
  function Ready(h: Heap): Heap {
    if h.free == [] then Fresh(h) else h
  }

  ghost predicate Usable(h: Heap) {
    && 0 < h.start && HEADER_SIZE <= h.size && h.start + h.size < WORD
    && (Good(h) || (h.blocks == map[] && h.free == []))
  }

  lemma ReadyGood(h: Heap)
    requires Usable(h)
    ensures Good(Ready(h))
  {
  }

  // No live block reaches into the addresses from lo to hi.
  ghost predicate ClearOfLive(blocks: map<int, Block>, lo: int, hi: int) {
    forall b :: b in blocks && blocks[b].Used? ==> b + blocks[b].size <= lo || hi <= b
  }

  // What the next allocation hands out is clear of every live block exactly if the free list
  // still has an entry or nothing was ever allocated: with live blocks and an empty list the heap
  // is set up anew over them.
  lemma AllocationFreshIff(h: Heap, i: int, request: int, align: int)
    requires Usable(h) && 0 <= align && 0 <= request && Good(Ready(h)) && FirstFit(Ready(h), i, request, align)
    requires Whole(Ready(h).free[i], request, align) < WORD
    ensures var a, h' := Ready(h).free[i], Taken(Ready(h), i, request, align);
            && a in h'.blocks
            && (ClearOfLive(h.blocks, a, a + h'.blocks[a].size) <==> (h.free != [] || h.blocks == map[]))
  {
    hide Good, Taken, Tiles, Roomy, Listed, ClearOfLive, Whole;
    var a, h' := Ready(h).free[i], Taken(Ready(h), i, request, align);
    TakenGood(Ready(h), i, request, align);
    TakenShrinks(Ready(h), i, request, align);
    BlockHasRoom(h', a);
    if h.free != [] {
      FreeIsClear(h, i, a + h'.blocks[a].size);
    } else if h.blocks == map[] {
      NothingToClear(a, a + h'.blocks[a].size);
    } else {
      StartNotClear(h, a + h'.blocks[a].size);
    }
  }

  lemma BlockHasRoom(h: Heap, a: int)
    requires Good(h) && a in h.blocks
    ensures 0 < h.blocks[a].size
  {
  }

  // A free block is clear of the live ones, and so is any part of it from its start.
  lemma FreeIsClear(h: Heap, i: int, hi: int)
    requires Good(h) && 0 <= i < |h.free| && h.free[i] in h.blocks && hi <= h.free[i] + h.blocks[h.free[i]].size
    ensures ClearOfLive(h.blocks, h.free[i], hi)
  {
    var a := h.free[i];
    forall b | b in h.blocks && h.blocks[b].Used?
      ensures b + h.blocks[b].size <= a || hi <= b
    {
      assert a < b ==> InOrder(h.blocks, a, b);
      assert b < a ==> InOrder(h.blocks, b, a);
    }
  }

  lemma NothingToClear(lo: int, hi: int)
    ensures ClearOfLive(map[], lo, hi)
  {
  }

  // A heap without free blocks has a live one at its start.
  lemma StartNotClear(h: Heap, hi: int)
    requires Good(h) && h.free == [] && h.start < hi
    ensures !ClearOfLive(h.blocks, h.start, hi)
  {
    assert h.start in h.blocks && h.blocks[h.start].Used?;
  }

  // The block given out is no larger than the free block it comes from.
  lemma TakenShrinks(h: Heap, i: int, request: int, align: int)
    requires 0 <= align && Fits(h, i, request, align)
    ensures h.free[i] in Taken(h, i, request, align).blocks
    ensures Taken(h, i, request, align).blocks[h.free[i]].size <= h.blocks[h.free[i]].size
  {
  }

  // Giving out a block that fits marks it allocated and keeps the heap good exactly if its size
  // sum does not wrap.
  lemma TakenGoodIff(h: Heap, i: int, request: int, align: int)
    requires Good(h) && 0 <= align && 0 <= request
    requires Fits(h, i, request, align)
    ensures var h', a := Taken(h, i, request, align), h.free[i];
            (Good(h') && a in h'.blocks && h'.blocks[a].Used?) <==> Whole(a, request, align) < WORD
  {
    var a := h.free[i];
    if Whole(a, request, align) < WORD {
      TakenGood(h, i, request, align);
    } else {
      WrappedNotRoomy(h, i, request, align);
    }
  }

  // It happens: the first request takes a heap as a whole and leaves no free block, and the second
  // one is given the same addresses.
  lemma HandedOutTwice(size: int) returns (h: Heap, h': Heap)
    requires HEADER_SIZE <= size < 0x8000_0000
    ensures h == Heap(1, size, map[], []) && h' == Taken(Ready(h), 0, size - HEADER_SIZE, 0) && Good(h')
    ensures FirstFit(Ready(h), 0, size - HEADER_SIZE, 0) && FirstFit(Ready(h'), 0, size - HEADER_SIZE, 0)
    ensures h'.free == [] && 1 in h'.blocks && h'.blocks[1].Used? && Ready(h').free[0] == 1
    ensures !ClearOfLive(h'.blocks, 1, 1 + size)
  {
    h := Heap(1, size, map[], []);
    h' := Taken(Ready(h), 0, size - HEADER_SIZE, 0);
    ReadyGood(h);
    TakenGood(Ready(h), 0, size - HEADER_SIZE, 0);
  }

  // And so does the wrap: a request of nearly 2^32 bytes fits a block of 64 as one of 8.
  lemma WrappedFitHappens() returns (h: Heap, request: int)
    ensures Good(h) && 0 <= request < WORD && FirstFit(h, 0, request, 0) && Need(h.free[0], request, 0) == 8
    ensures var h' := Taken(h, 0, request, 0); !(Good(h') && h.free[0] in h'.blocks && h'.blocks[h.free[0]].Used?)
  {
    h, request := Ready(Heap(1, 64, map[], [])), WORD - 8;
    ReadyGood(Heap(1, 64, map[], []));
    TakenGoodIff(h, 0, request, 0);
  }

  lemma WrappedNotRoomy(h: Heap, i: int, request: int, align: int)
    requires 0 <= align && Fits(h, i, request, align) && h.blocks[h.free[i]].size < WORD
    requires WORD <= Whole(h.free[i], request, align)
    ensures var blocks, a := Taken(h, i, request, align).blocks, h.free[i];
            a in blocks && blocks[a].Used? ==> !Roomy(blocks)
  {
  }

  // Two live blocks never share an address of what was handed out.
  lemma LiveApart(h: Heap, a: int, b: int)
    requires Good(h) && a in h.blocks && b in h.blocks && h.blocks[a].Used? && h.blocks[b].Used? && a < b
    ensures Handed(a, h.blocks[a]) + h.blocks[a].request <= b < Handed(b, h.blocks[b])
  {
  }

  // The address a caller gets for a block.
  function Handed(a: int, block: Block): int
    requires block.Used?
  {
    a + block.padding + HEADER_SIZE
  }
}
