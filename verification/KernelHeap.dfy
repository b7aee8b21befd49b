// The kernel heap allocator, whose headers lie inside the memory it manages (memory/DMM.cpp).
module KernelHeaps {
  import opened Bits
  import opened Heaps

  // The last field is the next free block in a free header and the padding in an allocated one.
  datatype Header = Header(base: int, handed: int, size: int, link: int)

  datatype Allocation = Allocated(address: int) | BadAlign | OutOfMemory

  datatype Deallocation = Success | BadDealloc

  const NULL := 0

  // Memory after the bytes from lo to hi were overwritten: headers that reach into them are gone.
  function Overwritten(mem: map<int, Header>, lo: int, hi: int): map<int, Header> {
    map a | a in mem && (a + HEADER_SIZE <= lo || hi <= a) :: mem[a]
  }

  // Memory after a header was written over whatever lay there.
  function Placed(mem: map<int, Header>, at: int, header: Header): map<int, Header> {
    Overwritten(mem, at, at + HEADER_SIZE)[at := header]
  }

  function HeaderAt(a: int, block: Block): int {
    if block.Used? then a + block.padding else a
  }

  // The header of a block: a free block's size, an allocated block's size and padding.
  ghost predicate Headed(mem: map<int, Header>, a: int, block: Block) {
    var at := HeaderAt(a, block);
    && at in mem && mem[at].base == a && mem[at].size == block.size
    && (block.Used? ==> mem[at].handed == Handed(a, block) && mem[at].link == block.padding)
  }

  ghost predicate AllHeaded(mem: map<int, Header>, blocks: map<int, Block>) {
    forall a :: a in blocks ==> Headed(mem, a, blocks[a])
  }

  function EntryOrNull(free: seq<int>, i: int): int {
    if 0 <= i < |free| then free[i] else NULL
  }

  // The free headers link the free list in order.
  ghost predicate Linked(mem: map<int, Header>, free: seq<int>) {
    forall i :: 0 <= i < |free| ==> free[i] in mem && mem[free[i]].link == EntryOrNull(free, i + 1)
  }

  ghost predicate Encodes(mem: map<int, Header>, head: int, h: Heap) {
    AllHeaded(mem, h.blocks) && Linked(mem, h.free) && head == EntryOrNull(h.free, 0)
  }

  // The header of a block is clear of any bytes of another block.
  lemma HeaderApart(h: Heap, a: int, b: int, lo: int, hi: int)
    requires Good(h) && a in h.blocks && b in h.blocks && a != b && a <= lo && hi <= a + h.blocks[a].size
    ensures var at := HeaderAt(b, h.blocks[b]);
            b <= at && at + HEADER_SIZE <= b + h.blocks[b].size && (at + HEADER_SIZE <= lo || hi <= at)
  {
  }

  // The memory, all but the links, after block i was given out. Only the bytes of that block
  // were written.
  ghost predicate Kept(mem: map<int, Header>, mem': map<int, Header>, lo: int, hi: int) {
    forall at :: at in mem && (at + HEADER_SIZE <= lo || hi <= at) ==> at in mem' && mem'[at] == mem[at]
  }

  lemma OthersHeaded(mem: map<int, Header>, mem': map<int, Header>, h: Heap, a: int, b: int)
    requires Good(h) && a in h.blocks && b in h.blocks && a != b
    requires Headed(mem, b, h.blocks[b]) && Kept(mem, mem', a, a + h.blocks[a].size)
    ensures Headed(mem', b, h.blocks[b])
    ensures h.blocks[b].Free? ==> b in mem' && mem'[b] == mem[b]
  {
  }

  // The memory with the link of free block i - 1, if there is one, set to x.
  function Relinked(mem: map<int, Header>, prev: int, x: int): map<int, Header> {
    if prev != NULL && prev in mem then mem[prev := mem[prev].(link := x)] else mem
  }

  lemma TakenHeaded(mem: map<int, Header>, mem': map<int, Header>, h: Heap, i: int, request: int, align: int,
          prev: int, x: int)
    requires Good(h) && AllHeaded(mem, h.blocks) && 0 <= align && 0 <= request
    requires Fits(h, i, request, align) && Whole(h.free[i], request, align) < WORD
    requires prev == EntryOrNull(h.free, i - 1)
    requires var h', a := Taken(h, i, request, align), h.free[i];
             && Kept(mem, mem', a, a + h.blocks[a].size) && a in h'.blocks && Headed(mem', a, h'.blocks[a])
             && (forall b :: b in h'.blocks && b !in h.blocks ==> Headed(mem', b, h'.blocks[b]))
    ensures AllHeaded(Relinked(mem', prev, x), Taken(h, i, request, align).blocks)
  {
    var h', a := Taken(h, i, request, align), h.free[i];
    TakenGood(h, i, request, align);
    assert prev != NULL ==> prev in h.blocks && h.blocks[prev].Free? && prev != a;
    forall b | b in h'.blocks
      ensures Headed(Relinked(mem', prev, x), b, h'.blocks[b])
    {
      if b in h.blocks && b != a {
        OthersHeaded(mem, mem', h, a, b);
      }
      assert Headed(mem', b, h'.blocks[b]);
      if prev != NULL && b != prev {
        HeaderApart(h', b, prev, HeaderAt(b, h'.blocks[b]), HeaderAt(b, h'.blocks[b]) + HEADER_SIZE);
      }
    }
  }

  // Every other free block keeps its link; the block before the one given out gets the new one.
  lemma OthersLinked(mem: map<int, Header>, mem': map<int, Header>, h: Heap, i: int, j: int, x: int)
    requires Good(h) && AllHeaded(mem, h.blocks) && Linked(mem, h.free) && 0 <= i < |h.free|
    requires h.free[i] in h.blocks && Kept(mem, mem', h.free[i], h.free[i] + h.blocks[h.free[i]].size)
    requires 0 <= j < |h.free| && j != i
    ensures var after := Relinked(mem', EntryOrNull(h.free, i - 1), x);
            h.free[j] in after && after[h.free[j]].link == if j == i - 1 then x else EntryOrNull(h.free, j + 1)
  {
    hide Good, Headed, Kept;
    ListFacts(h, i, j);
    OthersHeaded(mem, mem', h, h.free[i], h.free[j]);
    if i > 0 {
      ListFacts(h, i - 1, j);
    }
  }

  lemma ListFacts(h: Heap, i: int, j: int)
    requires Good(h) && 0 <= i < |h.free| && 0 <= j < |h.free|
    ensures h.free[i] in h.blocks && h.blocks[h.free[i]].Free? && NULL < h.free[i]
    ensures h.free[j] in h.blocks && h.blocks[h.free[j]].Free? && NULL < h.free[j]
    ensures i != j ==> h.free[i] != h.free[j]
  {
  }

  lemma SplitLinked(mem: map<int, Header>, mem': map<int, Header>, h: Heap, i: int, b: int)
    requires Good(h) && AllHeaded(mem, h.blocks) && Linked(mem, h.free) && 0 <= i < |h.free|
    requires h.free[i] in h.blocks && Kept(mem, mem', h.free[i], h.free[i] + h.blocks[h.free[i]].size)
    requires b in mem' && mem'[b].link == EntryOrNull(h.free, i + 1) && b !in h.blocks && b != NULL
    ensures Linked(Relinked(mem', EntryOrNull(h.free, i - 1), b), h.free[i := b])
  {
    hide Good, Headed, Kept, AllHeaded;
    var free', after := h.free[i := b], Relinked(mem', EntryOrNull(h.free, i - 1), b);
    forall j | 0 <= j < |free'|
      ensures free'[j] in after && after[free'[j]].link == EntryOrNull(free', j + 1)
    {
      if j != i {
        OthersLinked(mem, mem', h, i, j, b);
      } else if i > 0 {
        ListFacts(h, i, i - 1);
      }
    }
  }

  lemma WholeLinked(mem: map<int, Header>, mem': map<int, Header>, h: Heap, i: int)
    requires Good(h) && AllHeaded(mem, h.blocks) && Linked(mem, h.free) && 0 <= i < |h.free|
    requires h.free[i] in h.blocks && Kept(mem, mem', h.free[i], h.free[i] + h.blocks[h.free[i]].size)
    ensures Linked(Relinked(mem', EntryOrNull(h.free, i - 1), EntryOrNull(h.free, i + 1)),
              h.free[..i] + h.free[i + 1..])
  {
    hide Good, Headed, Kept, AllHeaded, Relinked;
    var free', x := h.free[..i] + h.free[i + 1..], EntryOrNull(h.free, i + 1);
    var after := Relinked(mem', EntryOrNull(h.free, i - 1), x);
    forall j | 0 <= j < |free'|
      ensures free'[j] in after && after[free'[j]].link == EntryOrNull(free', j + 1)
    {
      var k := if j < i then j else j + 1;
      OthersLinked(mem, mem', h, i, k, x);
    }
  }

  // The memory after free block i was given out, whether or not the size sum wraps: a header behind
  // the padding, one for the remainder, and the link that now skips the block or names the remainder.
  function TakenMemory(mem: map<int, Header>, h: Heap, i: int, request: int, align: int): map<int, Header>
    requires 0 <= i < |h.free| && h.free[i] in h.blocks && 0 <= align
  {
    var a, need := h.free[i], Need(h.free[i], request, align);
    var padding, remaining := ByteStuffForAlign(a + HEADER_SIZE, align), h.blocks[a].size - need;
    var prev, next := EntryOrNull(h.free, i - 1), EntryOrNull(h.free, i + 1);
    var size := if remaining > HEADER_SIZE + 1 then need else h.blocks[a].size;
    var headed := Placed(mem, a + padding, Header(a, a + padding + HEADER_SIZE, size, padding));
    if remaining > HEADER_SIZE + 1 then
      Relinked(Placed(headed, a + need, Header(a + need, NULL, remaining, next)), prev, a + need)
    else Relinked(headed, prev, next)
  }

  lemma SplitMemory(mem: map<int, Header>, h: Heap, i: int, request: int, align: int)
    requires 0 <= i < |h.free| && h.free[i] in h.blocks && 0 <= align
    requires h.blocks[h.free[i]].size - Need(h.free[i], request, align) > HEADER_SIZE + 1
    ensures var a, need := h.free[i], Need(h.free[i], request, align);
            var padding, remaining := ByteStuffForAlign(a + HEADER_SIZE, align), h.blocks[a].size - need;
            var headed := Placed(mem, a + padding, Header(a, a + padding + HEADER_SIZE, need, padding));
            Relinked(Placed(headed, a + need, Header(a + need, NULL, remaining, EntryOrNull(h.free, i + 1))),
                     EntryOrNull(h.free, i - 1), a + need) == TakenMemory(mem, h, i, request, align)
  {
  }

  lemma WholeMemory(mem: map<int, Header>, h: Heap, i: int, request: int, align: int)
    requires 0 <= i < |h.free| && h.free[i] in h.blocks && 0 <= align
    requires h.blocks[h.free[i]].size - Need(h.free[i], request, align) <= HEADER_SIZE + 1
    ensures var a, need := h.free[i], Need(h.free[i], request, align);
            var padding, remaining := ByteStuffForAlign(a + HEADER_SIZE, align), h.blocks[a].size - need;
            var at := a + padding;
            var headed := Placed(mem, at, Header(a, at + HEADER_SIZE, need, padding));
            && at in headed && headed[at].size + remaining == h.blocks[a].size
            && Relinked(headed[at := headed[at].(size := headed[at].size + remaining)],
                        EntryOrNull(h.free, i - 1), EntryOrNull(h.free, i + 1))
               == TakenMemory(mem, h, i, request, align)
  {
    var a, need := h.free[i], Need(h.free[i], request, align);
    var padding, remaining := ByteStuffForAlign(a + HEADER_SIZE, align), h.blocks[a].size - need;
    var at := a + padding;
    var headed := Placed(mem, at, Header(a, at + HEADER_SIZE, need, padding));
    PlacedAgain(mem, at, Header(a, at + HEADER_SIZE, need, padding),
                Header(a, at + HEADER_SIZE, need + remaining, padding));
  }

  lemma PlacedAgain(mem: map<int, Header>, at: int, first: Header, second: Header)
    ensures Placed(mem, at, first)[at := second] == Placed(mem, at, second)
  {
  }

  // The memory in which an allocation searches.
  function ReadyMemory(mem: map<int, Header>, h: Heap): map<int, Header> {
    if h.free == [] then Placed(mem, h.start, Header(h.start, NULL, h.size, NULL)) else mem
  }

  class KernelHeap {
    var mem: map<int, Header>
    var head: int
    const start: int
    const size: int
    ghost var heap: Heap

    ghost predicate Valid()
      reads this
    {
      Usable(heap) && heap.start == start && heap.size == size && Encodes(mem, head, heap)
    }

    constructor (start: int, size: int)
      requires 0 < start && HEADER_SIZE <= size && start + size < WORD
      ensures Valid() && heap == Heap(start, size, map[], [])
    {
      this.start, this.size := start, size;
      mem, head := map[], NULL;
      heap := Heap(start, size, map[], []);
    }

    // Sets up one free block over the whole heap when the list is empty.
    method SetUp()
      requires Valid()
      modifies this
      ensures Valid() && Good(heap) && heap == Ready(old(heap)) && mem == ReadyMemory(old(mem), old(heap))
      ensures old(heap).free != [] ==> heap == old(heap) && mem == old(mem)
      ensures old(heap).free == [] ==> heap.blocks == map[start := Free(size)] && heap.free == [start]
    {
      if head == NULL {
        mem := Placed(mem, start, Header(start, NULL, size, NULL));
        head := start;
        ReadyGood(heap);
        heap := Ready(heap);
      }
    }

    // A link goes into a header; one that was written over is none.
    method SetLink(prev: int, x: int)
      modifies this`mem, this`head
      ensures mem == Relinked(old(mem), prev, x)
      ensures head == if prev == NULL then x else old(head)
    {
      if prev == NULL {
        head := x;
      } else if prev in mem {
        mem := mem[prev := mem[prev].(link := x)];
      }
    }

    // Gives out free block i, whose header holds address, maxSize and next: the allocated header
    // goes behind the padding, over or beside the free one; a remainder becomes a free block.
    method Take(ghost i: int, prev: int, address: int, maxSize: int, next: int, request: int, align: int)
      returns (handed: int)
      requires Valid() && Good(heap) && 0 <= align && 0 <= request
      requires Fits(heap, i, request, align)
      requires address == heap.free[i] && maxSize == heap.blocks[address].size
      requires prev == EntryOrNull(heap.free, i - 1) && next == EntryOrNull(heap.free, i + 1)
      modifies this
      ensures heap == Taken(old(heap), i, request, align)
      ensures mem == TakenMemory(old(mem), old(heap), i, request, align)
      ensures Whole(address, request, align) < WORD ==>
                && Valid() && Good(heap) && address in heap.blocks && heap.blocks[address].Used?
                && handed == Handed(address, heap.blocks[address])
    {
      hide Good, Tiles, Roomy, Listed, Linked, Headed, AllHeaded, Encodes, Taken, TakenMemory, Relinked;
      ghost var h := heap;
      EncodedFacts(mem, head, h);
      ListFacts(h, i, i);
      TakenIs(h, i, request, align);
      ghost var wraps := WORD <= Whole(address, request, align);
      if !wraps {
        TakenGood(h, i, request, align);
      }
      var padding := ByteStuffForAlign(address + HEADER_SIZE, align);
      var need := (request + HEADER_SIZE + padding) % WORD;
      var at := address + padding;
      handed := at + HEADER_SIZE;
      mem := Placed(mem, at, Header(address, handed, need, padding));
      var remaining := maxSize - need;
      if remaining > HEADER_SIZE + 1 {
        var rest := address + need;
        mem := Placed(mem, rest, Header(rest, NULL, remaining, next));
        SplitMemory(old(mem), h, i, request, align);
        if !wraps {
          SplitEncodes(old(mem), mem, h, i, request, align);
        }
        SetLink(prev, rest);
      } else {
        mem := mem[at := mem[at].(size := mem[at].size + remaining)];
        WholeMemory(old(mem), h, i, request, align);
        if !wraps {
          WholeEncodes(old(mem), mem, h, i, request, align);
        }
        SetLink(prev, next);
      }
      heap := Taken(h, i, request, align);
    }

    // Hands out the first free block that takes the request, as the wrapped size sum has it; the
    // heap stays good unless that sum wrapped.
    method Allocate(request: int, align: int) returns (r: Allocation, ghost i: int)
      requires Valid() && 0 <= request < WORD && 0 <= align < WORD
      modifies this
      ensures Good(Ready(old(heap))) && (!r.Allocated? ==> Valid())
      ensures r.BadAlign? <==> align != 0 && !IsPowerOfTwo(align)
      ensures r.BadAlign? ==> heap == old(heap)
      ensures !r.BadAlign? ==> (r.OutOfMemory? <==> NoFit(Ready(old(heap)), request, align))
      ensures r.OutOfMemory? ==> heap == Ready(old(heap))
      ensures !r.BadAlign? ==>
                (r.OutOfMemory? <==> forall j :: 0 <= j < |Ready(old(heap)).free| ==>
                                       Refuses(Ready(old(heap)), j, request, align))
      ensures r.Allocated? ==> 0 <= i < |Ready(old(heap)).free| && !Refuses(Ready(old(heap)), i, request, align)
                               && forall j :: 0 <= j < i ==> Refuses(Ready(old(heap)), j, request, align)
      ensures r.Allocated? ==>
                && FirstFit(Ready(old(heap)), i, request, align)
                && heap == Taken(Ready(old(heap)), i, request, align)
                && mem == TakenMemory(ReadyMemory(old(mem), old(heap)), Ready(old(heap)), i, request, align)
                && (Whole(Ready(old(heap)).free[i], request, align) < WORD ==>
                      Valid() && HandedOut(Ready(old(heap)), heap, i, request, align, r.address))
    {
      hide Tiles, Roomy, Listed, Linked, Headed, AllHeaded, Taken, TakenMemory, ReadyMemory, Placed;
      ReadyGood(heap);
      if align != 0 && !IsPowerOfTwo(align) {
        return BadAlign, 0;
      }
      SetUp();
      ghost var h, ready := heap, mem;
      var aut, prev := head, NULL;
      i := 0;
      if h.free != [] {
        ListFacts(h, 0, 0);
      }
      while aut != NULL
        invariant Valid() && heap == h && mem == ready && 0 <= i <= |h.free|
        invariant aut == EntryOrNull(h.free, i) && prev == EntryOrNull(h.free, i - 1)
        invariant aut != NULL <==> i < |h.free|
        invariant forall j :: 0 <= j < i ==> !Fits(h, j, request, align)
        invariant forall j :: 0 <= j < i ==> Refuses(h, j, request, align)
        decreases |h.free| - i
      {
        FreeHeader(mem, head, h, i);
        ListFacts(h, i, i);
        RefusesIff(h, i, request, align);
        var header := mem[aut];
        var padding := ByteStuffForAlign(header.base + HEADER_SIZE, align);
        var need := (request + HEADER_SIZE + padding) % WORD;
        if need <= header.size {
          var handed := Take(i, prev, header.base, header.size, header.link, request, align);
          if Whole(h.free[i], request, align) < WORD {
            TakenHandedOut(h, i, request, align);
          }
          return Allocated(handed), i;
        }
        prev, aut := aut, header.link;
        i := i + 1;
        if i < |h.free| {
          ListFacts(h, i, i);
        }
      }
      return OutOfMemory, i;
    }

    // Takes back the block an address was handed out for; it is found from the header before the
    // address alone.
    method DeAllocate(address: int, ghost a: int) returns (r: Deallocation)
      requires Valid()
      requires address != NULL && address != start ==>
                 a in heap.blocks && heap.blocks[a].Used? && address == Handed(a, heap.blocks[a])
      modifies this
      ensures Valid()
      ensures r == if address != NULL && address == start then BadDealloc else Success
      ensures heap == if address != NULL && address != start then Released(old(heap), a) else old(heap)
      ensures address != 0 && address != start ==>
                && |heap.free| == |old(heap).free| + 1 && heap.free[0] == a && heap.free[1..] == old(heap).free
                && heap.blocks.Keys == old(heap).blocks.Keys && heap.blocks[a] == Free(old(heap).blocks[a].size)
                && forall b :: b in heap.blocks && b != a ==> heap.blocks[b] == old(heap).blocks[b]
    {
      hide Good, Linked, Headed, AllHeaded, Placed;
      if address == NULL {
        return Success;
      }
      if address == start {
        return BadDealloc;
      }
      ghost var h := heap;
      UsedHeader(mem, h, a);
      var header := mem[address - HEADER_SIZE];
      var base, size := address - HEADER_SIZE - header.link, header.size;
      mem := Placed(mem, base, Header(base, NULL, size, head));
      head := base;
      heap := Released(h, a);
      ReleasedIs(h, a);
      ReleasedGood(h, a);
      ReleasedEncodes(old(mem), mem, h, a);
      return Success;
    }

    // A caller writing into what it was handed leaves the heap as it is.
    method UserWrite(a: int, lo: int, hi: int)
      requires Valid() && a in heap.blocks && heap.blocks[a].Used?
      requires Handed(a, heap.blocks[a]) <= lo <= hi <= Handed(a, heap.blocks[a]) + heap.blocks[a].request
      modifies this`mem
      ensures Valid() && mem == Overwritten(old(mem), lo, hi)
    {
      mem := Overwritten(mem, lo, hi);
      WrittenEncodes(old(mem), head, heap, a, lo, hi);
    }
  }

  // No more is given out than header, padding and request, unless too little is left for a header
  // and two bytes; what is left is a free block in the same place of the free list.
  ghost predicate LeavesRest(h: Heap, h': Heap, i: int, request: int, align: int)
    requires 0 <= i < |h.free| && h.free[i] in h.blocks
  {
    var a, size := h.free[i], h.blocks[h.free[i]].size;
    && a in h'.blocks && h'.blocks[a].Used? && Pads(a, align, h'.blocks[a].padding) && h'.blocks[a].request == request
    && var need := request + 16 + h'.blocks[a].padding;
       if size - need > 17 then
         && h'.blocks.Keys == h.blocks.Keys + {a + need} && h'.blocks[a].size == need
         && h'.blocks[a + need] == Free(size - need) && h'.free == h.free[..i] + [a + need] + h.free[i + 1..]
       else
         && h'.blocks.Keys == h.blocks.Keys && h'.blocks[a].size == size && h'.free == h.free[..i] + h.free[i + 1..]
  }

  lemma RestLeft(h: Heap, i: int, request: int, align: int)
    requires Good(h) && 0 <= align && 0 <= request
    requires Fits(h, i, request, align) && Whole(h.free[i], request, align) < WORD
    ensures LeavesRest(h, Taken(h, i, request, align), i, request, align)
  {
    hide Good, Pads;
    ListFacts(h, i, i);
    PadsIff(h.free[i], align, ByteStuffForAlign(h.free[i] + HEADER_SIZE, align));
    if align > 0 {
      StuffingAligns(h.free[i] + HEADER_SIZE, align);
    }
  }

  // What the caller of an allocation gets: an aligned range of the requested size inside a block
  // that was free, everything else being as before.
  ghost predicate HandedOut(h: Heap, h': Heap, i: int, request: int, align: int, address: int)
    requires 0 <= i < |h.free| && h.free[i] in h.blocks && 0 <= align
  {
    var a := h.free[i];
    && h' == Taken(h, i, request, align)
    && a in h'.blocks && h'.blocks[a].Used? && address == Handed(a, h'.blocks[a])
    && (align != 0 ==> address % align == 0)
    && a + HEADER_SIZE <= address && address + request <= a + h'.blocks[a].size <= a + h.blocks[a].size
    && LeavesRest(h, h', i, request, align)
    && (forall b :: b in h.blocks && b != a ==> b in h'.blocks && h'.blocks[b] == h.blocks[b])
  }

  lemma TakenHandedOut(h: Heap, i: int, request: int, align: int)
    requires Good(h) && 0 <= align && 0 <= request
    requires Fits(h, i, request, align) && Whole(h.free[i], request, align) < WORD
    ensures var h', a := Taken(h, i, request, align), h.free[i];
            a in h'.blocks && h'.blocks[a].Used? && HandedOut(h, h', i, request, align, Handed(a, h'.blocks[a]))
  {
    RestLeft(h, i, request, align);
    TakenGood(h, i, request, align);
    TakenShrinks(h, i, request, align);
    if align > 0 {
      StuffingAligns(h.free[i] + HEADER_SIZE, align);
    }
  }

  // What the walk reads at a free block.
  lemma FreeHeader(mem: map<int, Header>, head: int, h: Heap, i: int)
    requires Good(h) && Encodes(mem, head, h) && 0 <= i < |h.free|
    ensures h.free[i] in h.blocks && h.free[i] in mem && mem[h.free[i]].base == h.free[i]
    ensures mem[h.free[i]].size == h.blocks[h.free[i]].size && mem[h.free[i]].link == EntryOrNull(h.free, i + 1)
  {
    assert Headed(mem, h.free[i], h.blocks[h.free[i]]);
  }

  lemma SplitEncodes(mem: map<int, Header>, mem': map<int, Header>, h: Heap, i: int, request: int, align: int)
    requires 0 <= align && 0 <= request
    requires Fits(h, i, request, align) && Whole(h.free[i], request, align) < WORD
    requires h.blocks[h.free[i]].size - Need(h.free[i], request, align) > HEADER_SIZE + 1
    requires var a, need := h.free[i], Need(h.free[i], request, align);
             var padding, remaining := ByteStuffForAlign(a + HEADER_SIZE, align), h.blocks[a].size - need;
             mem' == Placed(Placed(mem, a + padding, Header(a, a + padding + HEADER_SIZE, need, padding)),
                            a + need, Header(a + need, NULL, remaining, EntryOrNull(h.free, i + 1)))
    requires Good(h) && AllHeaded(mem, h.blocks) && Linked(mem, h.free)
    ensures var h', prev := Taken(h, i, request, align), EntryOrNull(h.free, i - 1);
            var after := Relinked(mem', prev, h.free[i] + Need(h.free[i], request, align));
            && (prev == NULL || prev in mem')
            && Encodes(after, if prev == NULL then h.free[i] + Need(h.free[i], request, align) else h.free[0], h')
  {
    hide Good, Tiles, Roomy, Listed, Headed, AllHeaded, Linked, Relinked;
    ListFacts(h, i, i);
    if i > 0 {
      ListFacts(h, i, i - 1);
    }
    var a, need, h' := h.free[i], Need(h.free[i], request, align), Taken(h, i, request, align);
    StuffingFits(a, request, align);
    TakenGood(h, i, request, align);
    assert Kept(mem, mem', a, a + h.blocks[a].size);
    PreviousStays(mem, mem', h, i);
    UsedHeaded(mem', a, h'.blocks[a]);
    FreeHeaded(mem', a + need, h'.blocks[a + need]);
    RestIsNew(h, a, need);
    TakenHeaded(mem, mem', h, i, request, align, EntryOrNull(h.free, i - 1), a + need);
    SplitLinked(mem, mem', h, i, a + need);
  }

  lemma WholeEncodes(mem: map<int, Header>, mem': map<int, Header>, h: Heap, i: int, request: int, align: int)
    requires 0 <= align && 0 <= request
    requires Fits(h, i, request, align) && Whole(h.free[i], request, align) < WORD
    requires h.blocks[h.free[i]].size - Need(h.free[i], request, align) <= HEADER_SIZE + 1
    requires var a, padding := h.free[i], ByteStuffForAlign(h.free[i] + HEADER_SIZE, align);
             var at, size := a + padding, h.blocks[a].size;
             && at in mem' && mem'[at] == Header(a, at + HEADER_SIZE, size, padding)
             && Kept(mem, mem', at, at + HEADER_SIZE)
    requires Good(h) && AllHeaded(mem, h.blocks) && Linked(mem, h.free)
    ensures var h', prev := Taken(h, i, request, align), EntryOrNull(h.free, i - 1);
            var after := Relinked(mem', prev, EntryOrNull(h.free, i + 1));
            && (prev == NULL || prev in mem')
            && Encodes(after, if prev == NULL then EntryOrNull(h.free, i + 1) else h.free[0], h')
  {
    hide Good, Tiles, Roomy, Listed, Headed, AllHeaded, Linked, Relinked;
    ListFacts(h, i, i);
    if i > 0 {
      ListFacts(h, i, i - 1);
    }
    var a, h' := h.free[i], Taken(h, i, request, align);
    StuffingFits(a, request, align);
    TakenGood(h, i, request, align);
    assert Kept(mem, mem', a, a + h.blocks[a].size);
    PreviousStays(mem, mem', h, i);
    UsedHeaded(mem', a, h'.blocks[a]);
    TakenHeaded(mem, mem', h, i, request, align, EntryOrNull(h.free, i - 1), EntryOrNull(h.free, i + 1));
    WholeLinked(mem, mem', h, i);
  }

  lemma EncodedFacts(mem: map<int, Header>, head: int, h: Heap)
    requires Encodes(mem, head, h)
    ensures AllHeaded(mem, h.blocks) && Linked(mem, h.free) && head == EntryOrNull(h.free, 0)
  {
  }

  lemma TakenIs(h: Heap, i: int, request: int, align: int)
    requires 0 <= align && 0 <= request && Fits(h, i, request, align)
    ensures var h', a := Taken(h, i, request, align), h.free[i];
            && h'.start == h.start && h'.size == h.size && a in h'.blocks
            && (Whole(a, request, align) < WORD ==>
                  h'.blocks[a].Used? && h'.blocks[a].padding == ByteStuffForAlign(a + HEADER_SIZE, align))
  {
  }

  lemma UsedHeaded(mem: map<int, Header>, a: int, block: Block)
    requires block.Used? && a + block.padding in mem
    requires mem[a + block.padding] == Header(a, Handed(a, block), block.size, block.padding)
    ensures Headed(mem, a, block)
  {
  }

  lemma FreeHeaded(mem: map<int, Header>, a: int, block: Block)
    requires block.Free? && a in mem && mem[a].base == a && mem[a].size == block.size
    ensures Headed(mem, a, block)
  {
  }

  lemma RestIsNew(h: Heap, a: int, need: int)
    requires Good(h) && a in h.blocks && 0 < need < h.blocks[a].size
    ensures a + need !in h.blocks && a + need != NULL
  {
  }

  lemma PreviousStays(mem: map<int, Header>, mem': map<int, Header>, h: Heap, i: int)
    requires Good(h) && AllHeaded(mem, h.blocks) && 0 <= i < |h.free|
    requires h.free[i] in h.blocks && Kept(mem, mem', h.free[i], h.free[i] + h.blocks[h.free[i]].size)
    ensures EntryOrNull(h.free, i - 1) == NULL || EntryOrNull(h.free, i - 1) in mem'
  {
  }

  lemma StuffingFits(a: int, request: int, align: int)
    requires 0 <= a && 0 <= align && 0 <= request && Whole(a, request, align) < WORD
    ensures var padding := ByteStuffForAlign(a + HEADER_SIZE, align);
            0 <= padding && padding + HEADER_SIZE + request == Need(a, request, align)
  {
  }

  lemma UsedHeader(mem: map<int, Header>, h: Heap, a: int)
    requires Usable(h) && AllHeaded(mem, h.blocks) && a in h.blocks && h.blocks[a].Used?
    ensures Good(h)
    ensures var at := a + h.blocks[a].padding;
            at in mem && mem[at] == Header(a, Handed(a, h.blocks[a]), h.blocks[a].size, h.blocks[a].padding)
  {
  }

  lemma ReleasedEncodes(mem: map<int, Header>, mem': map<int, Header>, h: Heap, a: int)
    requires a in h.blocks && h.blocks[a].Used?
    requires mem' == Placed(mem, a, Header(a, NULL, h.blocks[a].size, EntryOrNull(h.free, 0)))
    requires Good(h) && AllHeaded(mem, h.blocks) && Linked(mem, h.free)
    ensures AllHeaded(mem', Released(h, a).blocks) && Linked(mem', Released(h, a).free)
  {
    var h' := Released(h, a);
    assert Kept(mem, mem', a, a + h.blocks[a].size);
    forall b | b in h'.blocks
      ensures Headed(mem', b, h'.blocks[b])
    {
      if b != a {
        OthersHeaded(mem, mem', h, a, b);
      }
    }
    forall i | 0 <= i < |h'.free|
      ensures h'.free[i] in mem' && mem'[h'.free[i]].link == EntryOrNull(h'.free, i + 1)
    {
      if i > 0 {
        ListFacts(h, i - 1, i - 1);
        OthersHeaded(mem, mem', h, a, h.free[i - 1]);
      }
    }
  }

  lemma WrittenEncodes(mem: map<int, Header>, head: int, h: Heap, a: int, lo: int, hi: int)
    requires Usable(h) && Encodes(mem, head, h) && a in h.blocks && h.blocks[a].Used?
    requires Handed(a, h.blocks[a]) <= lo <= hi <= Handed(a, h.blocks[a]) + h.blocks[a].request
    ensures Encodes(Overwritten(mem, lo, hi), head, h)
  {
    var mem' := Overwritten(mem, lo, hi);
    UsedHeader(mem, h, a);
    assert Kept(mem, mem', a, a + h.blocks[a].size);
    forall b | b in h.blocks
      ensures Headed(mem', b, h.blocks[b]) && (h.blocks[b].Free? ==> b in mem' && mem'[b] == mem[b])
    {
      if b != a {
        OthersHeaded(mem, mem', h, a, b);
      }
    }
    forall i | 0 <= i < |h.free|
      ensures h.free[i] in mem' && mem'[h.free[i]].link == EntryOrNull(h.free, i + 1)
    {
      ListFacts(h, i, i);
    }
  }
}
