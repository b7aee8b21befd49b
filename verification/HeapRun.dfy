// Whole runs of the kernel heap: any sequence of allocations, releases and writes by the callers
// (memory/DMM.cpp).
module HeapRuns {
  import opened Bits
  import opened Heaps
  import opened KernelHeaps

  // A release names the block that its address was handed out for, and so does a write.
  datatype Call =
    | Allocate(request: int, align: int)
    | Release(block: int, address: int)
    | Write(block: int, lo: int, hi: int)

  // What a caller may ask for: of a block only what it was handed, while it holds it.
  predicate Proper(h: Heap, call: Call) {
    match call
    case Allocate(request, align) => 0 <= request < WORD && 0 <= align < WORD
    case Release(a, address) => a in h.blocks && h.blocks[a].Used? && address == Handed(a, h.blocks[a])
    case Write(a, lo, hi) =>
      && a in h.blocks && h.blocks[a].Used?
      && Handed(a, h.blocks[a]) <= lo <= hi <= Handed(a, h.blocks[a]) + h.blocks[a].request
  }

  // The first free block from the i-th on that takes the request.
  function FindFit(h: Heap, request: int, align: int, i: int): (r: int)
    requires 0 <= align && 0 <= i <= |h.free|
    ensures i <= r <= |h.free| && (r < |h.free| ==> Fits(h, r, request, align))
    ensures forall j :: i <= j < r ==> !Fits(h, j, request, align)
    decreases |h.free| - i
  {
    if i == |h.free| || Fits(h, i, request, align) then i else FindFit(h, request, align, i + 1)
  }

  predicate Aligns(align: int) {
    align == 0 || (0 < align && IsPowerOfTwo(align))
  }

  lemma AlignsIff(align: int)
    requires 0 <= align
    ensures Aligns(align) <==> align == 0 || exists k: nat :: align == Power(k)
  {
    if align > 0 {
      IsPowerOfTwoIff(align);
    }
  }

  function AfterCall(h: Heap, call: Call): Heap {
    match call
    case Allocate(request, align) =>
      if !Aligns(align) then h
      else
        var g := Ready(h);
        var i := FindFit(g, request, align, 0);
        if i == |g.free| then g else Taken(g, i, request, align)
    case Release(a, _) => if a in h.blocks then Released(h, a) else h
    case Write(_, _, _) => h
  }

  function Reached(h: Heap, calls: seq<Call>): Heap {
    if calls == [] then h else AfterCall(Reached(h, calls[..|calls| - 1]), calls[|calls| - 1])
  }

  // The call gives out a block by a size sum that wraps, or sets the heap up over live blocks.
  predicate Overlaps(h: Heap, call: Call) {
    call.Allocate? && Aligns(call.align) &&
    var g := Ready(h);
    var i := FindFit(g, call.request, call.align, 0);
    || (h.free == [] && h.blocks != map[])
    || (i < |g.free| && WORD <= Whole(g.free[i], call.request, call.align))
  }

  // The call leaves a heap that can be used, and every block that is live and not released as it was;
  // a block that it gives out is live then and clear of all those.
  ghost predicate Clear(h: Heap, call: Call) {
    var h' := AfterCall(h, call);
    && Usable(h')
    && (forall b :: b in h.blocks && h.blocks[b].Used? && (call.Release? ==> b != call.block) ==>
          b in h'.blocks && h'.blocks[b] == h.blocks[b])
    && (call.Allocate? && Aligns(call.align) ==>
          var g := Ready(h);
          var i := FindFit(g, call.request, call.align, 0);
          i < |g.free| ==>
            && g.free[i] in h'.blocks && h'.blocks[g.free[i]].Used?
            && ClearOfLive(h.blocks, g.free[i], g.free[i] + h'.blocks[g.free[i]].size))
  }

  lemma ClearIff(h: Heap, call: Call)
    requires Usable(h) && Proper(h, call)
    ensures Clear(h, call) <==> !Overlaps(h, call)
  {
    match call {
      case Allocate(request, align) =>
        if Aligns(align) {
          AllocationClearIff(h, request, align);
        }
      case Release(a, _) =>
        UsableWithBlock(h, a);
        ReleasedGood(h, a);
        ReleaseKeeps(h, a);
      case Write(_, _, _) =>
    }
  }

  lemma UsableWithBlock(h: Heap, a: int)
    requires Usable(h) && a in h.blocks
    ensures Good(h)
  {
  }

  lemma ReleaseKeeps(h: Heap, a: int)
    requires Good(h) && a in h.blocks && h.blocks[a].Used?
    ensures var h' := Released(h, a);
            && h'.start == h.start && h'.size == h.size
            && forall b :: b in h.blocks && b != a ==> b in h'.blocks && h'.blocks[b] == h.blocks[b]
  {
  }

  lemma AllocationClearIff(h: Heap, request: int, align: int)
    requires Usable(h) && 0 <= request && Aligns(align)
    ensures Clear(h, Allocate(request, align)) <==> !Overlaps(h, Allocate(request, align))
  {
    hide Good, FindFit, ClearOfLive;
    var g := Ready(h);
    var i := FindFit(g, request, align, 0);
    ReadyGood(h);
    if i == |g.free| {
      if h.free == [] && h.blocks != map[] {
        StartIsLive(h);
      }
    } else {
      var h', a := Taken(g, i, request, align), g.free[i];
      TakenGoodIff(g, i, request, align);
      TakenKeeps(g, i, request, align);
      if Whole(a, request, align) < WORD {
        AllocationFreshIff(h, i, request, align);
        if h.free == [] && h.blocks == map[] {
          assert forall b :: b in h.blocks ==> false;
        } else if h.free != [] {
          FreeNotUsed(h, i);
        }
      } else {
        assert a in h'.blocks;
        UsableIsGood(h', a);
      }
    }
  }

  lemma UsableIsGood(h: Heap, a: int)
    requires a in h.blocks
    ensures Usable(h) ==> Good(h)
  {
  }

  lemma FreeNotUsed(h: Heap, i: int)
    requires Good(h) && 0 <= i < |h.free|
    ensures h.free[i] in h.blocks && h.blocks[h.free[i]].Free?
  {
  }

  // A heap whose list is empty has a live block at its start.
  lemma StartIsLive(h: Heap)
    requires Usable(h) && h.free == [] && h.blocks != map[]
    ensures h.start in h.blocks && h.blocks[h.start].Used?
  {
  }

  lemma TakenKeeps(h: Heap, i: int, request: int, align: int)
    requires Good(h) && 0 <= align && 0 <= request && Fits(h, i, request, align)
    ensures var h', a := Taken(h, i, request, align), h.free[i];
            && a in h'.blocks && h'.start == h.start && h'.size == h.size
            && (Whole(a, request, align) < WORD ==>
                  forall b :: b in h.blocks && b != a ==> b in h'.blocks && h'.blocks[b] == h.blocks[b])
  {
    TakenIs(h, i, request, align);
    if Whole(h.free[i], request, align) < WORD {
      TakenGood(h, i, request, align);
    }
  }

  // Every call of the run is clear, and so two live blocks are apart in every state, exactly if no
  // call gives out a block by a sum that wraps or sets the heap up over live blocks.
  lemma RunClearIff(h: Heap, calls: seq<Call>)
    requires Usable(h) && forall k :: 0 <= k < |calls| ==> Proper(Reached(h, calls[..k]), calls[k])
    ensures (forall k :: 0 <= k < |calls| ==> Clear(Reached(h, calls[..k]), calls[k])) <==>
            (forall k :: 0 <= k < |calls| ==> !Overlaps(Reached(h, calls[..k]), calls[k]))
  {
    hide Clear, Overlaps, Reached, Usable, Proper;
    if forall k :: 0 <= k < |calls| ==> !Overlaps(Reached(h, calls[..k]), calls[k]) {
      forall k | 0 <= k < |calls|
        ensures Clear(Reached(h, calls[..k]), calls[k])
      {
        UsableReached(h, calls, k);
        ClearIff(Reached(h, calls[..k]), calls[k]);
      }
    } else if forall k :: 0 <= k < |calls| ==> Clear(Reached(h, calls[..k]), calls[k]) {
      forall k | 0 <= k < |calls|
        ensures !Overlaps(Reached(h, calls[..k]), calls[k])
      {
        ClearReached(h, calls, k);
        ClearIff(Reached(h, calls[..k]), calls[k]);
      }
    }
  }

  lemma {:induction false} UsableReached(h: Heap, calls: seq<Call>, k: int)
    requires Usable(h) && 0 <= k <= |calls|
    requires forall j :: 0 <= j < k ==> Proper(Reached(h, calls[..j]), calls[j])
    requires forall j :: 0 <= j < k ==> !Overlaps(Reached(h, calls[..j]), calls[j])
    ensures Usable(Reached(h, calls[..k]))
    decreases k
  {
    hide Usable, Overlaps, Proper;
    if k > 0 {
      UsableReached(h, calls, k - 1);
      ClearIff(Reached(h, calls[..k - 1]), calls[k - 1]);
      assert calls[..k][..k - 1] == calls[..k - 1];
    }
  }

  // In every state of such a run the ranges that two live blocks were handed out as are apart.
  lemma RunApart(h: Heap, calls: seq<Call>, k: int, a: int, b: int)
    requires Usable(h) && 0 <= k <= |calls|
    requires forall j :: 0 <= j < k ==> Proper(Reached(h, calls[..j]), calls[j])
    requires forall j :: 0 <= j < k ==> !Overlaps(Reached(h, calls[..j]), calls[j])
    requires var blocks := Reached(h, calls[..k]).blocks;
             a in blocks && b in blocks && blocks[a].Used? && blocks[b].Used? && a < b
    ensures var blocks := Reached(h, calls[..k]).blocks;
            Handed(a, blocks[a]) + blocks[a].request <= b < Handed(b, blocks[b])
  {
    hide Usable, Overlaps, Proper, Good, Reached;
    UsableReached(h, calls, k);
    UsableWithBlock(Reached(h, calls[..k]), a);
    LiveApart(Reached(h, calls[..k]), a, b);
  }

  lemma {:induction false} ClearReached(h: Heap, calls: seq<Call>, k: int)
    requires Usable(h) && 0 <= k <= |calls|
    requires forall j :: 0 <= j < k ==> Clear(Reached(h, calls[..j]), calls[j])
    ensures Usable(Reached(h, calls[..k]))
    decreases k
  {
    hide Usable;
    if k > 0 {
      assert calls[..k][..k - 1] == calls[..k - 1];
      assert Clear(Reached(h, calls[..k - 1]), calls[k - 1]);
    }
  }

  datatype Reply = Answered(allocation: Allocation) | Done

  function ReplyTo(h: Heap, call: Call): Reply {
    if !call.Allocate? then Done
    else if !Aligns(call.align) then Answered(BadAlign)
    else
      var g := Ready(h);
      var i := FindFit(g, call.request, call.align, 0);
      if i == |g.free| then Answered(OutOfMemory)
      else Answered(Allocated(g.free[i] + ByteStuffForAlign(g.free[i] + HEADER_SIZE, call.align) + HEADER_SIZE))
  }

  // What a call that does not overlap does, in full.
  ghost predicate Serves(h: Heap, call: Call, h': Heap, reply: Reply) {
    match call
    case Release(a, _) =>
      && reply == Done && |h'.free| == |h.free| + 1 && h'.free[0] == a && h'.free[1..] == h.free
      && a in h.blocks && h'.blocks.Keys == h.blocks.Keys && h'.blocks[a] == Free(h.blocks[a].size)
      && forall b :: b in h.blocks && b != a ==> h'.blocks[b] == h.blocks[b]
    case Write(_, _, _) => reply == Done && h' == h
    case Allocate(request, align) =>
      if align != 0 && (forall k: nat :: align != Power(k)) then reply == Answered(BadAlign) && h' == h
      else if h.free == [] then
        ServedFrom(h.(blocks := map[h.start := Free(h.size)], free := [h.start]), h', request, align, reply)
      else ServedFrom(h, h', request, align, reply)
  }

  ghost predicate ServedFrom(h: Heap, h': Heap, request: int, align: int, reply: Reply) {
    || (reply == Answered(OutOfMemory) && h' == h
        && forall j :: 0 <= j < |h.free| ==> Refuses(h, j, request, align))
    || (reply.Answered? && reply.allocation.Allocated? && 0 <= align
        && exists i :: ServedBy(h, h', request, align, reply.allocation.address, i))
  }

  // The first block that does not refuse serves the call.
  ghost predicate ServedBy(h: Heap, h': Heap, request: int, align: int, address: int, i: int) {
    && 0 <= align && 0 <= i < |h.free| && !Refuses(h, i, request, align)
    && (forall j :: 0 <= j < i ==> Refuses(h, j, request, align))
    && h.free[i] in h.blocks && HandedOut(h, h', i, request, align, address)
  }

  lemma CallServes(h: Heap, call: Call)
    requires Usable(h) && Proper(h, call) && !Overlaps(h, call)
    ensures Serves(h, call, AfterCall(h, call), ReplyTo(h, call))
  {
    hide Good, HandedOut, Refuses, Fits, Taken, FirstFit;
    match call {
      case Allocate(request, align) =>
        AlignsIff(align);
        if Aligns(align) {
          ReadyGood(h);
          var g := Ready(h);
          AllocationServed(g, request, align);
          assert ServedFrom(g, AfterCall(h, call), request, align, ReplyTo(h, call));
          assert g == if h.free == [] then h.(blocks := map[h.start := Free(h.size)], free := [h.start]) else h;
          assert !(align != 0 && (forall k: nat :: align != Power(k)));
        } else {
          assert align != 0 && (forall k: nat :: align != Power(k));
        }
      case Release(a, _) =>
        ReleasedIs(h, a);
      case Write(_, _, _) =>
    }
  }

  lemma AllocationServed(h: Heap, request: int, align: int)
    requires Good(h) && 0 <= align && 0 <= request
    requires var i := FindFit(h, request, align, 0); i < |h.free| ==> Whole(h.free[i], request, align) < WORD
    ensures var i := FindFit(h, request, align, 0);
            if i == |h.free| then forall j :: 0 <= j < |h.free| ==> Refuses(h, j, request, align)
            else h.free[i] in h.blocks
                 && ServedBy(h, Taken(h, i, request, align), request, align,
                             h.free[i] + ByteStuffForAlign(h.free[i] + HEADER_SIZE, align) + HEADER_SIZE, i)
  {
    hide Good, HandedOut, Refuses, Fits, Taken;
    var i := FindFit(h, request, align, 0);
    forall j | 0 <= j <= i && j < |h.free|
      ensures h.free[j] in h.blocks && (Refuses(h, j, request, align) <==> !Fits(h, j, request, align))
    {
      ListFacts(h, j, j);
      RefusesIff(h, j, request, align);
    }
    if i < |h.free| {
      TakenIs(h, i, request, align);
      TakenHandedOut(h, i, request, align);
    }
  }

  // One call on the heap in memory.
  method Perform(heap: KernelHeap, call: Call) returns (reply: Reply)
    requires heap.Valid() && Proper(heap.heap, call) && !Overlaps(heap.heap, call)
    modifies heap
    ensures heap.Valid() && heap.heap == AfterCall(old(heap.heap), call)
    ensures reply == ReplyTo(old(heap.heap), call)
    ensures Serves(old(heap.heap), call, heap.heap, reply)
  {
    hide Encodes, Taken, TakenMemory, ReadyMemory, Good, Serves, Refuses, LeavesRest;
    ghost var h := heap.heap;
    CallServes(h, call);
    reply := Done;
    match call {
      case Allocate(request, align) =>
        var r; ghost var i;
        r, i := heap.Allocate(request, align);
        reply := Answered(r);
        if Aligns(align) {
          FirstIs(Ready(old(heap.heap)), request, align, i);
          if r.Allocated? {
            TakenIs(Ready(old(heap.heap)), i, request, align);
          }
        }
      case Release(a, address) =>
        HandedInside(heap.heap, a);
        var _ := heap.DeAllocate(address, a);
      case Write(a, lo, hi) =>
        heap.UserWrite(a, lo, hi);
    }
    assert heap.heap == AfterCall(h, call) && reply == ReplyTo(h, call);
  }

  lemma HandedInside(h: Heap, a: int)
    requires Usable(h) && a in h.blocks && h.blocks[a].Used?
    ensures 0 < h.start < Handed(a, h.blocks[a])
  {
  }

  lemma FirstIs(h: Heap, request: int, align: int, i: int)
    requires 0 <= align
    ensures FirstFit(h, i, request, align) ==> i == FindFit(h, request, align, 0) < |h.free|
    ensures NoFit(h, request, align) <==> FindFit(h, request, align, 0) == |h.free|
  {
    var r := FindFit(h, request, align, 0);
    assert r < |h.free| ==> Fits(h, r, request, align);
    assert FirstFit(h, i, request, align) ==> i < |h.free| && !(i < r);
  }

  lemma ReachedNothing(h: Heap, calls: seq<Call>)
    ensures Reached(h, calls[..0]) == h
  {
  }

  lemma ReachedNext(h: Heap, calls: seq<Call>, n: int)
    requires 0 <= n < |calls|
    ensures Reached(h, calls[..n + 1]) == AfterCall(Reached(h, calls[..n]), calls[n])
  {
    assert calls[..n + 1][..n] == calls[..n];
  }

  // Any sequence of allocations, releases and writes that the callers may ask for and none of
  // which overlaps: the headers in memory follow the heap through all of it.
  method Run(heap: KernelHeap, calls: seq<Call>) returns (replies: seq<Reply>)
    requires heap.Valid()
    requires forall k :: 0 <= k < |calls| ==> Proper(Reached(heap.heap, calls[..k]), calls[k])
    requires forall k :: 0 <= k < |calls| ==> !Overlaps(Reached(heap.heap, calls[..k]), calls[k])
    modifies heap
    ensures heap.Valid() && heap.heap == Reached(old(heap.heap), calls) && |replies| == |calls|
    ensures forall k :: 0 <= k < |calls| ==> replies[k] == ReplyTo(Reached(old(heap.heap), calls[..k]), calls[k])
    ensures forall k :: 0 <= k < |calls| ==> Serves(Reached(old(heap.heap), calls[..k]), calls[k],
                                                    Reached(old(heap.heap), calls[..k + 1]), replies[k])
  {
    hide Proper, Overlaps, AfterCall, ReplyTo, Reached, KernelHeap.Valid, Serves;
    ghost var h := heap.heap;
    replies := [];
    ReachedNothing(h, calls);
    for n := 0 to |calls|
      invariant heap.Valid() && heap.heap == Reached(h, calls[..n]) && |replies| == n
      invariant forall k :: 0 <= k < n ==> replies[k] == ReplyTo(Reached(h, calls[..k]), calls[k])
      invariant forall k :: 0 <= k < n ==>
                  Serves(Reached(h, calls[..k]), calls[k], Reached(h, calls[..k + 1]), replies[k])
    {
      ReachedNext(h, calls, n);
      var reply := Perform(heap, calls[n]);
      replies := replies + [reply];
    }
    assert calls[..|calls|] == calls;
  }
}
