// The whole life of a user process's pages: built, grown by page faults, torn down
// (memory/DMM.cpp, process/UserProcess.cpp).
module ProcessLives {
  import opened AddressSpaces
  import opened Paging

  const HEAP_SLOT := 512

  // The directory slots a page fault can fill.
  predicate HeapSlot(i: int) {
    HEAP_SLOT <= i < ENTRIES && i != PROCESS_GUI_PDE && i != PROCESS_STACK_PDE
  }

  predicate TableEntry(mem: Memory, pd: int, i: int) {
    HeapSlot(i) && Present(Word(mem, pd, i))
  }

  predicate PageEntry(mem: Memory, pd: int, i: int, j: int) {
    HeapSlot(i) && 0 <= j < ENTRIES && Present(Pte(mem, pd, i, j))
  }

  // The page tables and the pages of the heap.
  ghost function HeapTables(mem: Memory, pd: int): set<int> {
    set i: int | HEAP_SLOT <= i < ENTRIES && TableEntry(mem, pd, i) :: Frame(Word(mem, pd, i))
  }

  ghost function HeapPages(mem: Memory, pd: int): set<int> {
    set i: int, j: int | HEAP_SLOT <= i < ENTRIES && 0 <= j < ENTRIES && PageEntry(mem, pd, i, j) ::
        Frame(Pte(mem, pd, i, j))
  }

  ghost function Own(mem: Memory, pd: int): set<int> {
    HeapTables(mem, pd) + HeapPages(mem, pd)
  }

  // Every page of the heap is entered once.
  ghost predicate PagesOnce(mem: Memory, pd: int) {
    forall i, j, k, l :: PageEntry(mem, pd, i, j) && PageEntry(mem, pd, k, l) && (i != k || j != l) ==>
      Frame(Pte(mem, pd, i, j)) != Frame(Pte(mem, pd, k, l))
  }

  ghost predicate TablesOnce(mem: Memory, pd: int) {
    forall i, k :: TableEntry(mem, pd, i) && TableEntry(mem, pd, k) && i != k ==>
        Frame(Word(mem, pd, i)) != Frame(Word(mem, pd, k))
  }

  // Every page and table of the heap is entered once, none is both, and none is page 0.
  ghost predicate HeapSound(mem: Memory, pd: int) {
    && PagesOnce(mem, pd) && TablesOnce(mem, pd) && HeapTables(mem, pd) !! HeapPages(mem, pd) && 0 !in Own(mem, pd)
  }

  // The stack's page table is in the stack's slot, once the process was loaded, and in no other.
  ghost predicate StackApart(mem: Memory, pd: int, stackTable: int) {
    && (Present(Word(mem, pd, PROCESS_STACK_PDE)) ==> Word(mem, pd, PROCESS_STACK_PDE) == Entry(stackTable, USER_PAGE))
    && (forall i :: 0 <= i < ENTRIES && i != PROCESS_STACK_PDE && Present(Word(mem, pd, i)) ==>
          Frame(Word(mem, pd, i)) != stackTable)
  }

  // What a process holds: what it was built from and its heap, apart from each other and from
  // what others held before.
  ghost predicate Living(mem: Memory, used: set<int>, base: int, overlap: int, s: Space, others: set<int>) {
    && Built(mem, base, overlap, s) && Tree(mem, s.pd, used) && HeapSound(mem, s.pd)
    && used == others + Elements(s.All()) + Own(mem, s.pd)
    && others !! Elements(s.All()) && Own(mem, s.pd) !! others + Elements(s.All())
    && !Present(Word(mem, s.pd, PROCESS_GUI_PDE)) && StackApart(mem, s.pd, s.stackTable)
  }

  // Nothing of what a process was built from is a slot or a table of its heap.
  ghost predicate Fixed(mem: Memory, mem': Memory, base: int, s: Space) {
    && (forall i :: 0 <= i < PROCESS_SPACE_FOR_OS || PROCESS_SPACE_FOR_OS + base <= i < HEAP_SLOT ==>
          Word(mem', s.pd, i) == Word(mem, s.pd, i))
    && (forall q, j :: q in s.tables || q == s.stackTable ==> Word(mem', q, j) == Word(mem, q, j))
  }

  lemma BuiltStays(mem: Memory, mem': Memory, base: int, overlap: int, s: Space)
    requires Built(mem, base, overlap, s) && Fixed(mem, mem', base, s) && 0 <= base && base + |s.tables| <= HEAP_SLOT
    ensures Built(mem', base, overlap, s)
  {
  }

  lemma HeapAfterTable(mem: Memory, mem': Memory, pd: int, i: int, table: int)
    requires HeapSound(mem, pd) && HeapSlot(i) && !Present(Word(mem, pd, i))
    requires Word(mem', pd, i) == Entry(table, USER_PAGE)
    requires forall k :: 0 <= k < ENTRIES && k != i ==> Word(mem', pd, k) == Word(mem, pd, k)
    requires forall k, l :: 0 <= k < ENTRIES && 0 <= l < ENTRIES && k != i ==> Pte(mem', pd, k, l) == Pte(mem, pd, k, l)
    requires forall l :: 0 <= l < ENTRIES ==> !Present(Pte(mem', pd, i, l))
    requires table !in Own(mem, pd) && table != 0
    ensures HeapSound(mem', pd) && Own(mem', pd) == Own(mem, pd) + {table}
  {
    assert TableEntry(mem', pd, i) && Frame(Word(mem', pd, i)) == table;
    forall k | HEAP_SLOT <= k < ENTRIES
      ensures TableEntry(mem', pd, k) <==> TableEntry(mem, pd, k) || k == i
      ensures TableEntry(mem, pd, k) ==>
                Frame(Word(mem', pd, k)) == Frame(Word(mem, pd, k)) && Frame(Word(mem, pd, k)) in HeapTables(mem, pd)
    {
    }
    forall k, l | HEAP_SLOT <= k < ENTRIES && 0 <= l < ENTRIES
      ensures PageEntry(mem', pd, k, l) <==> PageEntry(mem, pd, k, l)
      ensures PageEntry(mem, pd, k, l) ==> Frame(Pte(mem', pd, k, l)) == Frame(Pte(mem, pd, k, l))
    {
    }
    assert HeapTables(mem', pd) == HeapTables(mem, pd) + {table};
    assert HeapPages(mem', pd) == HeapPages(mem, pd);
  }

  // What adding one entry does to the entries of the heap.
  ghost predicate OneMore(mem: Memory, mem': Memory, pd: int, i: int, j: int, frame: int) {
    && (forall k :: TableEntry(mem', pd, k) <==> TableEntry(mem, pd, k))
    && (forall k :: HeapSlot(k) ==> Frame(Word(mem', pd, k)) == Frame(Word(mem, pd, k)))
    && (forall k, l :: PageEntry(mem', pd, k, l) <==> PageEntry(mem, pd, k, l) || (k == i && l == j))
    && (forall k, l :: PageEntry(mem, pd, k, l) ==> Frame(Pte(mem', pd, k, l)) == Frame(Pte(mem, pd, k, l)))
    && !PageEntry(mem, pd, i, j) && PageEntry(mem', pd, i, j) && Frame(Pte(mem', pd, i, j)) == frame
  }

  lemma OneMoreOwned(mem: Memory, mem': Memory, pd: int, i: int, j: int, frame: int)
    requires OneMore(mem, mem', pd, i, j, frame)
    ensures HeapTables(mem', pd) == HeapTables(mem, pd) && HeapPages(mem', pd) == HeapPages(mem, pd) + {frame}
  {
  }

  lemma OneMoreSound(mem: Memory, mem': Memory, pd: int, i: int, j: int, frame: int)
    requires OneMore(mem, mem', pd, i, j, frame) && PagesOnce(mem, pd) && TablesOnce(mem, pd)
    requires frame !in HeapPages(mem, pd)
    ensures PagesOnce(mem', pd) && TablesOnce(mem', pd)
  {
  }

  lemma HeapAfterPage(mem: Memory, mem': Memory, pd: int, i: int, j: int, frame: int)
    requires HeapSound(mem, pd) && HeapSlot(i) && 0 <= j < ENTRIES && Pte(mem', pd, i, j) == Entry(frame, USER_PAGE)
    requires !Present(Pte(mem, pd, i, j)) && forall k :: 0 <= k < ENTRIES ==> Word(mem', pd, k) == Word(mem, pd, k)
    requires SameElsewhere(mem, mem', pd, i, j) && frame !in Own(mem, pd) && frame != 0
    ensures HeapSound(mem', pd) && Own(mem', pd) == Own(mem, pd) + {frame}
  {
    hide Pte, HeapTables, HeapPages, PagesOnce, TablesOnce, OneMore;
    OneMoreEntry(mem, mem', pd, i, j, frame);
    OneMoreOwned(mem, mem', pd, i, j, frame);
    OneMoreSound(mem, mem', pd, i, j, frame);
  }

  lemma OneMoreEntry(mem: Memory, mem': Memory, pd: int, i: int, j: int, frame: int)
    requires HeapSound(mem, pd) && HeapSlot(i) && 0 <= j < ENTRIES && Pte(mem', pd, i, j) == Entry(frame, USER_PAGE)
    requires !Present(Pte(mem, pd, i, j)) && forall k :: 0 <= k < ENTRIES ==> Word(mem', pd, k) == Word(mem, pd, k)
    requires SameElsewhere(mem, mem', pd, i, j) && frame != 0
    ensures OneMore(mem, mem', pd, i, j, frame)
  {
    hide Pte, HeapTables, HeapPages, PagesOnce, TablesOnce;
    forall k, l | HeapSlot(k) && 0 <= l < ENTRIES
      ensures PageEntry(mem', pd, k, l) <==> PageEntry(mem, pd, k, l) || (k == i && l == j)
      ensures PageEntry(mem, pd, k, l) ==> Frame(Pte(mem', pd, k, l)) == Frame(Pte(mem, pd, k, l))
    {
    }
  }

  lemma FixedByTable(mem: Memory, base: int, s: Space, i: int, table: int)
    requires s.pd in mem && |mem[s.pd]| == ENTRIES && HeapSlot(i) && NoDup(s.All()) && table !in Elements(s.All())
    ensures Fixed(mem, WithTable(mem, s.pd, i, table), base, s)
  {
    PartsIn(s);
  }

  lemma FixedByPage(mem: Memory, base: int, s: Space, table: int, j: int, frame: int)
    requires table in mem && 0 <= j < |mem[table]| && table !in Elements(s.All()) && frame !in Elements(s.All())
    ensures Fixed(mem, WithPage(mem, table, j, frame), base, s)
  {
  }

  // A page table added by a fault.
  lemma TableKeepsLiving(mem: Memory, mem': Memory, used: set<int>, used': set<int>, base: int, overlap: int,
          s: Space, others: set<int>, i: int, limit: int)
    requires Living(mem, used, base, overlap, s, others) && 0 <= base && base + |s.tables| <= HEAP_SLOT
    requires TableStepped(mem, mem', used, used', s.pd, i) && HeapSlot(i)
    requires Pages1024(mem, limit) && InRange(used, limit) && InRange(used', limit)
    ensures Living(mem', used', base, overlap, s, others) && Pages1024(mem', limit)
  {
    hide Built, HeapSound, Tree, Own, Pages1024, Fixed, WithTable;
    if mem' != mem || used' != used {
      var table :| table !in used && 0 < table && used' == used + {table} && mem' == WithTable(mem, s.pd, i, table);
      assert table in used';
      TreeFacts(mem, s.pd, used, i);
      PageFacts(mem, limit, s.pd);
      BuiltFacts(mem, base, overlap, s);
      TableAdded(mem, s.pd, used, i, table, limit);
      FixedByTable(mem, base, s, i, table);
      BuiltStays(mem, mem', base, overlap, s);
      SlotsBesides(mem, s.pd, i, table);
      HeapAfterTable(mem, mem', s.pd, i, table);
      PartsIn(s);
      StackStaysApart(mem, mem', s.pd, i, table, s.stackTable);
    }
  }

  lemma StackStaysApart(mem: Memory, mem': Memory, pd: int, i: int, table: int, stackTable: int)
    requires StackApart(mem, pd, stackTable) && HeapSlot(i) && table != stackTable
    requires Word(mem', pd, i) == Entry(table, USER_PAGE)
    requires forall k :: 0 <= k < ENTRIES && k != i ==> Word(mem', pd, k) == Word(mem, pd, k)
    ensures StackApart(mem', pd, stackTable)
  {
  }

  lemma BuiltFacts(mem: Memory, base: int, overlap: int, s: Space)
    requires Built(mem, base, overlap, s)
    ensures NoDup(s.All())
  {
  }

  lemma SlotsBesides(mem: Memory, pd: int, i: int, table: int)
    requires pd in mem && |mem[pd]| == ENTRIES && HeapSlot(i) && table != pd
    ensures forall k :: 0 <= k < ENTRIES && k != i ==> Word(WithTable(mem, pd, i, table), pd, k) == Word(mem, pd, k)
  {
  }

  // A page added by a fault.
  lemma PageKeepsLiving(mem: Memory, mem': Memory, used: set<int>, used': set<int>, base: int, overlap: int,
          s: Space, others: set<int>, i: int, j: int, limit: int)
    requires Living(mem, used, base, overlap, s, others) && 0 <= base && base + |s.tables| <= HEAP_SLOT
    requires PageStepped(mem, mem', used, used', s.pd, i, j) && HeapSlot(i) && 0 <= j < ENTRIES
    requires Pages1024(mem, limit) && InRange(used, limit) && InRange(used', limit)
    ensures Living(mem', used', base, overlap, s, others) && Pages1024(mem', limit)
  {
    hide Built, HeapSound, Tree, Own, Pages1024, Fixed, WithPage;
    if mem' != mem || used' != used {
      var table := Frame(Word(mem, s.pd, i));
      var frame :| frame !in used && 0 < frame && used' == used + {frame} && mem' == WithPage(mem, table, j, frame);
      assert frame in used';
      TreeFacts(mem, s.pd, used, i);
      PageFacts(mem, limit, table);
      TableOwned(mem, s.pd, i);
      PageAdded(mem, s.pd, used, i, j, frame, limit);
      FixedByPage(mem, base, s, table, j, frame);
      BuiltStays(mem, mem', base, overlap, s);
      HeapAfterPage(mem, mem', s.pd, i, j, frame);
    }
  }

  lemma TableOwned(mem: Memory, pd: int, i: int)
    requires HeapSlot(i) && Present(Word(mem, pd, i))
    ensures Frame(Word(mem, pd, i)) in Own(mem, pd)
  {
  }

  lemma PartsIn(s: Space)
    ensures s.pd in Elements(s.All()) && s.stackTable in Elements(s.All())
    ensures forall x :: x in s.tables || x in s.pages || x in s.stack ==> x in Elements(s.All())
    ensures NoDup(s.All()) ==> s.stackTable != s.pd && s.pd !in s.tables && s.stackTable !in s.tables
  {
    var all, n := s.All(), |s.tables|;
    assert all[0] == s.pd && all[n + 1] == s.stackTable;
    assert forall i :: 0 <= i < n ==> all[i + 1] == s.tables[i];
  }

  // The heap is filled without gaps: the condition under which the teardown below finds it all.
  ghost predicate Contiguous(mem: Memory, pd: int) {
    && (forall i, k :: HEAP_SLOT <= i < k && TableEntry(mem, pd, k) ==> Present(Word(mem, pd, i)))
    && (forall i, j, l :: 0 <= j < l && PageEntry(mem, pd, i, l) ==> Present(Pte(mem, pd, i, j)))
  }

  predicate Held(entry: int) {
    Present(entry) && Frame(entry) != 0
  }

  // The pages a scan of a table from entry j on gives back: up to the first entry that is absent.
  ghost function PageRun(mem: Memory, table: int, j: int): set<int>
    decreases ENTRIES - j
  {
    if j < ENTRIES && Held(Word(mem, table, j)) then {Frame(Word(mem, table, j))} + PageRun(mem, table, j + 1) else {}
  }

  // The pages and tables a scan of the directory from slot i on gives back.
  ghost function TableRun(mem: Memory, pd: int, i: int): set<int>
    decreases ENTRIES - i
  {
    var entry := Word(mem, pd, i);
    if i < ENTRIES && Held(entry) then PageRun(mem, Frame(entry), 0) + {Frame(entry)} + TableRun(mem, pd, i + 1) else {}
  }

  // A page is in the run exactly if every entry up to its own is held.
  lemma {:induction false} PageRunHas(mem: Memory, table: int, j: int, x: int)
    requires 0 <= j <= ENTRIES
    ensures x in PageRun(mem, table, j) <==>
              exists l :: j <= l < ENTRIES && Frame(Word(mem, table, l)) == x && HeldFrom(mem, table, j, l)
    decreases ENTRIES - j
  {
    if j < ENTRIES && Held(Word(mem, table, j)) {
      PageRunHas(mem, table, j + 1, x);
      forall l | j < l < ENTRIES
        ensures HeldFrom(mem, table, j, l) <==> HeldFrom(mem, table, j + 1, l)
      {
      }
      assert HeldFrom(mem, table, j, j);
    }
  }

  ghost predicate HeldFrom(mem: Memory, page: int, from: int, to: int) {
    forall k :: from <= k <= to ==> Held(Word(mem, page, k))
  }

  lemma {:induction false} TableRunHas(mem: Memory, pd: int, i: int, x: int)
    requires 0 <= i <= ENTRIES
    ensures x in TableRun(mem, pd, i) <==>
              exists k :: i <= k < ENTRIES && HeldFrom(mem, pd, i, k) &&
                          (Frame(Word(mem, pd, k)) == x || x in PageRun(mem, Frame(Word(mem, pd, k)), 0))
    decreases ENTRIES - i
  {
    if i < ENTRIES && Held(Word(mem, pd, i)) {
      TableRunHas(mem, pd, i + 1, x);
      forall k | i < k < ENTRIES
        ensures HeldFrom(mem, pd, i, k) <==> HeldFrom(mem, pd, i + 1, k)
      {
      }
      assert HeldFrom(mem, pd, i, i);
    }
  }

  // A scan from the heap's first slot stays below the framebuffer's slot.
  lemma RunBelowGui(mem: Memory, pd: int, k: int)
    requires HeldFrom(mem, pd, HEAP_SLOT, k) && !Present(Word(mem, pd, PROCESS_GUI_PDE)) && HEAP_SLOT <= k < ENTRIES
    ensures HeapSlot(k) && TableEntry(mem, pd, k) && k < PROCESS_GUI_PDE
  {
  }

  lemma RunPage(mem: Memory, pd: int, k: int, x: int) returns (l: int)
    requires TableEntry(mem, pd, k) && x in PageRun(mem, Frame(Word(mem, pd, k)), 0)
    ensures 0 <= l < ENTRIES && PageEntry(mem, pd, k, l) && Frame(Pte(mem, pd, k, l)) == x
    ensures HeldFrom(mem, Frame(Word(mem, pd, k)), 0, l) && x in HeapPages(mem, pd)
  {
    var table := Frame(Word(mem, pd, k));
    PageRunHas(mem, table, 0, x);
    l :| 0 <= l < ENTRIES && Frame(Word(mem, table, l)) == x && HeldFrom(mem, table, 0, l);
    assert Held(Word(mem, table, l));
    assert PageEntry(mem, pd, k, l);
  }

  lemma RunInOwn(mem: Memory, pd: int, x: int)
    requires !Present(Word(mem, pd, PROCESS_GUI_PDE)) && x in TableRun(mem, pd, HEAP_SLOT)
    ensures x in Own(mem, pd)
  {
    TableRunHas(mem, pd, HEAP_SLOT, x);
    var k :| HEAP_SLOT <= k < ENTRIES && HeldFrom(mem, pd, HEAP_SLOT, k) &&
             (Frame(Word(mem, pd, k)) == x || x in PageRun(mem, Frame(Word(mem, pd, k)), 0));
    RunBelowGui(mem, pd, k);
    if Frame(Word(mem, pd, k)) != x {
      var l := RunPage(mem, pd, k, x);
    }
  }

  lemma TablesHeld(mem: Memory, pd: int, k: int)
    requires HeapSound(mem, pd) && !Present(Word(mem, pd, PROCESS_GUI_PDE)) && Contiguous(mem, pd)
    requires TableEntry(mem, pd, k)
    ensures HeldFrom(mem, pd, HEAP_SLOT, k)
  {
  }

  lemma PagesHeld(mem: Memory, pd: int, k: int, l: int)
    requires HeapSound(mem, pd) && Contiguous(mem, pd) && PageEntry(mem, pd, k, l)
    ensures TableEntry(mem, pd, k) && HeldFrom(mem, Frame(Word(mem, pd, k)), 0, l)
  {
    forall j | 0 <= j <= l
      ensures Held(Word(mem, Frame(Word(mem, pd, k)), j))
    {
      assert PageEntry(mem, pd, k, j);
      assert Frame(Pte(mem, pd, k, j)) in Own(mem, pd);
    }
  }

  lemma OwnInRun(mem: Memory, pd: int, x: int)
    requires HeapSound(mem, pd) && !Present(Word(mem, pd, PROCESS_GUI_PDE)) && Contiguous(mem, pd) && x in Own(mem, pd)
    ensures x in TableRun(mem, pd, HEAP_SLOT)
  {
    TableRunHas(mem, pd, HEAP_SLOT, x);
    if x in HeapTables(mem, pd) {
      var k :| HEAP_SLOT <= k < ENTRIES && TableEntry(mem, pd, k) && Frame(Word(mem, pd, k)) == x;
      TablesHeld(mem, pd, k);
    } else {
      var k, l :| HEAP_SLOT <= k < ENTRIES && 0 <= l < ENTRIES && PageEntry(mem, pd, k, l)
          && Frame(Pte(mem, pd, k, l)) == x;
      PagesHeld(mem, pd, k, l);
      TablesHeld(mem, pd, k);
      PageRunHas(mem, Frame(Word(mem, pd, k)), 0, x);
    }
  }

  lemma TableInRun(mem: Memory, pd: int, k: int)
    requires HeapSound(mem, pd) && !Present(Word(mem, pd, PROCESS_GUI_PDE)) && TableEntry(mem, pd, k)
    requires Frame(Word(mem, pd, k)) in TableRun(mem, pd, HEAP_SLOT)
    ensures HeldFrom(mem, pd, HEAP_SLOT, k)
  {
    var x := Frame(Word(mem, pd, k));
    assert x in HeapTables(mem, pd);
    TableRunHas(mem, pd, HEAP_SLOT, x);
    var k' :| HEAP_SLOT <= k' < ENTRIES && HeldFrom(mem, pd, HEAP_SLOT, k') &&
              (Frame(Word(mem, pd, k')) == x || x in PageRun(mem, Frame(Word(mem, pd, k')), 0));
    RunBelowGui(mem, pd, k');
    if Frame(Word(mem, pd, k')) != x {
      var l := RunPage(mem, pd, k', x);
    }
  }

  lemma PageInRun(mem: Memory, pd: int, k: int, l: int)
    requires HeapSound(mem, pd) && !Present(Word(mem, pd, PROCESS_GUI_PDE)) && PageEntry(mem, pd, k, l)
    requires Frame(Pte(mem, pd, k, l)) in TableRun(mem, pd, HEAP_SLOT)
    ensures HeldFrom(mem, Frame(Word(mem, pd, k)), 0, l)
  {
    var x := Frame(Pte(mem, pd, k, l));
    assert x in HeapPages(mem, pd);
    TableRunHas(mem, pd, HEAP_SLOT, x);
    var k' :| HEAP_SLOT <= k' < ENTRIES && HeldFrom(mem, pd, HEAP_SLOT, k') &&
              (Frame(Word(mem, pd, k')) == x || x in PageRun(mem, Frame(Word(mem, pd, k')), 0));
    RunBelowGui(mem, pd, k');
    TableListed(mem, pd, k');
    if Frame(Word(mem, pd, k')) != x {
      var l' := RunPage(mem, pd, k', x);
    }
  }

  // The teardown's scan finds the whole heap exactly if the heap is filled without gaps.
  lemma RunIsOwnIff(mem: Memory, pd: int)
    requires HeapSound(mem, pd) && !Present(Word(mem, pd, PROCESS_GUI_PDE))
    ensures TableRun(mem, pd, HEAP_SLOT) <= Own(mem, pd)
    ensures TableRun(mem, pd, HEAP_SLOT) == Own(mem, pd) <==> Contiguous(mem, pd)
  {
    hide HeapSound, Own, TableRun;
    forall x | x in TableRun(mem, pd, HEAP_SLOT)
      ensures x in Own(mem, pd)
    {
      RunInOwn(mem, pd, x);
    }
    if Contiguous(mem, pd) {
      forall x | x in Own(mem, pd)
        ensures x in TableRun(mem, pd, HEAP_SLOT)
      {
        OwnInRun(mem, pd, x);
      }
    } else if TableRun(mem, pd, HEAP_SLOT) == Own(mem, pd) {
      forall i, k | HEAP_SLOT <= i < k && TableEntry(mem, pd, k)
        ensures Present(Word(mem, pd, i))
      {
        TableOwned(mem, pd, k);
        TableInRun(mem, pd, k);
        assert Held(Word(mem, pd, i));
      }
      forall i, j, l | 0 <= j < l && PageEntry(mem, pd, i, l)
        ensures Present(Pte(mem, pd, i, j))
      {
        PageOwned(mem, pd, i, l);
        PageInRun(mem, pd, i, l);
        assert Held(Word(mem, Frame(Word(mem, pd, i)), j));
      }
    }
  }

  lemma PageListed(mem: Memory, pd: int, k: int, l: int)
    requires PageEntry(mem, pd, k, l)
    ensures Frame(Pte(mem, pd, k, l)) in HeapPages(mem, pd)
  {
  }

  lemma TableListed(mem: Memory, pd: int, k: int)
    requires TableEntry(mem, pd, k)
    ensures Frame(Word(mem, pd, k)) in HeapTables(mem, pd)
  {
  }

  lemma PageOwned(mem: Memory, pd: int, i: int, j: int)
    requires PageEntry(mem, pd, i, j)
    ensures Frame(Pte(mem, pd, i, j)) in Own(mem, pd)
  {
  }

  // What the scan has given back when it is about to look at entry j of slot i.
  ghost predicate FreedBefore(mem: Memory, pd: int, i: int, j: int, freed: set<int>) {
    forall x :: x in freed ==>
      (exists k :: HEAP_SLOT <= k < i && TableEntry(mem, pd, k) && Frame(Word(mem, pd, k)) == x) ||
      (exists k, l :: (k < i || (k == i && l < j)) && PageEntry(mem, pd, k, l) && Frame(Pte(mem, pd, k, l)) == x)
  }

  // The page and the table the scan comes to next have not been given back yet.
  lemma NextPageHeld(mem: Memory, pd: int, i: int, j: int, freed: set<int>)
    requires HeapSound(mem, pd) && FreedBefore(mem, pd, i, j, freed) && PageEntry(mem, pd, i, j)
    ensures Frame(Pte(mem, pd, i, j)) in Own(mem, pd) - freed
    ensures FreedBefore(mem, pd, i, j + 1, freed + {Frame(Pte(mem, pd, i, j))})
  {
    var x := Frame(Pte(mem, pd, i, j));
    PageOwned(mem, pd, i, j);
    assert x in HeapPages(mem, pd);
    if x in freed {
      if k :| HEAP_SLOT <= k < i && TableEntry(mem, pd, k) && Frame(Word(mem, pd, k)) == x {
        TableListed(mem, pd, k);
      }
    }
  }

  lemma NextTableHeld(mem: Memory, pd: int, i: int, j: int, freed: set<int>)
    requires HeapSound(mem, pd) && FreedBefore(mem, pd, i, j, freed) && TableEntry(mem, pd, i) && 0 <= j <= ENTRIES
    ensures Frame(Word(mem, pd, i)) in Own(mem, pd) - freed
    ensures FreedBefore(mem, pd, i + 1, 0, freed + {Frame(Word(mem, pd, i))})
  {
    var x := Frame(Word(mem, pd, i));
    TableListed(mem, pd, i);
    if x in freed {
      if k, l :| (k < i || (k == i && l < j)) && PageEntry(mem, pd, k, l) && Frame(Pte(mem, pd, k, l)) == x {
        PageListed(mem, pd, k, l);
      }
    }
  }

  // DMM_DeAllocatePhysicalPages: gives back the pages and tables of the heap, scanning from its
  // first slot and stopping at the first absent entry of each level.
  method DeAllocateHeap(mm: MemManager, pd: int)
    requires mm.Valid() && InRange(mm.Used(), mm.Limit()) && HeapSound(mm.mem, pd) && Own(mm.mem, pd) <= mm.Used()
    requires !Present(Word(mm.mem, pd, PROCESS_GUI_PDE))
    modifies mm.pageMap.words
    ensures mm.Valid() && InRange(mm.Used(), mm.Limit())
    ensures mm.Used() == old(mm.Used()) - TableRun(mm.mem, pd, HEAP_SLOT)
  {
    hide HeapSound, Own, FreedBefore, TableRun, PageRun;
    ghost var freed: set<int> := {};
    var i := HEAP_SLOT;
    StartScan(mm.mem, pd);
    while i < ENTRIES && Held(Word(mm.mem, pd, i))
      invariant mm.Valid() && InRange(mm.Used(), mm.Limit()) && HEAP_SLOT <= i <= ENTRIES
      invariant mm.Used() == old(mm.Used()) - freed && FreedBefore(mm.mem, pd, i, 0, freed)
      invariant TableRun(mm.mem, pd, HEAP_SLOT) == freed + TableRun(mm.mem, pd, i)
      invariant HeldFrom(mm.mem, pd, HEAP_SLOT, i - 1)
    {
      var table := Frame(Word(mm.mem, pd, i));
      RunBelowGui(mm.mem, pd, i);
      TableRunUnfolds(mm.mem, pd, i);
      ghost var before := freed;
      var j := 0;
      while j < ENTRIES && Held(Word(mm.mem, table, j))
        invariant mm.Valid() && InRange(mm.Used(), mm.Limit()) && 0 <= j <= ENTRIES
        invariant mm.Used() == old(mm.Used()) - freed && FreedBefore(mm.mem, pd, i, j, freed)
        invariant before + PageRun(mm.mem, table, 0) == freed + PageRun(mm.mem, table, j)
      {
        NextPageHeld(mm.mem, pd, i, j, freed);
        PageRunUnfolds(mm.mem, table, j);
        freed := freed + {Frame(Word(mm.mem, table, j))};
        mm.pageMap.DeAllocate(Frame(Word(mm.mem, table, j)));
        j := j + 1;
      }
      PageRunEnds(mm.mem, table, j);
      NextTableHeld(mm.mem, pd, i, j, freed);
      freed := freed + {table};
      mm.pageMap.DeAllocate(table);
      i := i + 1;
    }
    TableRunEnds(mm.mem, pd, i);
  }

  lemma StartScan(mem: Memory, pd: int)
    ensures FreedBefore(mem, pd, HEAP_SLOT, 0, {})
  {
  }

  lemma TableRunUnfolds(mem: Memory, pd: int, i: int)
    requires i < ENTRIES && Held(Word(mem, pd, i))
    ensures TableRun(mem, pd, i) ==
            PageRun(mem, Frame(Word(mem, pd, i)), 0) + {Frame(Word(mem, pd, i))} + TableRun(mem, pd, i + 1)
  {
  }

  lemma TableRunEnds(mem: Memory, pd: int, i: int)
    requires i >= ENTRIES || !Held(Word(mem, pd, i))
    ensures TableRun(mem, pd, i) == {}
  {
  }

  lemma PageRunUnfolds(mem: Memory, table: int, j: int)
    requires j < ENTRIES && Held(Word(mem, table, j))
    ensures PageRun(mem, table, j) == {Frame(Word(mem, table, j))} + PageRun(mem, table, j + 1)
  {
  }

  lemma PageRunEnds(mem: Memory, table: int, j: int)
    requires j >= ENTRIES || !Held(Word(mem, table, j))
    ensures PageRun(mem, table, j) == {}
  {
  }

  // Every page the kernel's first tables map is in use.
  ghost predicate KernelFramesIn(mem: Memory, kernelPd: int, used: set<int>) {
    forall i, j :: 0 <= i < PROCESS_SPACE_FOR_OS && 0 <= j < ENTRIES ==>
      Frame(Word(mem, Frame(Word(mem, kernelPd, i)), j)) in used
  }

  // What slot i of a new directory holds.
  lemma SlotHolds(mem: Memory, base: int, s: Space, i: int)
    requires DirectoryIs(mem, s.pd, base, s.tables) && 0 <= base && 0 <= i < ENTRIES
    requires PROCESS_SPACE_FOR_OS <= |s.tables|
    ensures var t := if i < PROCESS_SPACE_FOR_OS then i else i - base;
            if SlotTaken(base, |s.tables|, i) then
              0 <= t < |s.tables| && Word(mem, s.pd, i) == Entry(s.tables[t], USER_PAGE)
            else !Present(Word(mem, s.pd, i))
  {
  }

  // What entry j of table t of a new process holds.
  lemma EntryHolds(mem: Memory, kernelPd: int, overlap: int, s: Space, t: int, j: int, used: set<int>)
    requires OsMapped(mem, kernelPd, s.tables, PROCESS_SPACE_FOR_OS) && PagesEntered(mem, s.tables, overlap, s.pages)
    requires KernelFramesIn(mem, kernelPd, used) && 0 <= t < |s.tables| && 0 <= j < ENTRIES && 0 <= overlap < ENTRIES
    ensures Present(Word(mem, s.tables[t], j)) ==> Frame(Word(mem, s.tables[t], j)) in used + Elements(s.pages)
  {
    if t >= PROCESS_SPACE_FOR_OS {
      var k := PageAt(overlap, t, j);
      if 0 <= k < |s.pages| {
        assert TableOf(overlap, k) == t && SlotOf(overlap, k) == j;
        assert s.pages[k] in Elements(s.pages);
      }
    }
  }

  lemma NewTree(mem: Memory, used0: set<int>, used: set<int>, base: int, overlap: int, s: Space, kernelPd: int)
    requires Took(used0, used, s.All()) && 0 <= base && base + |s.tables| <= HEAP_SLOT && 0 <= overlap < ENTRIES
    requires DirectoryIs(mem, s.pd, base, s.tables) && PagesEntered(mem, s.tables, overlap, s.pages)
    requires OsMapped(mem, kernelPd, s.tables, PROCESS_SPACE_FOR_OS) && PROCESS_SPACE_FOR_OS <= |s.tables|
    requires KernelFramesIn(mem, kernelPd, used0)
    ensures Tree(mem, s.pd, used) && forall i :: HEAP_SLOT <= i < ENTRIES ==> !Present(Word(mem, s.pd, i))
  {
    hide DirectoryIs, PagesEntered, OsMapped, KernelFramesIn, Elements;
    AllIn(s, used0, used);
    forall i | 0 <= i < ENTRIES
      ensures Present(Word(mem, s.pd, i)) ==> i < HEAP_SLOT && Frame(Word(mem, s.pd, i)) in used - {s.pd}
      ensures forall j :: 0 <= j < ENTRIES && Present(Pte(mem, s.pd, i, j)) ==> Frame(Pte(mem, s.pd, i, j)) in used
    {
      SlotHolds(mem, base, s, i);
      if SlotTaken(base, |s.tables|, i) {
        var t := if i < PROCESS_SPACE_FOR_OS then i else i - base;
        forall j | 0 <= j < ENTRIES && Present(Pte(mem, s.pd, i, j))
          ensures Frame(Pte(mem, s.pd, i, j)) in used
        {
          EntryHolds(mem, kernelPd, overlap, s, t, j, used0);
        }
      }
    }
    forall i, k | 0 <= i < k < ENTRIES && Present(Word(mem, s.pd, i)) && Present(Word(mem, s.pd, k))
      ensures Frame(Word(mem, s.pd, i)) != Frame(Word(mem, s.pd, k))
    {
      SlotHolds(mem, base, s, i);
      SlotHolds(mem, base, s, k);
    }
  }

  lemma AllIn(s: Space, used0: set<int>, used: set<int>)
    requires Took(used0, used, s.All())
    ensures used0 <= used && s.pd in used && Elements(s.pages) <= used && NoDup(s.tables)
    ensures forall i :: 0 <= i < |s.tables| ==> s.tables[i] in used - {s.pd}
    ensures Elements(s.All()) <= used && used0 !! Elements(s.All())
  {
    PartsApart(s);
    forall i | 0 <= i < |s.tables|
      ensures s.tables[i] in Elements(s.tables)
    {
    }
    PartsIn(s);
  }

  // A process just built lives: its heap is empty.
  lemma NewLives(mem: Memory, used0: set<int>, used: set<int>, base: int, overlap: int, s: Space, kernelPd: int)
    requires Took(used0, used, s.All()) && 0 <= base && base + |s.tables| <= HEAP_SLOT && 0 <= overlap < ENTRIES
    requires Built(mem, base, overlap, s) && DirectoryIs(mem, s.pd, base, s.tables)
    requires OsMapped(mem, kernelPd, s.tables, PROCESS_SPACE_FOR_OS) && PROCESS_SPACE_FOR_OS <= |s.tables|
    requires KernelFramesIn(mem, kernelPd, used0)
    ensures Living(mem, used, base, overlap, s, used0)
  {
    hide DirectoryIs, PagesEntered, OsMapped, KernelFramesIn, Tree;
    NewTree(mem, used0, used, base, overlap, s, kernelPd);
    AllIn(s, used0, used);
    assert Own(mem, s.pd) == {};
    NewStackApart(mem, base, s);
  }

  lemma NewStackApart(mem: Memory, base: int, s: Space)
    requires DirectoryIs(mem, s.pd, base, s.tables) && NoDup(s.All()) && 0 <= base && base + |s.tables| <= HEAP_SLOT
    requires PROCESS_SPACE_FOR_OS <= |s.tables|
    ensures StackApart(mem, s.pd, s.stackTable)
  {
    hide DirectoryIs;
    PartsIn(s);
    forall i | 0 <= i < ENTRIES && Present(Word(mem, s.pd, i))
      ensures i < HEAP_SLOT && Frame(Word(mem, s.pd, i)) != s.stackTable
    {
      SlotHolds(mem, base, s, i);
    }
  }

  // Loading a process enters the stack's page table in its slot.
  lemma LoadKeepsLiving(mem: Memory, used: set<int>, base: int, overlap: int, s: Space, others: set<int>, limit: int)
    requires Living(mem, used, base, overlap, s, others) && 0 <= base && base + |s.tables| <= HEAP_SLOT
    requires Pages1024(mem, limit) && InRange(used, limit) && |s.stack| == STACK_PAGES
    ensures s.pd in mem && |mem[s.pd]| == ENTRIES
    ensures var mem' := mem[s.pd := mem[s.pd][PROCESS_STACK_PDE := Entry(s.stackTable, USER_PAGE)]];
            Living(mem', used, base, overlap, s, others) && Pages1024(mem', limit)
  {
    hide Built, HeapSound, Pages1024, Own, Tree, Fixed, StackApart;
    TreeFacts(mem, s.pd, used, 0);
    PageFacts(mem, limit, s.pd);
    var mem' := mem[s.pd := mem[s.pd][PROCESS_STACK_PDE := Entry(s.stackTable, USER_PAGE)]];
    BuiltFacts(mem, base, overlap, s);
    PartsIn(s);
    LoadWords(mem, s);
    LoadPages(mem, s, limit);
    FixedByLoad(mem, mem', base, s);
    BuiltStays(mem, mem', base, overlap, s);
    LoadTree(mem, mem', used, base, overlap, s);
    LoadHeap(mem, mem', used, s);
  }

  lemma LoadWords(mem: Memory, s: Space)
    requires s.pd in mem && |mem[s.pd]| == ENTRIES
    ensures var mem' := mem[s.pd := mem[s.pd][PROCESS_STACK_PDE := Entry(s.stackTable, USER_PAGE)]];
            && Word(mem', s.pd, PROCESS_STACK_PDE) == Entry(s.stackTable, USER_PAGE)
            && (forall k :: k != PROCESS_STACK_PDE ==> Word(mem', s.pd, k) == Word(mem, s.pd, k))
            && (forall q, k :: q != s.pd ==> Word(mem', q, k) == Word(mem, q, k))
  {
  }

  lemma LoadPages(mem: Memory, s: Space, limit: int)
    requires s.pd in mem && |mem[s.pd]| == ENTRIES && Pages1024(mem, limit)
    ensures Pages1024(mem[s.pd := mem[s.pd][PROCESS_STACK_PDE := Entry(s.stackTable, USER_PAGE)]], limit)
  {
  }

  lemma FixedByLoad(mem: Memory, mem': Memory, base: int, s: Space)
    requires forall k :: k != PROCESS_STACK_PDE ==> Word(mem', s.pd, k) == Word(mem, s.pd, k)
    requires forall q, k :: q != s.pd ==> Word(mem', q, k) == Word(mem, q, k)
    requires s.pd !in s.tables && s.stackTable != s.pd
    ensures Fixed(mem, mem', base, s)
  {
  }

  // What stands in the stack's table once it is entered.
  lemma StackEntry(mem: Memory, base: int, overlap: int, s: Space, j: int)
    requires Built(mem, base, overlap, s) && |s.stack| == STACK_PAGES && 0 <= j < ENTRIES
    ensures Word(mem, s.stackTable, j) ==
              if j < ENTRIES - STACK_PAGES then NOT_PRESENT
                  else Entry(s.stack[ENTRIES - 1 - j], StackFlags(ENTRIES - 1 - j))
    ensures ENTRIES - STACK_PAGES <= j ==> s.stack[ENTRIES - 1 - j] in Elements(s.All())
  {
    if ENTRIES - STACK_PAGES <= j {
      var i := ENTRIES - 1 - j;
      assert Word(mem, s.stackTable, ENTRIES - 1 - i) == Entry(s.stack[i], StackFlags(i));
      assert s.stack[i] in s.stack;
      PartsIn(s);
    }
  }

  lemma LoadTree(mem: Memory, mem': Memory, used: set<int>, base: int, overlap: int, s: Space)
    requires Tree(mem, s.pd, used) && StackApart(mem, s.pd, s.stackTable) && Built(mem, base, overlap, s)
    requires Word(mem', s.pd, PROCESS_STACK_PDE) == Entry(s.stackTable, USER_PAGE)
    requires forall k :: k != PROCESS_STACK_PDE ==> Word(mem', s.pd, k) == Word(mem, s.pd, k)
    requires forall q, k :: q != s.pd ==> Word(mem', q, k) == Word(mem, q, k)
    requires Elements(s.All()) <= used && s.stackTable != s.pd && |s.stack| == STACK_PAGES
    requires s.stackTable in Elements(s.All())
    ensures Tree(mem', s.pd, used) && StackApart(mem', s.pd, s.stackTable)
  {
    hide Built, Elements;
    forall j | 0 <= j < ENTRIES && Present(Pte(mem', s.pd, PROCESS_STACK_PDE, j))
      ensures Frame(Pte(mem', s.pd, PROCESS_STACK_PDE, j)) in used
    {
      StackEntry(mem, base, overlap, s, j);
    }
    forall i, j | 0 <= i < ENTRIES && i != PROCESS_STACK_PDE && 0 <= j < ENTRIES
      ensures Pte(mem', s.pd, i, j) == Pte(mem, s.pd, i, j)
    {
      if Present(Word(mem, s.pd, i)) {
        assert Frame(Word(mem, s.pd, i)) in used - {s.pd};
      }
    }
  }

  lemma LoadHeap(mem: Memory, mem': Memory, used: set<int>, s: Space)
    requires Tree(mem, s.pd, used) && HeapSound(mem, s.pd)
    requires forall k :: k != PROCESS_STACK_PDE ==> Word(mem', s.pd, k) == Word(mem, s.pd, k)
    requires forall q, k :: q != s.pd ==> Word(mem', q, k) == Word(mem, q, k)
    ensures HeapSound(mem', s.pd) && Own(mem', s.pd) == Own(mem, s.pd)
  {
    forall i, j | HeapSlot(i)
      ensures Pte(mem', s.pd, i, j) == Pte(mem, s.pd, i, j)
      ensures PageEntry(mem', s.pd, i, j) <==> PageEntry(mem, s.pd, i, j)
      ensures TableEntry(mem', s.pd, i) <==> TableEntry(mem, s.pd, i)
    {
      if Present(Word(mem, s.pd, i)) {
        assert Frame(Word(mem, s.pd, i)) in used - {s.pd};
      }
    }
    assert HeapTables(mem', s.pd) == HeapTables(mem, s.pd);
    assert HeapPages(mem', s.pd) == HeapPages(mem, s.pd);
  }

  lemma EntryDecodes(page: int, flags: int)
    requires flags in {USER_PAGE, KERNEL_PAGE}
    ensures Frame(Entry(page, flags)) == page && Present(Entry(page, flags))
  {
  }

  // Whatever loads and page faults a process has gone through, an address in the stack's slot
  // leads to one of the nine pages the stack was built with, or nowhere: the stack never grows.
  lemma StackWalk(mem: Memory, used: set<int>, base: int, overlap: int, s: Space, others: set<int>, address: int)
    requires Living(mem, used, base, overlap, s, others) && |s.stack| == STACK_PAGES
    requires 0 <= address < 0x1_0000_0000 && PdeIndex(address) == PROCESS_STACK_PDE
    requires Present(Word(mem, s.pd, PROCESS_STACK_PDE))
    ensures var j := PteIndex(address);
            && 0 <= j < ENTRIES
            && Walk(mem, s.pd, address) ==
                 if j < ENTRIES - STACK_PAGES then NULL else s.stack[ENTRIES - 1 - j] * PAGE_SIZE + address % PAGE_SIZE
  {
    hide Built, HeapSound, Tree, Own, Elements, Word;
    var j := PteIndex(address);
    StackEntry(mem, base, overlap, s, j);
    EntryDecodes(s.stackTable, USER_PAGE);
    if ENTRIES - STACK_PAGES <= j {
      EntryDecodes(s.stack[ENTRIES - 1 - j], StackFlags(ENTRIES - 1 - j));
    }
  }

  lemma KernelFramesStay(mem: Memory, mem': Memory, kernelPd: int, used: set<int>)
    requires KernelFramesIn(mem, kernelPd, used) && KernelIn(mem, kernelPd, used) && Untouched(mem, mem', used)
    ensures KernelFramesIn(mem', kernelPd, used)
  {
  }

  lemma AcceptedSlot(address: int, dmmOn: bool)
    requires 0 <= address < 0x1_0000_0000
    ensures 0 <= PteIndex(address) < ENTRIES && (Accepted(address, dmmOn) ==> HeapSlot(PdeIndex(address)))
  {
  }

  // What happens to a process: it is loaded whenever it is scheduled, and it takes page faults.
  datatype Event = Load | PageFault(address: int, dmmOn: bool)

  predicate IsEvent(e: Event) {
    e.PageFault? ==> 0 <= e.address < 0x1_0000_0000
  }

  // Which slots of the directory have a table of the heap, which entries of those have a page, and
  // how many pages of the machine are free.
  datatype Shape = Shape(tables: set<int>, pages: set<(int, int)>, free: int)

  function AfterFault(h: Shape, address: int, dmmOn: bool): Shape {
    if !Accepted(address, dmmOn) then h
    else
      var i, j := PdeIndex(address), PteIndex(address);
      var h1 := if i in h.tables || h.free == 0 then h else h.(tables := h.tables + {i}, free := h.free - 1);
      if i !in h1.tables || (i, j) in h1.pages || h1.free == 0 then h1
      else h1.(pages := h1.pages + {(i, j)}, free := h1.free - 1)
  }

  function AfterEvents(h: Shape, events: seq<Event>): Shape {
    if events == [] then h
    else
      var before, e := AfterEvents(h, events[..|events| - 1]), events[|events| - 1];
      if e.Load? then before else AfterFault(before, e.address, e.dmmOn)
  }

  // No table behind a slot without one, and no page behind an entry without one.
  ghost predicate NoGaps(h: Shape) {
    && (forall i, k :: HEAP_SLOT <= i < k && k in h.tables ==> i in h.tables)
    && (forall i, j, l :: 0 <= j < l && (i, l) in h.pages ==> (i, j) in h.pages)
  }

  // While memory lasts the heap has exactly the pages of the accepted faults.
  ghost predicate Touches(events: seq<Event>, i: int, j: int) {
    exists e :: e in events && e.PageFault? && Accepted(e.address, e.dmmOn)
                && PdeIndex(e.address) == i && PteIndex(e.address) == j
  }

  lemma {:induction false} EnoughMemory(free: int, events: seq<Event>)
    requires 2 * |events| <= free
    ensures var h := AfterEvents(Shape({}, {}, free), events);
            && free - 2 * |events| <= h.free
            && (forall i, j :: (i, j) in h.pages <==> Touches(events, i, j))
            && (forall i :: i in h.tables <==> exists j :: (i, j) in h.pages)
    decreases |events|
  {
    if events != [] {
      var n := |events| - 1;
      var e, before := events[n], AfterEvents(Shape({}, {}, free), events[..n]);
      EnoughMemory(free, events[..n]);
      assert forall x :: x in events <==> x in events[..n] || x == e;
      if e.PageFault? && Accepted(e.address, e.dmmOn) {
        var h := AfterFault(before, e.address, e.dmmOn);
        assert (PdeIndex(e.address), PteIndex(e.address)) in h.pages;
        forall i | i in h.tables
          ensures exists j :: (i, j) in h.pages
        {
          if i != PdeIndex(e.address) {
            var j :| (i, j) in before.pages;
            assert (i, j) in h.pages;
          }
        }
      }
    }
  }

  // A single accepted fault at the second page of the heap leaves a gap; with one at its first
  // page, before or after, there is none.
  lemma GapHappens(free: int)
    requires 4 <= free
    ensures !NoGaps(AfterEvents(Shape({}, {}, free), [PageFault(0x8000_1000, true)]))
    ensures NoGaps(AfterEvents(Shape({}, {}, free), [PageFault(0x8000_0000, true), PageFault(0x8000_1000, true)]))
    ensures NoGaps(AfterEvents(Shape({}, {}, free), [PageFault(0x8000_1000, true), PageFault(0x8000_0000, true)]))
  {
    var h, first, second := Shape({}, {}, free), PageFault(0x8000_0000, true), PageFault(0x8000_1000, true);
    assert PdeIndex(first.address) == PdeIndex(second.address) == HEAP_SLOT;
    assert PteIndex(first.address) == 0 && PteIndex(second.address) == 1;
    assert AfterEvents(h, []) == h && [first][..0] == [] && [second][..0] == [];
    assert [first, second][..1] == [first] && [second, first][..1] == [second];
    var gap := AfterEvents(h, [second]);
    assert gap == AfterFault(h, second.address, true);
    assert AfterEvents(h, [first]) == AfterFault(h, first.address, true);
    assert gap == Shape({HEAP_SLOT}, {(HEAP_SLOT, 1)}, free - 2);
    assert (HEAP_SLOT, 1) in gap.pages && (HEAP_SLOT, 0) !in gap.pages;
    assert AfterEvents(h, [first]) == Shape({HEAP_SLOT}, {(HEAP_SLOT, 0)}, free - 2);
    assert AfterEvents(h, [first, second]) == Shape({HEAP_SLOT}, {(HEAP_SLOT, 0), (HEAP_SLOT, 1)}, free - 3);
    assert AfterEvents(h, [second, first]) == Shape({HEAP_SLOT}, {(HEAP_SLOT, 0), (HEAP_SLOT, 1)}, free - 3);
  }

  // The heap in memory has this shape; its entries are fully permitted.
  ghost predicate Shaped(mem: Memory, pd: int, h: Shape) {
    && (forall i :: HeapSlot(i) ==> (Present(Word(mem, pd, i)) <==> i in h.tables))
    && (forall i :: i in h.tables ==> HeapSlot(i) && UserWritable(Word(mem, pd, i)))
    && (forall i, j :: PageEntry(mem, pd, i, j) <==> (i, j) in h.pages)
    && (forall i, j :: (i, j) in h.pages ==> UserWritable(Pte(mem, pd, i, j)))
  }

  lemma ContiguousIff(mem: Memory, pd: int, h: Shape)
    requires Shaped(mem, pd, h) && !Present(Word(mem, pd, PROCESS_GUI_PDE))
    ensures Contiguous(mem, pd) <==> NoGaps(h)
  {
    if Contiguous(mem, pd) {
      forall i, k | HEAP_SLOT <= i < k && k in h.tables
        ensures i in h.tables
      {
        assert TableEntry(mem, pd, k) && Present(Word(mem, pd, i));
        assert !(PROCESS_GUI_PDE < k && TableEntry(mem, pd, k));
      }
      forall i, j, l | 0 <= j < l && (i, l) in h.pages
        ensures (i, j) in h.pages
      {
        assert PageEntry(mem, pd, i, l) && PageEntry(mem, pd, i, j);
      }
    }
    if NoGaps(h) {
      forall i, j, l | 0 <= j < l && PageEntry(mem, pd, i, l)
        ensures Present(Pte(mem, pd, i, j))
      {
        assert (i, l) in h.pages && (i, j) in h.pages && PageEntry(mem, pd, i, j);
      }
      forall i, k | HEAP_SLOT <= i < k && TableEntry(mem, pd, k)
        ensures Present(Word(mem, pd, i))
      {
        assert i in h.tables;
      }
    }
  }

  lemma ShapePermits(mem: Memory, pd: int, h: Shape, address: int, dmmOn: bool)
    requires Shaped(mem, pd, h) && 0 <= address < 0x1_0000_0000 && Accepted(address, dmmOn)
    ensures Permitted(mem, pd, address)
  {
    AcceptedSlot(address, dmmOn);
    var i, j := PdeIndex(address), PteIndex(address);
    if Present(Word(mem, pd, i)) {
      assert i in h.tables;
    }
    if Present(Pte(mem, pd, i, j)) {
      assert PageEntry(mem, pd, i, j);
    }
  }

  lemma ShapeAfterTable(mem: Memory, mem': Memory, used: set<int>, pd: int, i: int, table: int, h: Shape, limit: int,
                        free: int)
    requires Shaped(mem, pd, h) && HeapSlot(i) && !Present(Word(mem, pd, i))
    requires pd in mem && i < |mem[pd]| && mem' == WithTable(mem, pd, i, table)
    requires Tree(mem, pd, used) && Pages1024(mem, limit) && 0 <= pd < limit && table !in used && 0 <= table < limit
    ensures Shaped(mem', pd, h.(tables := h.tables + {i}, free := free))
  {
    hide Tree, Pages1024, WithTable, Shaped;
    TreeFacts(mem, pd, used, 0);
    PageFacts(mem, limit, pd);
    TableAdded(mem, pd, used, i, table, limit);
    SlotsBesides(mem, pd, i, table);
    ShapeWithTable(mem, mem', pd, i, table, h, free);
  }

  lemma ShapeWithTable(mem: Memory, mem': Memory, pd: int, i: int, table: int, h: Shape, free: int)
    requires Shaped(mem, pd, h) && HeapSlot(i) && !Present(Word(mem, pd, i))
    requires Word(mem', pd, i) == Entry(table, USER_PAGE)
    requires forall k :: 0 <= k < ENTRIES && k != i ==> Word(mem', pd, k) == Word(mem, pd, k)
    requires forall k, l :: 0 <= k < ENTRIES && 0 <= l < ENTRIES && k != i ==> Pte(mem', pd, k, l) == Pte(mem, pd, k, l)
    requires forall l :: 0 <= l < ENTRIES ==> !Present(Pte(mem', pd, i, l)) && !Present(Pte(mem, pd, i, l))
    ensures Shaped(mem', pd, h.(tables := h.tables + {i}, free := free))
  {
    hide Pte, Word, Frame;
    EntryPermits(table);
    forall k, l
      ensures PageEntry(mem', pd, k, l) <==> (k, l) in h.pages
      ensures (k, l) in h.pages ==> UserWritable(Pte(mem', pd, k, l))
    {
      assert PageEntry(mem, pd, k, l) <==> (k, l) in h.pages;
    }
  }

  lemma ShapeAfterPage(mem: Memory, mem': Memory, used: set<int>, pd: int, i: int, j: int, frame: int, h: Shape,
                       limit: int, free: int)
    requires Shaped(mem, pd, h) && HeapSlot(i) && 0 <= j < ENTRIES && Present(Word(mem, pd, i))
    requires !Present(Pte(mem, pd, i, j)) && Frame(Word(mem, pd, i)) in mem && j < |mem[Frame(Word(mem, pd, i))]|
    requires mem' == WithPage(mem, Frame(Word(mem, pd, i)), j, frame)
    requires Tree(mem, pd, used) && Pages1024(mem, limit) && InRange(used, limit)
    requires frame !in used && 0 < frame < limit
    ensures Shaped(mem', pd, h.(pages := h.pages + {(i, j)}, free := free))
  {
    hide Tree, Pages1024, WithPage, Shaped;
    TreeFacts(mem, pd, used, i);
    PageAdded(mem, pd, used, i, j, frame, limit);
    ShapeOneMore(mem, mem', pd, i, j, frame, h, free);
  }

  lemma ShapeOneMore(mem: Memory, mem': Memory, pd: int, i: int, j: int, frame: int, h: Shape, free: int)
    requires Shaped(mem, pd, h) && HeapSlot(i) && 0 <= j < ENTRIES && Pte(mem', pd, i, j) == Entry(frame, USER_PAGE)
    requires SameElsewhere(mem, mem', pd, i, j)
    requires forall k :: 0 <= k < ENTRIES ==> Word(mem', pd, k) == Word(mem, pd, k)
    ensures Shaped(mem', pd, h.(pages := h.pages + {(i, j)}, free := free))
  {
    hide Pte, Word, Frame;
    EntryPermits(frame);
    var pages := h.pages + {(i, j)};
    forall k, l
      ensures PageEntry(mem', pd, k, l) <==> (k, l) in pages
      ensures (k, l) in pages ==> UserWritable(Pte(mem', pd, k, l))
    {
      assert PageEntry(mem, pd, k, l) <==> (k, l) in h.pages;
    }
  }

  lemma EntryPermits(frame: int)
    ensures Present(Entry(frame, USER_PAGE)) && UserWritable(Entry(frame, USER_PAGE))
  {
    EntryDecodes(frame, USER_PAGE);
  }

  lemma FreeLess(used: set<int>, x: int, lo: int, hi: int)
    requires lo <= x < hi && x !in used
    ensures |FreeOf(used + {x}, lo, hi)| == |FreeOf(used, lo, hi)| - 1 && 0 < |FreeOf(used, lo, hi)|
  {
    assert x in FreeOf(used, lo, hi);
    assert FreeOf(used + {x}, lo, hi) == FreeOf(used, lo, hi) - {x};
  }

  // A fault changes the heap's shape as its address and the free pages say.
  lemma FaultShape(mem: Memory, mid: Memory, mem': Memory, used: set<int>, midUsed: set<int>, used': set<int>, pd: int,
                   address: int, dmmOn: bool, r: FaultResult, h: Shape, lo: int, hi: int)
    requires Shaped(mem, pd, h) && h.free == |FreeOf(used, lo, hi)| && 0 <= address < 0x1_0000_0000
    requires Tree(mem, pd, used) && Tree(mid, pd, midUsed) && Pages1024(mem, hi) && Pages1024(mid, hi)
    requires InRange(used, hi) && InRange(midUsed, hi) && InRange(used', hi) && forall q :: 0 <= q < lo ==> q in used
    requires r.Fault? <==> !(Accepted(address, dmmOn) && Permitted(mem, pd, address))
    requires r.Fault? ==> mem' == mem && used' == used
    requires !r.Fault? ==>
               && TableStepped(mem, mid, used, midUsed, pd, PdeIndex(address))
               && PageStepped(mid, mem', midUsed, used', pd, PdeIndex(address), PteIndex(address))
               && Effect(mem, mem', used, used', pd, address, r.Resolved?)
    requires r.OutOfMemory? ==> forall q :: lo <= q < hi ==> q in used'
    ensures var h' := AfterFault(h, address, dmmOn);
            Shaped(mem', pd, h') && h'.free == |FreeOf(used', lo, hi)|
  {
    hide Tree, Pages1024, WithTable, WithPage;
    var i, j := PdeIndex(address), PteIndex(address);
    AcceptedSlot(address, dmmOn);
    if Accepted(address, dmmOn) {
      ShapePermits(mem, pd, h, address, dmmOn);
      if r.OutOfMemory? {
        assert FreeOf(used', lo, hi) == {};
      }
      var h1 := if i in h.tables || h.free == 0 then h else h.(tables := h.tables + {i}, free := h.free - 1);
      TreeFacts(mem, pd, used, i);
      if mid != mem || midUsed != used {
        var table :| table !in used && 0 < table && midUsed == used + {table} && mid == WithTable(mem, pd, i, table);
        assert table in midUsed;
        FreeLess(used, table, lo, hi);
        ShapeAfterTable(mem, mid, used, pd, i, table, h, hi, h.free - 1);
      } else if i !in h.tables {
        assert mem' == mem && used' == used && !Present(Pte(mem', pd, i, j));
        assert r.OutOfMemory? && h.free == 0;
      }
      assert Shaped(mid, pd, h1) && h1.free == |FreeOf(midUsed, lo, hi)|;
      assert PageEntry(mid, pd, i, j) <==> (i, j) in h1.pages;
      if mem' != mid || used' != midUsed {
        var frame :| frame !in midUsed && 0 < frame && used' == midUsed + {frame} &&
                     mem' == WithPage(mid, Frame(Word(mid, pd, i)), j, frame);
        assert frame in used';
        FreeLess(midUsed, frame, lo, hi);
        ShapeAfterPage(mid, mem', midUsed, pd, i, j, frame, h1, hi, h1.free - 1);
      } else if i in h1.tables && (i, j) !in h1.pages {
        assert !Present(Pte(mem', pd, i, j)) && !Present(Pte(mem, pd, i, j));
        assert r.OutOfMemory? && h1.free == 0;
      }
    }
  }

  lemma ShapeLoaded(mem: Memory, pd: int, used: set<int>, h: Shape, value: int)
    requires Shaped(mem, pd, h) && Tree(mem, pd, used) && pd in mem && |mem[pd]| == ENTRIES
    ensures Shaped(mem[pd := mem[pd][PROCESS_STACK_PDE := value]], pd, h)
  {
    hide Tree;
    var mem' := mem[pd := mem[pd][PROCESS_STACK_PDE := value]];
    forall i | HeapSlot(i)
      ensures Word(mem', pd, i) == Word(mem, pd, i)
      ensures Present(Word(mem, pd, i)) ==> Frame(Word(mem, pd, i)) != pd
    {
      TreeNotSelf(mem, pd, used, i);
    }
    forall i, j | HeapSlot(i)
      ensures Pte(mem', pd, i, j) == Pte(mem, pd, i, j)
    {
    }
    assert forall i, j :: PageEntry(mem', pd, i, j) <==> PageEntry(mem, pd, i, j);
    assert forall i, j :: (i, j) in h.pages ==> PageEntry(mem, pd, i, j);
  }

  lemma TreeNotSelf(mem: Memory, pd: int, used: set<int>, i: int)
    requires Tree(mem, pd, used) && 0 <= i < ENTRIES
    ensures Present(Word(mem, pd, i)) ==> Frame(Word(mem, pd, i)) != pd
  {
  }

  // The heap has a shape, and as many pages are free as that says; none of the reserved ones is.
  ghost predicate HasShape(p: UserProcess, h: Shape)
    requires p.mm.pageMap.Valid()
    reads p, p.mm, p.mm.pageMap, p.mm.pageMap.words
  {
    && Shaped(p.mm.mem, p.pdbr, h) && h.free == |p.FreePages()|
    && forall q :: 0 <= q < 32 * p.mm.pageMap.firstWord ==> q in p.mm.Used()
  }

  // The stack's page table is in its slot, so that StackWalk tells where its addresses lead.
  ghost predicate StackIn(p: UserProcess)
    reads p, p.mm
  {
    Word(p.mm.mem, p.pdbr, 1022) == p.stackTable * 0x1000 + 7
  }

  // A fault elsewhere leaves the stack's slot as it is.
  lemma StackSlotStays(mem: Memory, mid: Memory, mem': Memory, used: set<int>, midUsed: set<int>, used': set<int>,
                       pd: int, i: int, j: int)
    requires TableStepped(mem, mid, used, midUsed, pd, i) && PageStepped(mid, mem', midUsed, used', pd, i, j)
    requires Tree(mem, pd, used) && Tree(mid, pd, midUsed) && 0 <= i < ENTRIES && i != PROCESS_STACK_PDE
    ensures Word(mem', pd, PROCESS_STACK_PDE) == Word(mem, pd, PROCESS_STACK_PDE)
  {
    hide Tree;
    TreeFacts(mem, pd, used, i);
    TreeFacts(mid, pd, midUsed, i);
    TreeNotSelf(mid, pd, midUsed, i);
  }

  // Any run of loads and page faults keeps a process living, and gives its heap the shape that the
  // addresses and the free pages say.
  method Grow(p: UserProcess, ghost s: Space, ghost others: set<int>, ghost h: Shape, events: seq<Event>)
    requires p.Valid() && p.base + p.noOfPagesForPTE <= HEAP_SLOT && |s.tables| == p.noOfPagesForPTE && p.pdbr == s.pd
    requires p.stackTable == s.stackTable && |s.stack| == STACK_PAGES
    requires Living(p.mm.mem, p.mm.Used(), p.base, p.overlap, s, others) && HasShape(p, h)
    requires forall e :: e in events ==> IsEvent(e)
    modifies p.mm, p.mm.pageMap.words
    ensures p.Valid() && Living(p.mm.mem, p.mm.Used(), p.base, p.overlap, s, others)
    ensures HasShape(p, AfterEvents(h, events))
    ensures Load in events || old(StackIn(p)) ==> StackIn(p)
  {
    hide Living, Tree, HasShape, AfterFault, Word;
    for n := 0 to |events|
      invariant p.Valid() && Living(p.mm.mem, p.mm.Used(), p.base, p.overlap, s, others)
      invariant HasShape(p, AfterEvents(h, events[..n]))
      invariant Load in events[..n] || old(StackIn(p)) ==> StackIn(p)
    {
      assert events[n] in events && events[..n + 1][..n] == events[..n];
      ghost var h1 := AfterEvents(h, events[..n]);
      match events[n] {
        case Load => OnLoad(p, s, others, h1);
        case PageFault(address, dmmOn) => OnFault(p, s, others, h1, address, dmmOn);
      }
    }
    assert events[..|events|] == events;
  }

  // Scheduling the process enters its stack in the directory.
  method OnLoad(p: UserProcess, ghost s: Space, ghost others: set<int>, ghost h: Shape)
    requires p.Valid() && p.base + p.noOfPagesForPTE <= HEAP_SLOT && |s.tables| == p.noOfPagesForPTE && p.pdbr == s.pd
    requires p.stackTable == s.stackTable && |s.stack| == STACK_PAGES
    requires Living(p.mm.mem, p.mm.Used(), p.base, p.overlap, s, others) && HasShape(p, h)
    modifies p.mm
    ensures p.Valid() && p.mm.Used() == old(p.mm.Used())
    ensures Living(p.mm.mem, p.mm.Used(), p.base, p.overlap, s, others) && HasShape(p, h)
    ensures StackIn(p)
  {
    hide Living, Tree, Pages1024, Shaped;
    LivingTree(p.mm.mem, p.mm.Used(), p.base, p.overlap, s, others);
    TreeFacts(p.mm.mem, p.pdbr, p.mm.Used(), 0);
    LoadKeepsLiving(p.mm.mem, p.mm.Used(), p.base, p.overlap, s, others, p.mm.Limit());
    ShapeLoaded(p.mm.mem, p.pdbr, p.mm.Used(), h, Entry(p.stackTable, USER_PAGE));
    p.mm.SetWord(p.pdbr, PROCESS_STACK_PDE, Entry(p.stackTable, USER_PAGE));
  }

  method OnFault(p: UserProcess, ghost s: Space, ghost others: set<int>, ghost h: Shape, address: int, dmmOn: bool)
    requires p.Valid() && p.base + p.noOfPagesForPTE <= HEAP_SLOT && |s.tables| == p.noOfPagesForPTE && p.pdbr == s.pd
    requires Living(p.mm.mem, p.mm.Used(), p.base, p.overlap, s, others) && HasShape(p, h)
    requires 0 <= address < 0x1_0000_0000
    modifies p.mm, p.mm.pageMap.words
    ensures p.Valid() && Living(p.mm.mem, p.mm.Used(), p.base, p.overlap, s, others)
    ensures HasShape(p, AfterFault(h, address, dmmOn))
    ensures Word(p.mm.mem, p.pdbr, PROCESS_STACK_PDE) == old(Word(p.mm.mem, p.pdbr, PROCESS_STACK_PDE))
  {
    hide Living, TableStepped, PageStepped, Pages1024, Tree, Effect, Permitted, Accepted, Shaped, AfterFault;
    ghost var mem, used := p.mm.mem, p.mm.Used();
    LivingTree(mem, used, p.base, p.overlap, s, others);
    var r: FaultResult;
    ghost var midMem: Memory, midUsed: set<int>;
    r, midMem, midUsed := p.mm.AllocatePage(p.pdbr, dmmOn, address);
    AcceptedSlot(address, dmmOn);
    if !r.Fault? {
      TableStepGrows(mem, midMem, used, midUsed, p.pdbr, PdeIndex(address));
      PageStepGrows(midMem, p.mm.mem, midUsed, p.mm.Used(), p.pdbr, PdeIndex(address), PteIndex(address));
      TableKeepsLiving(mem, midMem, used, midUsed, p.base, p.overlap, s, others, PdeIndex(address), p.mm.Limit());
      LivingTree(midMem, midUsed, p.base, p.overlap, s, others);
      PageKeepsLiving(midMem, p.mm.mem, midUsed, p.mm.Used(), p.base, p.overlap, s, others,
                      PdeIndex(address), PteIndex(address), p.mm.Limit());
      if PdeIndex(address) != PROCESS_STACK_PDE {
        StackSlotStays(mem, midMem, p.mm.mem, used, midUsed, p.mm.Used(), p.pdbr, PdeIndex(address), PteIndex(address));
      }
      FaultShape(mem, midMem, p.mm.mem, used, midUsed, p.mm.Used(), p.pdbr, address, dmmOn, r, h,
                 32 * p.mm.pageMap.firstWord, p.mm.Limit());
    } else {
      FaultShape(mem, mem, mem, used, used, used, p.pdbr, address, dmmOn, r, h,
                 32 * p.mm.pageMap.firstWord, p.mm.Limit());
    }
  }

  lemma LivingTree(mem: Memory, used: set<int>, base: int, overlap: int, s: Space, others: set<int>)
    requires Living(mem, used, base, overlap, s, others)
    ensures Tree(mem, s.pd, used)
  {
  }

  lemma TableStepGrows(mem: Memory, mem': Memory, used: set<int>, used': set<int>, pd: int, i: int)
    requires TableStepped(mem, mem', used, used', pd, i)
    ensures used <= used'
  {
  }

  lemma PageStepGrows(mem: Memory, mem': Memory, used: set<int>, used': set<int>, pd: int, i: int, j: int)
    requires PageStepped(mem, mem', used, used', pd, i, j)
    ensures used <= used'
  {
  }

  // The whole life of an address space: built, taken through any run of loads and page faults, its heap given
  // back, and then the rest. The pages in use are those from before exactly if the faults left no
  // gap in the heap; otherwise the pages behind a gap stay taken for good.
  method Live(p: UserProcess, kernelPd: int, events: seq<Event>) returns (built: bool)
    requires p.Valid() && p.base + p.noOfPagesForPTE <= HEAP_SLOT
    requires KernelIn(p.mm.mem, kernelPd, p.mm.Used()) && KernelFramesIn(p.mm.mem, kernelPd, p.mm.Used())
    requires forall q :: 0 <= q < 32 * p.mm.pageMap.firstWord ==> q in p.mm.Used()
    requires forall e :: e in events ==> IsEvent(e)
    modifies p, p.mm, p.mm.pageMap.words
    ensures p.Valid() && (built <==> p.Total() <= |old(p.FreePages())|)
    ensures built ==> old(p.mm.Used()) <= p.mm.Used()
    ensures built ==> (p.mm.Used() == old(p.mm.Used()) <==>
                         NoGaps(AfterEvents(Shape({}, {}, |old(p.FreePages())| - p.Total()), events)))
  {
    hide Built, Tree, HeapSound, Own, TableRun, KernelIn, KernelFramesIn, DirectoryIs, OsMapped, Took, Untouched;
    hide Elements, Contiguous, Shaped, FreeOf, NoGaps, AfterEvents;
    ghost var mem0, used0, free0 := p.mm.mem, p.mm.Used(), |p.FreePages()|;
    ghost var s: Space;
    built, s := p.AllocateAddressSpace(kernelPd);
    if built {
      KernelFramesStay(mem0, p.mm.mem, kernelPd, used0);
      NewLives(p.mm.mem, used0, p.mm.Used(), p.base, p.overlap, s, kernelPd);
      NoPageZero(s, used0, p.mm.Used());
      ghost var h := Shape({}, {}, free0 - p.Total());
      NewShape(p.mm.mem, p.base, s);
      TookFree(used0, p.mm.Used(), s.All(), 32 * p.mm.pageMap.firstWord, p.mm.Limit());
      Grow(p, s, used0, h, events);
      ghost var used := p.mm.Used();
      RunIsOwnIff(p.mm.mem, p.pdbr);
      ContiguousIff(p.mm.mem, p.pdbr, AfterEvents(h, events));
      DeAllocateHeap(p.mm, p.pdbr);
      p.DeAllocateAddressSpace(s);
      LeftOver(used0, Elements(s.All()), Own(p.mm.mem, p.pdbr), TableRun(p.mm.mem, p.pdbr, HEAP_SLOT), used,
            p.mm.Used());
    }
  }

  // A new heap is empty.
  lemma NewShape(mem: Memory, base: int, s: Space)
    requires DirectoryIs(mem, s.pd, base, s.tables) && 0 <= base && base + |s.tables| <= HEAP_SLOT
    requires PROCESS_SPACE_FOR_OS <= |s.tables|
    ensures forall free :: Shaped(mem, s.pd, Shape({}, {}, free))
  {
    hide DirectoryIs;
    forall i | HeapSlot(i)
      ensures !Present(Word(mem, s.pd, i))
    {
      if Present(Word(mem, s.pd, i)) {
        SlotHolds(mem, base, s, i);
      }
    }
  }

  // Taking pages leaves as many fewer free.
  lemma TookFree(used: set<int>, used': set<int>, s: seq<int>, lo: int, hi: int)
    requires Took(used, used', s) && InRange(used', hi) && forall q :: 0 <= q < lo ==> q in used
    ensures |FreeOf(used', lo, hi)| == |FreeOf(used, lo, hi)| - |s|
  {
    NoDupSize(s);
    forall x | x in s
      ensures lo <= x < hi
    {
      assert x in Elements(s);
    }
    assert FreeOf(used, lo, hi) == FreeOf(used', lo, hi) + Elements(s) && FreeOf(used', lo, hi) !! Elements(s);
  }

  lemma NoPageZero(s: Space, used0: set<int>, used: set<int>)
    requires Took(used0, used, s.All()) && 0 in used0
    ensures 0 !in s.stack
  {
  }

  lemma LeftOver(others: set<int>, all: set<int>, own: set<int>, run: set<int>, used: set<int>, used': set<int>)
    requires used == others + all + own && others !! all && own !! others + all && run <= own
    requires used' == used - run - all
    ensures others <= used' && (used' == others <==> run == own)
  {
  }
}
