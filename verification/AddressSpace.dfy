// Building and tearing down the page tables of a user process (process/UserProcess.cpp,
// process/SchedulableProcess.cpp).
module AddressSpaces {
  import opened Paging
  import opened Wrappers

  const PROCESS_SPACE_FOR_OS := 32
  const PROCESS_CG_STACK_PAGES := 8
  const STACK_PAGES := 9

  ghost function Elements(s: seq<int>): set<int> {
    set x | x in s
  }

  ghost predicate NoDup(s: seq<int>) {
    forall i, j :: 0 <= i < j < |s| ==> s[i] != s[j]
  }

  // The pages of s were free, are distinct, and are what is taken now beyond what was before.
  ghost predicate Took(used: set<int>, used': set<int>, s: seq<int>) {
    NoDup(s) && (forall x :: x in s ==> x !in used) && used' == used + Elements(s)
  }

  lemma TookNone(used: set<int>)
    ensures Took(used, used, [])
  {
  }

  lemma TookOne(used: set<int>, page: int)
    requires page !in used
    ensures Took(used, used + {page}, [page])
  {
  }

  lemma TookBoth(used: set<int>, used': set<int>, used'': set<int>, s: seq<int>, t: seq<int>)
    requires Took(used, used', s) && Took(used', used'', t)
    ensures Took(used, used'', s + t)
  {
    forall x | x in s
      ensures x in used'
    {
      assert x in Elements(s);
    }
    assert Elements(s + t) == Elements(s) + Elements(t);
    forall i, j | 0 <= i < j < |s + t|
      ensures (s + t)[i] != (s + t)[j]
    {
      if i < |s| <= j {
        assert s[i] in used' && t[j - |s|] in t;
      }
    }
  }

  lemma TookMore(used: set<int>, used': set<int>, s: seq<int>, page: int)
    requires Took(used, used', s) && page !in used'
    ensures Took(used, used' + {page}, s + [page])
  {
  }

  // The slot of the directory for the i-th page table: the operating system's tables first, then
  // those of the process from its base on.
  function PdeSlot(base: int, i: int): int {
    if i < PROCESS_SPACE_FOR_OS then i else i + base
  }

  // The page table and the slot in it for the k-th page of the process.
  function TableOf(overlap: int, k: int): int { (overlap + k) / ENTRIES + PROCESS_SPACE_FOR_OS }

  function SlotOf(overlap: int, k: int): int { (overlap + k) % ENTRIES }

  // Distinct pages of the process have distinct places.
  lemma PlacesDiffer(overlap: int, k: int, l: int)
    requires 0 <= overlap < ENTRIES && 0 <= k < l
    ensures TableOf(overlap, k) != TableOf(overlap, l) || SlotOf(overlap, k) != SlotOf(overlap, l)
  {
  }

  function StackFlags(i: int): int {
    if i > PROCESS_CG_STACK_PAGES - 1 then USER_PAGE else KERNEL_PAGE
  }

  predicate SlotTaken(base: int, n: int, slot: int) {
    (0 <= slot < PROCESS_SPACE_FOR_OS && slot < n) || PROCESS_SPACE_FOR_OS + base <= slot < n + base
  }

  // The page of the process whose entry is slot j of table t.
  function PageAt(overlap: int, t: int, j: int): int {
    (t - PROCESS_SPACE_FOR_OS) * ENTRIES + j - overlap
  }

  // The page tables are entered in the directory.
  ghost predicate TablesEntered(mem: Memory, pd: int, base: int, tables: seq<int>) {
    forall i :: 0 <= i < |tables| ==> Word(mem, pd, PdeSlot(base, i)) == Entry(tables[i], USER_PAGE)
  }

  // They are, and nothing else is.
  ghost predicate DirectoryIs(mem: Memory, pd: int, base: int, tables: seq<int>) {
    && TablesEntered(mem, pd, base, tables)
    && (forall slot :: 0 <= slot < ENTRIES && !SlotTaken(base, |tables|, slot) ==> Word(mem, pd, slot) == NOT_PRESENT)
  }

  // The pages are entered in the page tables of the process, and nothing else is.
  ghost predicate PagesEntered(mem: Memory, tables: seq<int>, overlap: int, pages: seq<int>) {
    && (forall k :: 0 <= k < |pages| ==>
          0 <= TableOf(overlap, k) < |tables|
              && Word(mem, tables[TableOf(overlap, k)], SlotOf(overlap, k)) == Entry(pages[k], USER_PAGE))
    && (forall t, j ::
          PROCESS_SPACE_FOR_OS <= t < |tables| && 0 <= j < ENTRIES && !(0 <= PageAt(overlap, t, j) < |pages|) ==>
          Word(mem, tables[t], j) == NOT_PRESENT)
  }

  // The stack's page table, filled from its last entry down; all else in it is absent.
  ghost predicate StackEntered(mem: Memory, table: int, stack: seq<int>) {
    && (forall i :: 0 <= i < |stack| ==> Word(mem, table, ENTRIES - 1 - i) == Entry(stack[i], StackFlags(i)))
    && (forall j :: 0 <= j < ENTRIES - |stack| ==> Word(mem, table, j) == NOT_PRESENT)
  }

  // What the entries of a table say, bit by bit: the page, and whether it is present, writable and
  // the user's.
  lemma EntryBits(page: int, flags: int)
    requires 0 <= flags < 8
    ensures Entry(page, flags) / 0x1000 == page && Entry(page, flags) % 8 == flags
    ensures Entry(page, flags) % 2 == flags % 2
  {
    FrameIs(page, flags);
    EighthIs(512 * page, flags);
    HalfIs(2048 * page, flags);
  }

  lemma EighthIs(n: int, r: int)
    requires 0 <= r < 8
    ensures (8 * n + r) % 8 == r
  {
  }

  lemma HalfIs(n: int, r: int)
    ensures (2 * n + r) % 2 == r % 2
  {
  }

  // The eight upper pages of a stack are the kernel's, which calls from the process run on; the
  // ninth is the user's. Nothing lies below it.
  lemma StackWords(mem: Memory, table: int, stack: seq<int>)
    requires StackEntered(mem, table, stack) && |stack| == STACK_PAGES
    ensures forall j :: 1016 <= j < 1024 ==>
              Word(mem, table, j) % 8 == 3 && Word(mem, table, j) / 0x1000 == stack[1023 - j]
    ensures Word(mem, table, 1015) % 8 == 7 && Word(mem, table, 1015) / 0x1000 == stack[8]
    ensures forall j :: 0 <= j < 1015 ==> Word(mem, table, j) % 2 == 0
  {
    hide Word;
    forall j | 1015 <= j < 1024
      ensures Word(mem, table, j) == Entry(stack[1023 - j], if j == 1015 then 7 else 3)
    {
      assert Word(mem, table, ENTRIES - 1 - (1023 - j)) == Entry(stack[1023 - j], StackFlags(1023 - j));
    }
    forall i | 0 <= i < STACK_PAGES
      ensures Entry(stack[i], 3) % 8 == 3 && Entry(stack[i], 3) / 0x1000 == stack[i]
      ensures Entry(stack[i], 7) % 8 == 7 && Entry(stack[i], 7) / 0x1000 == stack[i]
    {
      EntryBits(stack[i], 3);
      EntryBits(stack[i], 7);
    }
    hide Entry;
  }

  // Everything a process owns: directory, page tables, the stack's page table, pages and stack.
  datatype Space = Space(pd: int, tables: seq<int>, stackTable: int, pages: seq<int>, stack: seq<int>) {
    ghost function All(): seq<int> {
      [pd] + tables + [stackTable] + pages + stack
    }
  }

  ghost predicate Built(mem: Memory, base: int, overlap: int, s: Space) {
    && NoDup(s.All()) && TablesEntered(mem, s.pd, base, s.tables)
    && PagesEntered(mem, s.tables, overlap, s.pages) && StackEntered(mem, s.stackTable, s.stack)
  }

  // The pages in keep hold what they held.
  ghost predicate Untouched(mem: Memory, mem': Memory, keep: set<int>) {
    forall q, j :: q in keep ==> Word(mem', q, j) == Word(mem, q, j)
  }

  // Every word of these pages is an absent entry.
  ghost predicate AllBlank(mem: Memory, tables: seq<int>) {
    forall t, j :: t in tables && 0 <= j < ENTRIES ==> Word(mem, t, j) == NOT_PRESENT
  }

  lemma TableStep(mem: Memory, pd: int, base: int, tables: seq<int>, page: int, used: set<int>)
    requires DirectoryIs(mem, pd, base, tables) && AllBlank(mem, tables) && 0 <= base
    requires pd in mem && 0 <= PdeSlot(base, |tables|) < |mem[pd]|
    requires pd in used && page !in used && (forall t :: t in tables ==> t in used - {pd})
    ensures var mem' := mem[page := Blank(NOT_PRESENT)];
            var mem'' := mem'[pd := mem'[pd][PdeSlot(base, |tables|) := Entry(page, USER_PAGE)]];
            && DirectoryIs(mem'', pd, base, tables + [page]) && AllBlank(mem'', tables + [page])
            && Untouched(mem, mem'', used - {pd})
  {
    var mem' := mem[page := Blank(NOT_PRESENT)];
    var mem'' := mem'[pd := mem'[pd][PdeSlot(base, |tables|) := Entry(page, USER_PAGE)]];
    forall slot | 0 <= slot < ENTRIES
      ensures Word(mem'', pd, slot) == if slot == PdeSlot(base, |tables|) then Entry(page, USER_PAGE)
              else Word(mem, pd, slot)
    {
    }
    forall t, j | t in tables + [page] && 0 <= j < ENTRIES
      ensures Word(mem'', t, j) == NOT_PRESENT
    {
      if t == page {
        assert Word(mem', page, j) == Blank(NOT_PRESENT)[j];
      } else {
        assert t in tables && t in used && Word(mem, t, j) == NOT_PRESENT;
      }
    }
  }

  class UserProcess {
    const mm: MemManager
    const base: nat
    const overlap: nat
    const noOfPages: nat
    const noOfPagesForPTE: nat
    var pdbr: int
    var stackTable: int
    var startPDEForDLL: int

    ghost predicate Valid()
      reads this, mm, mm.pageMap.words
    {
      && mm.Valid() && InRange(mm.Used(), mm.Limit()) && 0 < noOfPages && overlap < ENTRIES
      && noOfPagesForPTE == (noOfPages + overlap - 1) / ENTRIES + 1 + PROCESS_SPACE_FOR_OS
      && base + noOfPagesForPTE <= ENTRIES
    }

    // The sizes of Load: where the image starts, and how many page tables cover its pages.
    constructor (mm: MemManager, processBase: nat, noOfPages: nat)
      requires mm.Valid() && InRange(mm.Used(), mm.Limit()) && 0 < noOfPages
      requires processBase / PAGE_SIZE / ENTRIES + (noOfPages + processBase / PAGE_SIZE % ENTRIES - 1) / ENTRIES + 1 +
               PROCESS_SPACE_FOR_OS <= ENTRIES
      ensures Valid() && this.mm == mm && this.noOfPages == noOfPages
      ensures base == processBase / PAGE_SIZE / ENTRIES && overlap == processBase / PAGE_SIZE % ENTRIES
    {
      this.mm, this.noOfPages := mm, noOfPages;
      base, overlap := processBase / PAGE_SIZE / ENTRIES, processBase / PAGE_SIZE % ENTRIES;
      noOfPagesForPTE := (noOfPages + processBase / PAGE_SIZE % ENTRIES - 1) / ENTRIES + 1 + PROCESS_SPACE_FOR_OS;
      pdbr, stackTable, startPDEForDLL := NULL, NULL, 0;
    }

    // A fresh page of absent entries: AllocatePDE and AllocatePTEForStack.
    method AllocateTable() returns (r: Option<int>)
      requires Valid()
      modifies mm, mm.pageMap.words
      ensures Valid()
      ensures r.None? ==> mm.NoneFree() && mm.mem == old(mm.mem) && mm.Used() == old(mm.Used())
      ensures r.Some? ==> 0 < r.value < mm.Limit() && Took(old(mm.Used()), mm.Used(), [r.value])
      ensures r.Some? ==> mm.mem == old(mm.mem)[r.value := Blank(NOT_PRESENT)]
    {
      r := mm.AllocatePhysicalPage();
      if r.Some? {
        TookOne(old(mm.Used()), r.value);
        mm.FillPage(r.value, NOT_PRESENT);
      }
    }

    // Page tables for the operating system and the process, entered in the directory.
    method AllocatePTE(pd: int) returns (ok: bool, ghost tables: seq<int>)
      requires Valid() && pd in mm.Used() && AllBlank(mm.mem, [pd])
      modifies this`startPDEForDLL, mm, mm.pageMap.words
      ensures Valid() && Took(old(mm.Used()), mm.Used(), tables)
      ensures ok <==> |tables| == noOfPagesForPTE
      ensures !ok ==> |tables| < noOfPagesForPTE && mm.NoneFree()
      ensures DirectoryIs(mm.mem, pd, base, tables) && AllBlank(mm.mem, tables)
      ensures Untouched(old(mm.mem), mm.mem, old(mm.Used()) - {pd})
      ensures ok ==> startPDEForDLL == base + noOfPagesForPTE
    {
      hide Took, Untouched, DirectoryIs, TablesEntered, AllBlank, NoDup, Elements;
      var pdeIndex := 0;
      tables := [];
      StartTables(mm.mem, mm.Used(), pd, base);
      for i := 0 to noOfPagesForPTE
        invariant Valid() && |tables| == i && Took(old(mm.Used()), mm.Used(), tables)
        invariant DirectoryIs(mm.mem, pd, base, tables) && AllBlank(mm.mem, tables)
        invariant Untouched(old(mm.mem), mm.mem, old(mm.Used()) - {pd})
        invariant i > PROCESS_SPACE_FOR_OS ==> pdeIndex == i - 1 + base
      {
        ghost var mem, used := mm.mem, mm.Used();
        var page := AllocateTable();
        if page.None? {
          return false, tables;
        }
        TableFacts(old(mm.Used()), used, mm.Used(), tables, page.value, pd);
        TableStep(mem, pd, base, tables, page.value, used);
        if i < PROCESS_SPACE_FOR_OS {
          mm.SetWord(pd, i, Entry(page.value, USER_PAGE));
        } else {
          pdeIndex := i + base;
          mm.SetWord(pd, pdeIndex, Entry(page.value, USER_PAGE));
        }
        UntouchedMore(old(mm.mem), mem, mm.mem, old(mm.Used()) - {pd}, used - {pd});
        tables := tables + [page.value];
      }
      startPDEForDLL := pdeIndex + 1;
      return true, tables;
    }

    // One kernel table copied for the process: the same frames, readable but not writable.
    method CopyKernelTable(from: int, to: int)
      requires Valid() && 0 <= from < mm.Limit() && 0 <= to < mm.Limit()
      modifies mm
      ensures Valid() && mm.mem == old(mm.mem)[to := UserView(old(mm.mem), from)]
    {
      var words, kernel := mm.mem[to], mm.mem[from];
      for j := 0 to ENTRIES
        invariant |words| == ENTRIES
        invariant forall k :: 0 <= k < j ==> words[k] == Entry(Frame(kernel[k]), USER_READ_ONLY)
      {
        words := words[j := Entry(Frame(kernel[j]), USER_READ_ONLY)];
      }
      assert words == UserView(mm.mem, from);
      mm.mem := mm.mem[to := words];
    }

    method InitializeProcessSpaceForOS(pd: int, kernelPd: int, ghost tables: seq<int>)
      requires Valid() && DirectoryIs(mm.mem, pd, base, tables) && PROCESS_SPACE_FOR_OS <= |tables|
      requires NoDup(tables) && Elements(tables) <= mm.Used() && KernelApart(mm.mem, kernelPd, tables, pd, mm.Used())
      modifies mm
      ensures Valid() && OsMapped(mm.mem, kernelPd, tables, PROCESS_SPACE_FOR_OS)
      ensures Untouched(old(mm.mem), mm.mem, mm.Used() - Elements(tables))
      ensures Spared(old(mm.mem), mm.mem, tables, PROCESS_SPACE_FOR_OS)
    {
      hide Untouched, Elements, OsMapped, Spared, KernelApart, NoDup, DirectoryIs;
      ghost var mem0 := mm.mem;
      StartOs(mm.mem, kernelPd, tables, mm.Used() - Elements(tables));
      for i := 0 to PROCESS_SPACE_FOR_OS
        invariant Valid() && OsMapped(mm.mem, kernelPd, tables, i)
        invariant Untouched(mem0, mm.mem, mm.Used() - Elements(tables))
        invariant Spared(mem0, mm.mem, tables, i)
        invariant DirectoryIs(mm.mem, pd, base, tables) && KernelApart(mm.mem, kernelPd, tables, pd, mm.Used())
      {
        OsFacts(mm.mem, kernelPd, tables, pd, base, mm.Used(), i);
        var from, to := Frame(Word(mm.mem, kernelPd, i)), Frame(Word(mm.mem, pd, i));
        OsStep(mem0, mm.mem, kernelPd, tables, pd, base, mm.Used(), i);
        CopyKernelTable(from, to);
      }
    }

    // The pages of the process, entered in its tables, and then those of its stack.
    method InitializeProcessSpaceForProcess(pd: int, ghost tables: seq<int>) returns (ok: bool, ghost pages: seq<int>)
      requires Valid() && DirectoryIs(mm.mem, pd, base, tables) && |tables| == noOfPagesForPTE
      requires NoDup(tables) && Elements(tables) <= mm.Used() && pd in mm.Used() - Elements(tables)
      requires AllBlank(mm.mem, tables[PROCESS_SPACE_FOR_OS..])
      modifies mm, mm.pageMap.words
      ensures Valid() && Took(old(mm.Used()), mm.Used(), pages)
      ensures ok <==> |pages| == noOfPages
      ensures !ok ==> |pages| < noOfPages && mm.NoneFree()
      ensures PagesEntered(mm.mem, tables, overlap, pages)
      ensures Untouched(old(mm.mem), mm.mem, old(mm.Used()) - Elements(tables[PROCESS_SPACE_FOR_OS..]))
    {
      hide Took, Untouched, DirectoryIs, TablesEntered, NoDup, Elements, PagesEntered;
      pages := [];
      ghost var used0, mem0 := mm.Used(), mm.mem;
      ghost var keep := used0 - Elements(tables[PROCESS_SPACE_FOR_OS..]);
      StartPages(mm.mem, tables, overlap, used0, keep);
      for i := 0 to noOfPages
        invariant Valid() && |pages| == i && Took(used0, mm.Used(), pages)
        invariant DirectoryIs(mm.mem, pd, base, tables) && PagesEntered(mm.mem, tables, overlap, pages)
        invariant Untouched(mem0, mm.mem, keep)
      {
        ghost var used := mm.Used();
        var page := mm.AllocatePhysicalPage();
        if page.None? {
          return false, pages;
        }
        TookMore(used0, used, pages, page.value);
        var pdeIndex := (overlap + i) / ENTRIES + base + PROCESS_SPACE_FOR_OS;
        var pteIndex := (overlap + i) % ENTRIES;
        var table := Frame(Word(mm.mem, pd, pdeIndex));
        TableFound(mm.mem, pd, base, tables, overlap, i, used0);
        PagesStep(mem0, mm.mem, pd, base, tables, overlap, pages, page.value, used0);
        mm.SetWord(table, pteIndex, Entry(page.value, USER_PAGE));
        pages := pages + [page.value];
      }
      return true, pages;
    }

    // The pages a stack starts with: the last ones of its table, downward.
    method AllocateStackSpace(table: int) returns (ok: bool, ghost stack: seq<int>)
      requires Valid() && table in mm.Used() && AllBlank(mm.mem, [table])
      modifies mm, mm.pageMap.words
      ensures Valid() && Took(old(mm.Used()), mm.Used(), stack)
      ensures ok <==> |stack| == STACK_PAGES
      ensures !ok ==> |stack| < STACK_PAGES && mm.NoneFree()
      ensures StackEntered(mm.mem, table, stack)
      ensures ok ==>
                && (forall j :: 1016 <= j < 1024 ==>
                      Word(mm.mem, table, j) % 8 == 3 && Word(mm.mem, table, j) / 0x1000 == stack[1023 - j])
                && Word(mm.mem, table, 1015) % 8 == 7 && Word(mm.mem, table, 1015) / 0x1000 == stack[8]
                && (forall j :: 0 <= j < 1015 ==> Word(mm.mem, table, j) % 2 == 0)
      ensures Untouched(old(mm.mem), mm.mem, old(mm.Used()) - {table})
    {
      hide Took, Untouched, StackEntered;
      stack := [];
      ghost var used0, mem0 := mm.Used(), mm.mem;
      StartStack(mm.mem, table, used0);
      for i := 0 to STACK_PAGES
        invariant Valid() && |stack| == i && Took(used0, mm.Used(), stack)
        invariant StackEntered(mm.mem, table, stack) && Untouched(mem0, mm.mem, used0 - {table})
      {
        ghost var used := mm.Used();
        var page := mm.AllocatePhysicalPage();
        if page.None? {
          return false, stack;
        }
        TookMore(used0, used, stack, page.value);
        var flags := if i > PROCESS_CG_STACK_PAGES - 1 then USER_PAGE else KERNEL_PAGE;
        StackStep(mem0, mm.mem, table, stack, page.value, used0);
        mm.SetWord(table, ENTRIES - 1 - i, Entry(page.value, flags));
        stack := stack + [page.value];
      }
      StackWords(mm.mem, table, stack);
      return true, stack;
    }

    // How many pages a process starts with.
    function Total(): int {
      1 + noOfPagesForPTE + 1 + noOfPages + STACK_PAGES
    }

    ghost function FreePages(): set<int>
      requires mm.pageMap.Valid()
      reads mm, mm.pageMap.words
    {
      FreeOf(mm.Used(), 32 * mm.pageMap.firstWord, mm.Limit())
    }

    // Builds the address space. It fails exactly if there are too few free pages, and then has
    // taken every one of them.
    method AllocateAddressSpace(kernelPd: int) returns (ok: bool, ghost s: Space)
      requires Valid() && KernelIn(mm.mem, kernelPd, mm.Used())
      requires forall p :: 0 <= p < 32 * mm.pageMap.firstWord ==> p in mm.Used()
      modifies this, mm, mm.pageMap.words
      ensures Valid() && Untouched(old(mm.mem), mm.mem, old(mm.Used()))
      ensures ok <==> Total() <= |old(FreePages())|
      ensures !ok ==> mm.NoneFree()
      ensures ok ==> pdbr == s.pd && stackTable == s.stackTable && startPDEForDLL == base + noOfPagesForPTE
      ensures ok ==> Sized(s, noOfPagesForPTE, noOfPages) && Took(old(mm.Used()), mm.Used(), s.All())
      ensures ok ==> Built(mm.mem, base, overlap, s) && DirectoryIs(mm.mem, s.pd, base, s.tables)
      ensures ok ==> OsMapped(mm.mem, kernelPd, s.tables, PROCESS_SPACE_FOR_OS)
      ensures ok ==>
                && (forall j :: 1016 <= j < 1024 ==>
                      Word(mm.mem, stackTable, j) % 8 == 3 && Word(mm.mem, stackTable, j) / 0x1000 == s.stack[1023 - j])
                && Word(mm.mem, stackTable, 1015) % 8 == 7 && Word(mm.mem, stackTable, 1015) / 0x1000 == s.stack[8]
                && (forall j :: 0 <= j < 1015 ==> Word(mm.mem, stackTable, j) % 2 == 0)
      ensures ok ==>
                && (forall i, j :: 0 <= i < 32 && i < |s.tables| && 0 <= j < 1024 ==>
                      Word(mm.mem, s.tables[i], j) % 8 == 5)
                && (forall k :: 0 <= k < |s.pages| ==>
                      Reaches(mm.mem, pdbr, 0x40_0000 * (32 + base) + 0x1000 * (overlap + k), s.pages[k]))
    {
      hide Took, Untouched, DirectoryIs, TablesEntered, AllBlank, NoDup, Elements, PagesEntered, StackEntered, OsMapped;
      hide KernelApart, KernelIn, Spared, FreeOf, InRange, Built, Blank, Reaches;
      ghost var used0, mem0, lo, hi := mm.Used(), mm.mem, 32 * mm.pageMap.firstWord, mm.Limit();
      s := Space(NULL, [], NULL, [], []);
      TookNone(used0);
      UntouchedSelf(mem0, used0);
      var directory := AllocateTable();
      if directory.None? {
        TookCounts(used0, mm.Used(), [], lo, hi);
        return false, s;
      }
      var pd := directory.value;
      ghost var used1, mem1 := mm.Used(), mm.mem;
      NewIn(used0, used1, pd);
      BlankTable(mem0, pd);
      var entered: bool;
      ghost var tables: seq<int>;
      entered, tables := AllocatePTE(pd);
      ghost var used2, mem2 := mm.Used(), mm.mem;
      AfterTables(mem0, mem1, mem2, used0, used1, used2, pd, tables);
      if !entered {
        TookCounts(used0, used2, [pd] + tables, lo, hi);
        return false, s;
      }
      var stackPage := AllocateTable();
      if stackPage.None? {
        TookCounts(used0, used2, [pd] + tables, lo, hi);
        return false, s;
      }
      pdbr, stackTable := pd, stackPage.value;
      ghost var used3, mem3 := mm.Used(), mm.mem;
      AfterStackTable(mem0, mem2, mem3, used0, used2, used3, kernelPd, pd, base, tables, stackTable);
      InitializeProcessSpaceForOS(pd, kernelPd, tables);
      ghost var mem4 := mm.mem;
      AfterOs(mem0, mem3, mem4, used0, used3, kernelPd, pd, base, tables, stackTable);
      ghost var pages: seq<int>;
      entered, pages := InitializeProcessSpaceForProcess(pd, tables);
      ghost var used5, mem5 := mm.Used(), mm.mem;
      AfterPages(mem0, mem4, mem5, used0, used3, used5, kernelPd, pd, base, tables, stackTable, pages);
      if !entered {
        TookCounts(used0, used5, [pd] + tables + [stackTable] + pages, lo, hi);
        return false, s;
      }
      ghost var stack: seq<int>;
      entered, stack := AllocateStackSpace(stackTable);
      s := Space(pd, tables, stackTable, pages, stack);
      AfterStack(mem0, mem5, mm.mem, used0, used5, mm.Used(), kernelPd, base, overlap, s);
      TookCounts(used0, mm.Used(), s.All(), lo, hi);
      if entered {
        SpaceWords(mm.mem, kernelPd, base, overlap, s);
      }
      return entered, s;
    }

    // Gives back a page that is in use; no page is given back twice.
    method Release(page: int)
      requires Valid() && page in mm.Used()
      modifies mm.pageMap.words
      ensures Valid() && mm.Used() == old(mm.Used()) - {page}
    {
      mm.pageMap.DeAllocate(page);
    }

    method DeAllocateProcessSpace(ghost s: Space)
      requires Valid() && Sized(s, noOfPagesForPTE, noOfPages) && pdbr == s.pd && stackTable == s.stackTable
      requires Built(mm.mem, base, overlap, s) && Elements(s.All()) <= mm.Used() && 0 !in s.stack
      modifies mm.pageMap.words
      ensures Valid() && mm.Used() == old(mm.Used()) - Elements(s.pages) - Elements(s.stack)
    {
      hide Built, Elements, NoDup, StackEntered;
      PagesGone(s, mm.Used(), mm.mem, base, overlap);
      for i := 0 to noOfPages
        invariant Valid() && mm.Used() == old(mm.Used()) - Elements(s.pages[..i])
      {
        var pdeIndex := (overlap + i) / ENTRIES + base + PROCESS_SPACE_FOR_OS;
        var pteIndex := (overlap + i) % ENTRIES;
        var table := Frame(Word(mm.mem, pdbr, pdeIndex));
        PageFound(mm.mem, base, overlap, s, i, old(mm.Used()));
        Release(Frame(Word(mm.mem, table, pteIndex)));
        PrefixGrows(s.pages, i);
      }
      assert s.pages[..noOfPages] == s.pages;
      DeAllocateStackSpace(s);
    }

    // Gives back every page the stack's table names.
    method DeAllocateStackSpace(ghost s: Space)
      requires Valid() && stackTable == s.stackTable && |s.stack| == STACK_PAGES
      requires StackEntered(mm.mem, stackTable, s.stack) && NoDup(s.stack) && Elements(s.stack) <= mm.Used()
      requires 0 !in s.stack
      modifies mm.pageMap.words
      ensures Valid() && mm.Used() == old(mm.Used()) - Elements(s.stack)
    {
      hide StackEntered, Elements, NoDup;
      ghost var n := STACK_PAGES;
      EmptySuffix(s.stack);
      for i := 0 to ENTRIES
        invariant Valid() && n == (if i <= ENTRIES - STACK_PAGES then STACK_PAGES else ENTRIES - i)
        invariant mm.Used() == old(mm.Used()) - Elements(s.stack[n..])
      {
        var entry := Word(mm.mem, stackTable, i);
        StackFound(mm.mem, stackTable, s.stack, i, old(mm.Used()));
        if Present(entry) && Frame(entry) != 0 {
          Release(Frame(entry));
          SuffixGrows(s.stack, n - 1);
          n := n - 1;
        }
      }
      assert s.stack[0..] == s.stack;
    }

    method DeAllocatePTE(ghost s: Space)
      requires Valid() && |s.tables| == noOfPagesForPTE && pdbr == s.pd && stackTable == s.stackTable
      requires TablesEntered(mm.mem, pdbr, base, s.tables) && NoDup(s.tables)
      requires Elements(s.tables) <= mm.Used() && stackTable in mm.Used() - Elements(s.tables)
      modifies mm.pageMap.words
      ensures Valid() && mm.Used() == old(mm.Used()) - Elements(s.tables) - {stackTable}
    {
      hide TablesEntered, Elements, NoDup;
      EmptyPrefix(s.tables);
      for i := 0 to noOfPagesForPTE
        invariant Valid() && mm.Used() == old(mm.Used()) - Elements(s.tables[..i])
      {
        var pdeIndex := if i < PROCESS_SPACE_FOR_OS then i else i + base;
        TableEntryFound(mm.mem, pdbr, base, s.tables, i, old(mm.Used()));
        Release(Frame(Word(mm.mem, pdbr, pdeIndex)));
        PrefixGrows(s.tables, i);
      }
      assert s.tables[..noOfPagesForPTE] == s.tables;
      Release(stackTable);
    }

    // Gives back exactly the pages the address space was built from.
    method DeAllocateAddressSpace(ghost s: Space)
      requires Valid() && Sized(s, noOfPagesForPTE, noOfPages) && pdbr == s.pd && stackTable == s.stackTable
      requires Built(mm.mem, base, overlap, s) && Elements(s.All()) <= mm.Used() && 0 !in s.stack
      modifies mm.pageMap.words
      ensures Valid() && mm.Used() == old(mm.Used()) - Elements(s.All())
    {
      PartsApart(s);
      DeAllocateProcessSpace(s);
      DeAllocatePTE(s);
      Release(pdbr);
    }
  }

  lemma PartsApart(s: Space)
    requires NoDup(s.All())
    ensures NoDup(s.pages) && NoDup(s.stack) && NoDup(s.tables)
    ensures Elements(s.pages) !! Elements(s.stack) !! Elements(s.tables) !! {s.stackTable} !! {s.pd}
    ensures Elements(s.All()) == Elements(s.pages) + Elements(s.stack) + Elements(s.tables) + {s.stackTable} + {s.pd}
  {
    var all, t, p := s.All(), |s.tables|, |s.pages|;
    assert all[0] == s.pd && all[t + 1] == s.stackTable;
    assert forall i :: 0 <= i < t ==> all[i + 1] == s.tables[i];
    assert forall i :: 0 <= i < p ==> all[i + (t + 2)] == s.pages[i];
    assert forall i :: 0 <= i < |s.stack| ==> all[i + (t + 2 + p)] == s.stack[i];
  }

  // The tables lead to the i-th page of the process, which has not been given back yet.
  lemma PageFound(mem: Memory, base: int, overlap: int, s: Space, i: int, used: set<int>)
    requires Built(mem, base, overlap, s) && Elements(s.All()) <= used && 0 <= i < |s.pages|
    requires 0 <= overlap && 0 <= i
    ensures var table := Frame(Word(mem, s.pd, TableOf(overlap, i) + base));
            var page := Frame(Word(mem, table, SlotOf(overlap, i)));
            page == s.pages[i] && page in used - Elements(s.pages[..i])
  {
    PartsApart(s);
    var t := TableOf(overlap, i);
    assert 0 <= t < |s.tables|;
    assert Word(mem, s.pd, PdeSlot(base, t)) == Entry(s.tables[t], USER_PAGE);
    assert s.pages[i] in Elements(s.pages);
  }

  lemma PagesGone(s: Space, used: set<int>, mem: Memory, base: int, overlap: int)
    requires Built(mem, base, overlap, s) && Elements(s.All()) <= used
    ensures Elements(s.stack) <= used - Elements(s.pages) && NoDup(s.stack) && StackEntered(mem, s.stackTable, s.stack)
    ensures Elements(s.pages[..0]) == {}
  {
    PartsApart(s);
  }

  lemma StackEntryAt(mem: Memory, table: int, stack: seq<int>, k: int)
    requires StackEntered(mem, table, stack) && 0 <= k < |stack| == STACK_PAGES
    ensures var entry := Word(mem, table, ENTRIES - 1 - k);
            Present(entry) && Frame(entry) == stack[k]
  {
    assert Word(mem, table, ENTRIES - 1 - k) == Entry(stack[k], StackFlags(k));
  }

  // Entry i of the stack's table is absent or names the next page of the stack from its end.
  lemma StackFound(mem: Memory, table: int, stack: seq<int>, i: int, used: set<int>)
    requires StackEntered(mem, table, stack) && |stack| == STACK_PAGES && 0 <= i < ENTRIES
    requires NoDup(stack) && Elements(stack) <= used && 0 !in stack
    ensures i < ENTRIES - STACK_PAGES ==> !Present(Word(mem, table, i))
    ensures i >= ENTRIES - STACK_PAGES ==>
              var k := ENTRIES - 1 - i;
              && Present(Word(mem, table, i)) && Frame(Word(mem, table, i)) == stack[k] && stack[k] != 0
              && stack[k] in used - Elements(stack[k + 1..])
  {
    if i >= ENTRIES - STACK_PAGES {
      var k := ENTRIES - 1 - i;
      StackEntryAt(mem, table, stack, k);
      assert stack[k] in Elements(stack) && stack[k] in stack;
      assert stack[k] !in Elements(stack[k + 1..]);
    }
  }

  lemma TableEntryFound(mem: Memory, pd: int, base: int, tables: seq<int>, i: int, used: set<int>)
    requires TablesEntered(mem, pd, base, tables) && NoDup(tables) && Elements(tables) <= used && 0 <= i < |tables|
    ensures Frame(Word(mem, pd, PdeSlot(base, i))) == tables[i] && tables[i] in used - Elements(tables[..i])
  {
  }

  lemma EmptyPrefix(s: seq<int>)
    ensures Elements(s[..0]) == {}
  {
  }

  lemma EmptySuffix(s: seq<int>)
    ensures Elements(s[|s|..]) == {}
  {
  }

  lemma PrefixGrows(s: seq<int>, i: int)
    requires 0 <= i < |s|
    ensures Elements(s[..i + 1]) == Elements(s[..i]) + {s[i]}
  {
  }

  lemma SuffixGrows(s: seq<int>, i: int)
    requires 0 <= i < |s|
    ensures Elements(s[i..]) == Elements(s[i + 1..]) + {s[i]}
  {
  }

  // The kernel's directory and tables are pages in use.
  ghost predicate KernelIn(mem: Memory, kernelPd: int, used: set<int>) {
    kernelPd in used && forall i :: 0 <= i < PROCESS_SPACE_FOR_OS ==> Frame(Word(mem, kernelPd, i)) in used
  }

  lemma UntouchedSelf(mem: Memory, keep: set<int>)
    ensures Untouched(mem, mem, keep)
  {
  }

  lemma NewIn(used: set<int>, used': set<int>, page: int)
    requires Took(used, used', [page])
    ensures page in used' && page !in used && used <= used'
  {
  }

  // The state in which the tables are filled: the directory, the page tables and the stack's
  // table are new, and everything older is as it was.
  ghost predicate Skeleton(mem0: Memory, mem: Memory, used0: set<int>, used: set<int>, kernelPd: int, pd: int,
          base: int, tables: seq<int>, stackTable: int) {
    && Untouched(mem0, mem, used0) && Took(used0, used, [pd] + tables + [stackTable])
    && DirectoryIs(mem, pd, base, tables) && AllBlank(mem, [stackTable])
    && PROCESS_SPACE_FOR_OS <= |tables| && AllBlank(mem, tables[PROCESS_SPACE_FOR_OS..])
    && KernelApart(mem, kernelPd, tables, pd, used) && NoDup(tables) && Elements(tables) <= used
    && pd in used - Elements(tables) && stackTable in used - Elements(tables) - {pd}
    && used0 !! Elements(tables) + {pd, stackTable} && used0 <= used
  }

  lemma AfterTables(mem0: Memory, mem1: Memory, mem2: Memory, used0: set<int>, used1: set<int>, used2: set<int>,
          pd: int, tables: seq<int>)
    requires mem1 == mem0[pd := Blank(NOT_PRESENT)] && Took(used0, used1, [pd]) && Took(used1, used2, tables)
    requires Untouched(mem1, mem2, used1 - {pd})
    ensures Took(used0, used2, [pd] + tables) && Untouched(mem0, mem2, used0) && used0 <= used2
  {
    TookBoth(used0, used1, used2, [pd], tables);
    assert pd in [pd];
  }

  lemma AfterStackTable(mem0: Memory, mem2: Memory, mem3: Memory, used0: set<int>, used2: set<int>,
          used3: set<int>, kernelPd: int, pd: int, base: int, tables: seq<int>, stackTable: int)
    requires Took(used0, used2, [pd] + tables) && Took(used2, used3, [stackTable])
    requires mem3 == mem2[stackTable := Blank(NOT_PRESENT)] && Untouched(mem0, mem2, used0)
    requires DirectoryIs(mem2, pd, base, tables) && KernelIn(mem0, kernelPd, used0)
    requires PROCESS_SPACE_FOR_OS <= |tables| && AllBlank(mem2, tables)
    ensures Skeleton(mem0, mem3, used0, used3, kernelPd, pd, base, tables, stackTable)
  {
    TookBoth(used0, used2, used3, [pd] + tables, [stackTable]);
    var all := [pd] + tables;
    assert Elements(all) == Elements(tables) + {pd} && Elements([stackTable]) == {stackTable};
    assert all[0] == pd && stackTable in [stackTable];
    assert NoDup(tables) && pd !in Elements(tables) by {
      assert forall i :: 0 <= i < |tables| ==> all[i + 1] == tables[i];
    }
    forall q, j | q != stackTable
      ensures Word(mem3, q, j) == Word(mem2, q, j)
    {
    }
    BlankTable(mem2, stackTable);
    assert KernelApart(mem3, kernelPd, tables, pd, used3);
  }

  lemma BlankTable(mem: Memory, table: int)
    ensures AllBlank(mem[table := Blank(NOT_PRESENT)], [table])
  {
  }

  lemma AfterOs(mem0: Memory, mem3: Memory, mem4: Memory, used0: set<int>, used: set<int>, kernelPd: int, pd: int,
          base: int, tables: seq<int>, stackTable: int)
    requires Skeleton(mem0, mem3, used0, used, kernelPd, pd, base, tables, stackTable)
    requires Untouched(mem3, mem4, used - Elements(tables)) && Spared(mem3, mem4, tables, PROCESS_SPACE_FOR_OS)
    ensures Skeleton(mem0, mem4, used0, used, kernelPd, pd, base, tables, stackTable)
  {
  }

  lemma AfterPages(mem0: Memory, mem4: Memory, mem5: Memory, used0: set<int>, used3: set<int>, used5: set<int>,
          kernelPd: int, pd: int, base: int, tables: seq<int>, stackTable: int, pages: seq<int>)
    requires Skeleton(mem0, mem4, used0, used3, kernelPd, pd, base, tables, stackTable) && Took(used3, used5, pages)
    requires PROCESS_SPACE_FOR_OS <= |tables| && OsMapped(mem4, kernelPd, tables, PROCESS_SPACE_FOR_OS)
    requires Untouched(mem4, mem5, used3 - Elements(tables[PROCESS_SPACE_FOR_OS..]))
    ensures Took(used0, used5, [pd] + tables + [stackTable] + pages) && Untouched(mem0, mem5, used0)
    ensures DirectoryIs(mem5, pd, base, tables) && AllBlank(mem5, [stackTable])
    ensures OsMapped(mem5, kernelPd, tables, PROCESS_SPACE_FOR_OS) && stackTable in used5 && used0 <= used5
  {
    TookBoth(used0, used3, used5, [pd] + tables + [stackTable], pages);
    assert Elements(tables[PROCESS_SPACE_FOR_OS..]) <= Elements(tables);
    assert stackTable in [stackTable];
    forall i | 0 <= i < PROCESS_SPACE_FOR_OS
      ensures tables[i] in used3 - Elements(tables[PROCESS_SPACE_FOR_OS..])
      ensures Frame(Word(mem4, kernelPd, i)) in used3 - Elements(tables)
    {
      assert tables[i] in Elements(tables);
    }
    OsMappedStays(mem4, mem5, kernelPd, tables);
  }

  lemma OsMappedStays(mem: Memory, mem': Memory, kernelPd: int, tables: seq<int>)
    requires OsMapped(mem, kernelPd, tables, PROCESS_SPACE_FOR_OS) && PROCESS_SPACE_FOR_OS <= |tables|
    requires forall j :: Word(mem', kernelPd, j) == Word(mem, kernelPd, j)
    requires forall i, j :: 0 <= i < PROCESS_SPACE_FOR_OS ==> Word(mem', tables[i], j) == Word(mem, tables[i], j)
    requires forall i, j :: 0 <= i < PROCESS_SPACE_FOR_OS ==>
               Word(mem', Frame(Word(mem, kernelPd, i)), j) == Word(mem, Frame(Word(mem, kernelPd, i)), j)
    ensures OsMapped(mem', kernelPd, tables, PROCESS_SPACE_FOR_OS)
  {
  }

  lemma AfterStack(mem0: Memory, mem5: Memory, mem6: Memory, used0: set<int>, used5: set<int>, used6: set<int>,
          kernelPd: int, base: int, overlap: int, s: Space)
    requires Took(used0, used5, [s.pd] + s.tables + [s.stackTable] + s.pages) && Took(used5, used6, s.stack)
    requires Untouched(mem0, mem5, used0) && Untouched(mem5, mem6, used5 - {s.stackTable}) && used0 <= used5
    requires DirectoryIs(mem5, s.pd, base, s.tables) && PagesEntered(mem5, s.tables, overlap, s.pages)
    requires OsMapped(mem5, kernelPd, s.tables, PROCESS_SPACE_FOR_OS) && PROCESS_SPACE_FOR_OS <= |s.tables|
    requires KernelIn(mem0, kernelPd, used0) && StackEntered(mem6, s.stackTable, s.stack)
    ensures Took(used0, used6, s.All()) && Untouched(mem0, mem6, used0)
    ensures Built(mem6, base, overlap, s) && DirectoryIs(mem6, s.pd, base, s.tables)
    ensures OsMapped(mem6, kernelPd, s.tables, PROCESS_SPACE_FOR_OS)
  {
    hide Took, OsMapped, DirectoryIs, TablesEntered, PagesEntered, StackEntered, NoDup, Elements;
    StackApart(used0, used5, used6, s);
    assert forall j :: Word(mem6, s.pd, j) == Word(mem5, s.pd, j);
    assert forall i, j :: 0 <= i < |s.tables| ==> Word(mem6, s.tables[i], j) == Word(mem5, s.tables[i], j);
    OsMappedStays(mem5, mem6, kernelPd, s.tables);
    EnteredStays(mem5, mem6, base, overlap, s);
  }

  lemma EnteredStays(mem: Memory, mem': Memory, base: int, overlap: int, s: Space)
    requires DirectoryIs(mem, s.pd, base, s.tables) && PagesEntered(mem, s.tables, overlap, s.pages)
    requires forall j :: Word(mem', s.pd, j) == Word(mem, s.pd, j)
    requires forall i, j :: 0 <= i < |s.tables| ==> Word(mem', s.tables[i], j) == Word(mem, s.tables[i], j)
    ensures DirectoryIs(mem', s.pd, base, s.tables) && TablesEntered(mem', s.pd, base, s.tables)
    ensures PagesEntered(mem', s.tables, overlap, s.pages)
  {
  }

  // The stack's table is none of the other pages, all of which were taken before the stack.
  lemma StackApart(used0: set<int>, used5: set<int>, used6: set<int>, s: Space)
    requires Took(used0, used5, [s.pd] + s.tables + [s.stackTable] + s.pages) && Took(used5, used6, s.stack)
    ensures Took(used0, used6, s.All()) && NoDup(s.All()) && s.stackTable !in used0
    ensures s.pd in used5 - {s.stackTable} && forall i :: 0 <= i < |s.tables| ==> s.tables[i] in used5 - {s.stackTable}
  {
    var before := [s.pd] + s.tables + [s.stackTable] + s.pages;
    TookBoth(used0, used5, used6, before, s.stack);
    assert before + s.stack == s.All();
    assert forall x :: x in before ==> x in Elements(before);
    var n := |s.tables|;
    assert before[0] == s.pd && before[n + 1] == s.stackTable;
    assert forall i :: 0 <= i < n ==> before[i + 1] == s.tables[i];
    assert before[n + 1] in before;
  }

  // The pages from lo to hi that are not taken.
  ghost function FreeOf(used: set<int>, lo: int, hi: int): set<int> {
    set p: int | lo <= p < hi && p !in used
  }

  ghost predicate Sized(s: Space, tables: int, pages: int) {
    |s.tables| == tables && |s.pages| == pages && |s.stack| == STACK_PAGES
  }

  lemma {:induction false} NoDupSize(s: seq<int>)
    requires NoDup(s)
    ensures |Elements(s)| == |s|
  {
    if s != [] {
      var rest := s[..|s| - 1];
      NoDupSize(rest);
      assert s == rest + [s[|s| - 1]];
      assert Elements(s) == Elements(rest) + {s[|s| - 1]};
    } else {
      assert Elements(s) == {};
    }
  }

  // Taking n pages needs n free ones; if none is left afterwards there were no more than those.
  lemma TookCounts(used: set<int>, used': set<int>, s: seq<int>, lo: int, hi: int)
    requires Took(used, used', s) && InRange(used', hi) && forall p :: 0 <= p < lo ==> p in used
    ensures |s| <= |FreeOf(used, lo, hi)|
    ensures (forall p :: lo <= p < hi ==> p in used') ==> |FreeOf(used, lo, hi)| == |s|
  {
    NoDupSize(s);
    forall x | x in s
      ensures lo <= x < hi
    {
      assert x in Elements(s);
    }
    assert Elements(s) <= FreeOf(used, lo, hi);
    SubsetSize(Elements(s), FreeOf(used, lo, hi));
    if forall p :: lo <= p < hi ==> p in used' {
      assert FreeOf(used, lo, hi) == Elements(s);
    }
  }

  lemma {:induction false} SubsetSize(a: set<int>, b: set<int>)
    requires a <= b
    ensures |a| <= |b|
  {
    assert b == a + (b - a);
  }

  lemma StartPages(mem: Memory, tables: seq<int>, overlap: int, used: set<int>, keep: set<int>)
    requires PROCESS_SPACE_FOR_OS <= |tables| && AllBlank(mem, tables[PROCESS_SPACE_FOR_OS..])
    ensures PagesEntered(mem, tables, overlap, []) && Untouched(mem, mem, keep) && Took(used, used, [])
  {
  }

  // The directory leads to the table of a page, which is one of the process's own.
  lemma TableFound(mem: Memory, pd: int, base: int, tables: seq<int>, overlap: int, k: int, used: set<int>)
    requires DirectoryIs(mem, pd, base, tables) && 0 <= TableOf(overlap, k) < |tables|
    requires PROCESS_SPACE_FOR_OS <= TableOf(overlap, k) && Elements(tables) <= used
    ensures Frame(Word(mem, pd, (overlap + k) / ENTRIES + base + PROCESS_SPACE_FOR_OS)) == tables[TableOf(overlap, k)]
    ensures tables[TableOf(overlap, k)] in used
  {
  }

  lemma PagesStep(mem0: Memory, mem: Memory, pd: int, base: int, tables: seq<int>, overlap: int, pages: seq<int>,
          page: int, used: set<int>)
    requires DirectoryIs(mem, pd, base, tables) && PagesEntered(mem, tables, overlap, pages) && NoDup(tables)
    requires pd !in Elements(tables) && 0 <= overlap < ENTRIES
    requires PROCESS_SPACE_FOR_OS <= TableOf(overlap, |pages|) < |tables|
    requires tables[TableOf(overlap, |pages|)] in mem && |mem[tables[TableOf(overlap, |pages|)]]| == ENTRIES
    requires Untouched(mem0, mem, used - Elements(tables[PROCESS_SPACE_FOR_OS..]))
    ensures var table, slot := tables[TableOf(overlap, |pages|)], SlotOf(overlap, |pages|);
            var mem' := mem[table := mem[table][slot := Entry(page, USER_PAGE)]];
            && DirectoryIs(mem', pd, base, tables) && PagesEntered(mem', tables, overlap, pages + [page])
            && Untouched(mem0, mem', used - Elements(tables[PROCESS_SPACE_FOR_OS..]))
  {
    var table, slot := tables[TableOf(overlap, |pages|)], SlotOf(overlap, |pages|);
    var mem' := mem[table := mem[table][slot := Entry(page, USER_PAGE)]];
    assert table in Elements(tables);
    assert tables[PROCESS_SPACE_FOR_OS..][TableOf(overlap, |pages|) - PROCESS_SPACE_FOR_OS] == table;
    forall k | 0 <= k < |pages|
      ensures 0 <= TableOf(overlap, k) < |tables|
      ensures Word(mem', tables[TableOf(overlap, k)], SlotOf(overlap, k)) == Entry(pages[k], USER_PAGE)
    {
      PlacesDiffer(overlap, k, |pages|);
    }
  }

  lemma StartStack(mem: Memory, table: int, used: set<int>)
    requires AllBlank(mem, [table])
    ensures StackEntered(mem, table, []) && Untouched(mem, mem, used - {table}) && Took(used, used, [])
  {
  }

  lemma StackStep(mem0: Memory, mem: Memory, table: int, stack: seq<int>, page: int, used: set<int>)
    requires StackEntered(mem, table, stack) && Untouched(mem0, mem, used - {table}) && |stack| < ENTRIES
    requires table in mem && |mem[table]| == ENTRIES
    ensures var mem' := mem[table := mem[table][ENTRIES - 1 - |stack| := Entry(page, StackFlags(|stack|))]];
            StackEntered(mem', table, stack + [page]) && Untouched(mem0, mem', used - {table})
  {
    var mem' := mem[table := mem[table][ENTRIES - 1 - |stack| := Entry(page, StackFlags(|stack|))]];
    forall j | 0 <= j < ENTRIES && j != ENTRIES - 1 - |stack|
      ensures Word(mem', table, j) == Word(mem, table, j)
    {
    }
  }

  function UserView(mem: Memory, table: int): (page: seq<int>) {
    seq(ENTRIES, j => Entry(Frame(Word(mem, table, j)), USER_READ_ONLY))
  }

  // The kernel's directory and its tables are none of the process's pages.
  ghost predicate KernelApart(mem: Memory, kernelPd: int, tables: seq<int>, pd: int, used: set<int>) {
    && kernelPd in used - Elements(tables) && pd in used - Elements(tables)
    && forall i :: 0 <= i < PROCESS_SPACE_FOR_OS ==> Frame(Word(mem, kernelPd, i)) in used - Elements(tables) - {pd}
  }

  // The first n tables show the kernel's pages to the process.
  ghost predicate OsMapped(mem: Memory, kernelPd: int, tables: seq<int>, n: int) {
    forall i, j :: 0 <= i < n && i < |tables| && 0 <= j < ENTRIES ==>
      Word(mem, tables[i], j) == Entry(Frame(Word(mem, Frame(Word(mem, kernelPd, i)), j)), USER_READ_ONLY)
  }

  // Bit by bit: present and the user's, but not writable.
  lemma OsWords(mem: Memory, kernelPd: int, tables: seq<int>)
    requires OsMapped(mem, kernelPd, tables, PROCESS_SPACE_FOR_OS)
    ensures forall i, j :: 0 <= i < 32 && i < |tables| && 0 <= j < 1024 ==>
              && Word(mem, tables[i], j) % 8 == 5
              && Word(mem, tables[i], j) / 0x1000 == Word(mem, Word(mem, kernelPd, i) / 0x1000, j) / 0x1000
  {
    hide Word;
    forall i, j | 0 <= i < 32 && i < |tables| && 0 <= j < 1024
      ensures Word(mem, tables[i], j) % 8 == 5
      ensures Word(mem, tables[i], j) / 0x1000 == Word(mem, Word(mem, kernelPd, i) / 0x1000, j) / 0x1000
    {
      EntryBits(Frame(Word(mem, Frame(Word(mem, kernelPd, i)), j)), USER_READ_ONLY);
    }
  }

  // The processor finds this page at an address, by the bits of the entries: present, writable and
  // the user's at both levels.
  ghost predicate Reaches(mem: Memory, pd: int, address: int, page: int) {
    var pde := Word(mem, pd, address / 0x40_0000);
    var pte := Word(mem, pde / 0x1000, address / 0x1000 % 1024);
    pde % 8 == 7 && pte % 8 == 7 && pte / 0x1000 == page
  }

  // Page k of the process is found where the processor looks for it: at the k-th page behind the
  // process's first address.
  lemma PageWords(mem: Memory, base: int, overlap: int, s: Space, k: int)
    requires TablesEntered(mem, s.pd, base, s.tables) && PagesEntered(mem, s.tables, overlap, s.pages)
    requires 0 <= base && 0 <= overlap < ENTRIES && 0 <= k < |s.pages|
    ensures Reaches(mem, s.pd, 0x40_0000 * (32 + base) + 0x1000 * (overlap + k), s.pages[k])
  {
    hide Word;
    var v := 0x40_0000 * (32 + base) + 0x1000 * (overlap + k);
    var t := TableOf(overlap, k);
    PlaceOf(base, overlap, k);
    EntryBits(s.tables[t], USER_PAGE);
    EntryBits(s.pages[k], USER_PAGE);
    assert Word(mem, s.pd, PdeSlot(base, t)) == Entry(s.tables[t], USER_PAGE);
  }

  lemma SpaceWords(mem: Memory, kernelPd: int, base: int, overlap: int, s: Space)
    requires Built(mem, base, overlap, s) && OsMapped(mem, kernelPd, s.tables, PROCESS_SPACE_FOR_OS)
    requires 0 <= base && 0 <= overlap < ENTRIES && |s.stack| == STACK_PAGES
    ensures forall j :: 1016 <= j < 1024 ==>
              Word(mem, s.stackTable, j) % 8 == 3 && Word(mem, s.stackTable, j) / 0x1000 == s.stack[1023 - j]
    ensures Word(mem, s.stackTable, 1015) % 8 == 7 && Word(mem, s.stackTable, 1015) / 0x1000 == s.stack[8]
    ensures forall j :: 0 <= j < 1015 ==> Word(mem, s.stackTable, j) % 2 == 0
    ensures forall i, j :: 0 <= i < 32 && i < |s.tables| && 0 <= j < 1024 ==> Word(mem, s.tables[i], j) % 8 == 5
    ensures forall k :: 0 <= k < |s.pages| ==>
              Reaches(mem, s.pd, 0x40_0000 * (32 + base) + 0x1000 * (overlap + k), s.pages[k])
  {
    hide Word, Reaches;
    StackWords(mem, s.stackTable, s.stack);
    OsWords(mem, kernelPd, s.tables);
    forall k | 0 <= k < |s.pages|
      ensures Reaches(mem, s.pd, 0x40_0000 * (32 + base) + 0x1000 * (overlap + k), s.pages[k])
    {
      PageWords(mem, base, overlap, s, k);
    }
  }

  lemma PlaceOf(base: int, overlap: int, k: int)
    requires 0 <= base && 0 <= overlap < ENTRIES && 0 <= k
    ensures var v := 0x40_0000 * (32 + base) + 0x1000 * (overlap + k);
            && v / 0x40_0000 == PdeSlot(base, TableOf(overlap, k)) && v / 0x1000 % 1024 == SlotOf(overlap, k)
  {
    var n := overlap + k;
    assert n == 1024 * (n / 1024) + n % 1024;
    var v := 0x40_0000 * (32 + base) + 0x1000 * n;
    assert v == 0x40_0000 * (32 + base + n / 1024) + 0x1000 * (n % 1024);
    assert v / 0x1000 == 1024 * (32 + base + n / 1024) + n % 1024;
  }

  // The tables from the n-th on are as they were.
  ghost predicate Spared(mem: Memory, mem': Memory, tables: seq<int>, n: int) {
    forall i, j :: 0 <= i < |tables| && n <= i ==> Word(mem', tables[i], j) == Word(mem, tables[i], j)
  }

  lemma StartOs(mem: Memory, kernelPd: int, tables: seq<int>, keep: set<int>)
    ensures OsMapped(mem, kernelPd, tables, 0) && Untouched(mem, mem, keep) && Spared(mem, mem, tables, 0)
  {
  }

  lemma OsFacts(mem: Memory, kernelPd: int, tables: seq<int>, pd: int, base: int, used: set<int>, i: int)
    requires KernelApart(mem, kernelPd, tables, pd, used) && DirectoryIs(mem, pd, base, tables)
    requires 0 <= i < PROCESS_SPACE_FOR_OS <= |tables| && Elements(tables) <= used
    ensures Frame(Word(mem, kernelPd, i)) in used && Frame(Word(mem, pd, i)) == tables[i] && tables[i] in used
  {
  }

  lemma OsStep(mem0: Memory, mem: Memory, kernelPd: int, tables: seq<int>, pd: int, base: int, used: set<int>, i: int)
    requires KernelApart(mem, kernelPd, tables, pd, used) && DirectoryIs(mem, pd, base, tables) && NoDup(tables)
    requires 0 <= i < PROCESS_SPACE_FOR_OS <= |tables| && OsMapped(mem, kernelPd, tables, i)
    requires Untouched(mem0, mem, used - Elements(tables)) && Spared(mem0, mem, tables, i)
    ensures var mem' := mem[tables[i] := UserView(mem, Frame(Word(mem, kernelPd, i)))];
            && KernelApart(mem', kernelPd, tables, pd, used) && DirectoryIs(mem', pd, base, tables)
            && OsMapped(mem', kernelPd, tables, i + 1) && Untouched(mem0, mem', used - Elements(tables))
            && Spared(mem0, mem', tables, i + 1)
  {
    var mem' := mem[tables[i] := UserView(mem, Frame(Word(mem, kernelPd, i)))];
    assert tables[i] in Elements(tables);
    forall q, j | q != tables[i]
      ensures Word(mem', q, j) == Word(mem, q, j)
    {
    }
    forall k, j | 0 <= k < i + 1 && 0 <= j < ENTRIES
      ensures Word(mem', tables[k], j) == Entry(Frame(Word(mem', Frame(Word(mem', kernelPd, k)), j)), USER_READ_ONLY)
    {
      if k == i {
        assert Word(mem', tables[i], j) == UserView(mem, Frame(Word(mem, kernelPd, i)))[j];
      }
    }
  }

  lemma StartTables(mem: Memory, used: set<int>, pd: int, base: int)
    requires AllBlank(mem, [pd])
    ensures Took(used, used, []) && DirectoryIs(mem, pd, base, []) && AllBlank(mem, [])
    ensures Untouched(mem, mem, used - {pd})
  {
  }

  // What a newly taken page adds to the pages taken so far.
  lemma TableFacts(used: set<int>, used': set<int>, used'': set<int>, tables: seq<int>, page: int, pd: int)
    requires Took(used, used', tables) && Took(used', used'', [page]) && pd in used
    ensures Took(used, used'', tables + [page]) && pd in used' && page !in used' && page in used''
    ensures used <= used' && used' <= used''
    ensures forall t :: t in tables ==> t in used' - {pd}
  {
    TookBoth(used, used', used'', tables, [page]);
    assert page in [page];
    forall t | t in tables
      ensures t in used'
    {
      assert t in Elements(tables);
    }
  }

  lemma UntouchedMore(mem: Memory, mem': Memory, mem'': Memory, keep: set<int>, keep': set<int>)
    requires Untouched(mem, mem', keep) && Untouched(mem', mem'', keep') && keep <= keep'
    ensures Untouched(mem, mem'', keep)
  {
  }
}
