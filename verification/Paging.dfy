// Two-level page tables in physical memory, the software page walk and the page-fault path
// (memory/MemManager.cpp). The layout is that of 32-bit paging in section 4.3 of volume 3A of the
// Intel 64 and IA-32 Architectures Software Developer's Manual.
module Paging {
  import opened PageMaps
  import opened Wrappers

  const PAGE_SIZE := 4096
  const ENTRIES := 1024
  const NULL := 0
  const PROCESS_HEAP_START := 0x8000_0000
  const PROCESS_GUI_PDE := 1021
  const PROCESS_STACK_PDE := 1022

  // Flag bits of an entry: present, writable, user.
  const USER_PAGE := 7
  const KERNEL_PAGE := 3
  const USER_READ_ONLY := 5
  const NOT_PRESENT := 2

  type Memory = map<int, seq<int>>

  function Entry(page: int, flags: int): int { page * PAGE_SIZE + flags }

  function Frame(entry: int): int { entry / PAGE_SIZE }

  predicate Present(entry: int) { entry % 2 == 1 }

  predicate UserWritable(entry: int) { entry % 8 == USER_PAGE }

  // Word i of a page of physical memory.
  function Word(mem: Memory, page: int, i: int): int {
    if page in mem && 0 <= i < |mem[page]| then mem[page][i] else 0
  }

  function PdeIndex(address: int): int { address / PAGE_SIZE / ENTRIES % ENTRIES }

  function PteIndex(address: int): int { address / PAGE_SIZE % ENTRIES }

  // An address is made of its two indices and its place in the page.
  lemma IndicesAre(address: int)
    requires 0 <= address < 0x1_0000_0000
    ensures 0 <= PdeIndex(address) < 1024 && 0 <= PteIndex(address) < 1024
    ensures address == 0x40_0000 * PdeIndex(address) + 0x1000 * PteIndex(address) + address % 0x1000
    ensures PdeIndex(address) == address / 0x40_0000
  {
    var page := address / 0x1000;
    assert address == 0x1000 * page + address % 0x1000 && page == 1024 * (page / 1024) + page % 1024;
    assert 0 <= page / 1024 < 1024;
  }

  // The entry of the page table that slot i of the directory names, if it is present.
  function Pte(mem: Memory, pd: int, i: int, j: int): int {
    if Present(Word(mem, pd, i)) then Word(mem, Frame(Word(mem, pd, i)), j) else 0
  }

  // What the processor translates an address to, or NULL.
  function Walk(mem: Memory, pd: int, address: int): int {
    var entry := Pte(mem, pd, PdeIndex(address), PteIndex(address));
    if Present(entry) then Frame(entry) * PAGE_SIZE + address % PAGE_SIZE else NULL
  }

  // Every page below the limit is a page of words.
  ghost predicate Pages1024(mem: Memory, limit: int) {
    forall p :: 0 <= p < limit ==> p in mem && |mem[p]| == ENTRIES
  }

  // The tables of a directory are pages of their own, and all pages the tables name are taken.
  ghost predicate Tree(mem: Memory, pd: int, used: set<int>) {
    && pd in used
    && (forall i :: 0 <= i < ENTRIES && Present(Word(mem, pd, i)) ==> Frame(Word(mem, pd, i)) in used - {pd})
    && (forall i, k :: 0 <= i < k < ENTRIES && Present(Word(mem, pd, i)) && Present(Word(mem, pd, k)) ==>
          Frame(Word(mem, pd, i)) != Frame(Word(mem, pd, k)))
    && (forall i, j :: 0 <= i < ENTRIES && 0 <= j < ENTRIES && Present(Pte(mem, pd, i, j)) ==>
          Frame(Pte(mem, pd, i, j)) in used)
  }

  // The page walk sees the same entry everywhere but in the page of one address.
  ghost predicate SameElsewhere(mem: Memory, mem': Memory, pd: int, i: int, j: int) {
    forall i', j' :: 0 <= i' < ENTRIES && 0 <= j' < ENTRIES && (i' != i || j' != j) ==>
      (Present(Pte(mem', pd, i', j')) || Present(Pte(mem, pd, i', j')) ==>
          Pte(mem', pd, i', j') == Pte(mem, pd, i', j'))
  }

  function Blank(value: int): (page: seq<int>)
    ensures |page| == ENTRIES
  {
    seq(ENTRIES, _ => value)
  }

  // Memory with an empty page table entered in the directory.
  function WithTable(mem: Memory, pd: int, i: int, table: int): Memory
    requires pd in mem && 0 <= i < |mem[pd]|
  {
    mem[pd := mem[pd][i := Entry(table, USER_PAGE)]][table := Blank(0)]
  }

  // Memory with an empty page entered in a page table.
  function WithPage(mem: Memory, table: int, j: int, frame: int): Memory
    requires table in mem && 0 <= j < |mem[table]|
  {
    mem[table := mem[table][j := Entry(frame, USER_PAGE)]][frame := Blank(0)]
  }

  // Nothing, or a page table added for slot i.
  ghost predicate TableStepped(mem: Memory, mem': Memory, used: set<int>, used': set<int>, pd: int, i: int) {
    (mem' == mem && used' == used) ||
    (pd in mem && 0 <= i < |mem[pd]| && !Present(Word(mem, pd, i)) &&
     exists table: int :: table !in used && 0 < table && used' == used + {table}
         && mem' == WithTable(mem, pd, i, table))
  }

  // Nothing, or a page added for slot j of the table in slot i.
  ghost predicate PageStepped(mem: Memory, mem': Memory, used: set<int>, used': set<int>, pd: int, i: int, j: int) {
    var table := Frame(Word(mem, pd, i));
    (mem' == mem && used' == used) ||
    (table in mem && 0 <= j < |mem[table]| && Present(Word(mem, pd, i)) && !Present(Pte(mem, pd, i, j)) &&
     exists frame: int :: frame !in used && 0 < frame && used' == used + {frame}
         && mem' == WithPage(mem, table, j, frame))
  }

  // A page table added to an empty slot of the directory.
  lemma TableAdded(mem: Memory, pd: int, used: set<int>, i: int, table: int, limit: int)
    requires Pages1024(mem, limit) && Tree(mem, pd, used) && 0 <= pd < limit && 0 <= i < ENTRIES
    requires !Present(Word(mem, pd, i)) && 0 <= table < limit && table !in used
    ensures var mem' := WithTable(mem, pd, i, table);
            && Tree(mem', pd, used + {table}) && Pages1024(mem', limit)
            && Word(mem', pd, i) == Entry(table, USER_PAGE)
            && (forall j, k :: 0 <= j < ENTRIES && 0 <= k < ENTRIES && j != i ==>
                  Pte(mem', pd, j, k) == Pte(mem, pd, j, k))
            && (forall k :: 0 <= k < ENTRIES ==> !Present(Pte(mem', pd, i, k)))
  {
    var mem' := WithTable(mem, pd, i, table);
    forall j | 0 <= j < ENTRIES
      ensures Word(mem', pd, j) == if j == i then Entry(table, USER_PAGE) else Word(mem, pd, j)
    {
    }
    forall k | 0 <= k < ENTRIES
      ensures !Present(Pte(mem', pd, i, k))
    {
      assert Word(mem', table, k) == 0;
    }
    forall j, k | 0 <= j < ENTRIES && 0 <= k < ENTRIES && j != i
      ensures Pte(mem', pd, j, k) == Pte(mem, pd, j, k)
    {
    }
  }

  // A page entered into an empty slot of a page table.
  lemma PageAdded(mem: Memory, pd: int, used: set<int>, i: int, j: int, frame: int, limit: int)
    requires Pages1024(mem, limit) && Tree(mem, pd, used) && 0 <= i < ENTRIES && 0 <= j < ENTRIES
    requires Present(Word(mem, pd, i)) && !Present(Pte(mem, pd, i, j)) && 0 <= frame < limit && frame !in used
    requires 0 <= Frame(Word(mem, pd, i)) < limit
    ensures var table := Frame(Word(mem, pd, i));
            var mem' := WithPage(mem, table, j, frame);
            && Tree(mem', pd, used + {frame}) && Pages1024(mem', limit)
            && Pte(mem', pd, i, j) == Entry(frame, USER_PAGE) && SameElsewhere(mem, mem', pd, i, j)
            && (forall k :: 0 <= k < ENTRIES ==> Word(mem', pd, k) == Word(mem, pd, k))
  {
    var table := Frame(Word(mem, pd, i));
    var mem' := WithPage(mem, table, j, frame);
    forall k | 0 <= k < ENTRIES
      ensures Word(mem', pd, k) == Word(mem, pd, k)
    {
    }
    forall i', j' | 0 <= i' < ENTRIES && 0 <= j' < ENTRIES
      ensures Pte(mem', pd, i', j') == if i' == i && j' == j then Entry(frame, USER_PAGE) else Pte(mem, pd, i', j')
    {
    }
  }

  datatype FaultResult = Resolved | Fault | OutOfMemory

  // What the guards of the fault handler let through: the first of them compares one index with
  // two different constants and so never excludes anything.
  predicate Accepted(address: int, dmmOn: bool) {
    PROCESS_HEAP_START <= address && dmmOn && PdeIndex(address) != PROCESS_STACK_PDE
        && PdeIndex(address) != PROCESS_GUI_PDE
  }

  // The entries met on the way are absent or fully permitted.
  predicate Permitted(mem: Memory, pd: int, address: int) {
    var pde, pte := Word(mem, pd, PdeIndex(address)), Pte(mem, pd, PdeIndex(address), PteIndex(address));
    (Present(pde) ==> UserWritable(pde)) && (Present(pte) ==> UserWritable(pte))
  }

  ghost predicate InRange(used: set<int>, limit: int) {
    forall p :: p in used ==> 0 <= p < limit
  }

  // After a fault no other page is translated differently; the page of the address keeps its
  // entry or, if the fault was resolved, gets a user-writable one of a frame free until now.
  ghost predicate Effect(mem: Memory, mem': Memory, used: set<int>, used': set<int>, pd: int, address: int,
          resolved: bool) {
    var i, j := PdeIndex(address), PteIndex(address);
    var before, after := Pte(mem, pd, i, j), Pte(mem', pd, i, j);
    && SameElsewhere(mem, mem', pd, i, j)
    && (Present(before) ==> after == before)
    && (!Present(before) ==> Present(after) == resolved)
    && (resolved ==> UserWritable(after))
    && (!Present(before) && resolved ==> Frame(after) in used' - used)
  }

  // A resolved fault at a makes the walk map a to a frame with the same low bits; every address
  // of another page translates as before, and none of them to a newly taken frame.
  lemma FaultTranslates(mem: Memory, mem': Memory, used: set<int>, used': set<int>, pd: int, a: int, b: int)
    requires Tree(mem, pd, used) && Effect(mem, mem', used, used', pd, a, true)
    requires 0 <= a < 0x1_0000_0000 && 0 <= b < 0x1_0000_0000
    ensures var frame := Frame(Pte(mem', pd, PdeIndex(a), PteIndex(a)));
            && Present(Pte(mem', pd, PdeIndex(a), PteIndex(a)))
            && Walk(mem', pd, a) == frame * PAGE_SIZE + a % PAGE_SIZE
            && (Walk(mem, pd, a) != NULL ==> Walk(mem', pd, a) == Walk(mem, pd, a))
            && (b / PAGE_SIZE != a / PAGE_SIZE ==> Walk(mem', pd, b) == Walk(mem, pd, b))
            && (b / PAGE_SIZE != a / PAGE_SIZE && !Present(Pte(mem, pd, PdeIndex(a), PteIndex(a)))
                && Present(Pte(mem', pd, PdeIndex(b), PteIndex(b))) ==>
                  Frame(Pte(mem', pd, PdeIndex(b), PteIndex(b))) != frame)
  {
  }

  // What entering a page or a table does to the words of the pages in use: one word changes, and
  // the page that is new is all zero.

  lemma WordsWithPage(mem: Memory, used: set<int>, table: int, j: int, frame: int)
    requires table in mem && |mem[table]| == ENTRIES && 0 <= j < ENTRIES && table in used && frame !in used
    ensures var mem' := WithPage(mem, table, j, frame);
            && (forall k :: 0 <= k < ENTRIES ==> Word(mem', frame, k) == 0)
            && (forall q, k :: q in used && (q != table || k != j) ==> Word(mem', q, k) == Word(mem, q, k))
  {
  }

  lemma WordsWithTable(mem: Memory, used: set<int>, pd: int, i: int, table: int)
    requires pd in mem && |mem[pd]| == ENTRIES && 0 <= i < ENTRIES && pd in used && table !in used
    ensures var mem' := WithTable(mem, pd, i, table);
            && (forall k :: 0 <= k < ENTRIES ==> Word(mem', table, k) == 0)
            && (forall q, k :: q in used && (q != pd || k != i) ==> Word(mem', q, k) == Word(mem, q, k))
  {
  }

  lemma StepNothing(mem: Memory, used: set<int>, pd: int, i: int, j: int)
    ensures TableStepped(mem, mem, used, used, pd, i) && PageStepped(mem, mem, used, used, pd, i, j)
  {
  }

  lemma StepTable(mem: Memory, used: set<int>, pd: int, i: int, table: int)
    requires pd in mem && 0 <= i < |mem[pd]| && !Present(Word(mem, pd, i)) && table !in used && 0 < table
    ensures TableStepped(mem, WithTable(mem, pd, i, table), used, used + {table}, pd, i)
  {
  }

  lemma StepPage(mem: Memory, used: set<int>, pd: int, i: int, j: int, frame: int)
    requires Present(Word(mem, pd, i)) && !Present(Pte(mem, pd, i, j)) && frame !in used && 0 < frame
    requires Frame(Word(mem, pd, i)) in mem && 0 <= j < |mem[Frame(Word(mem, pd, i))]|
    ensures PageStepped(mem, WithPage(mem, Frame(Word(mem, pd, i)), j, frame), used, used + {frame}, pd, i, j)
  {
  }

  lemma EntryIs(page: int)
    ensures var entry := Entry(page, USER_PAGE);
            Frame(entry) == page && Present(entry) && UserWritable(entry)
  {
    FrameIs(page, USER_PAGE);
    IsPresent(2048 * page + 3);
    IsUserWritable(512 * page);
  }

  lemma FrameIs(page: int, flags: int)
    requires 0 <= flags < PAGE_SIZE
    ensures Frame(Entry(page, flags)) == page
  {
  }

  lemma IsPresent(half: int)
    ensures Present(2 * half + 1)
  {
  }

  lemma IsUserWritable(eighth: int)
    ensures UserWritable(8 * eighth + USER_PAGE)
  {
  }

  lemma SameEverywhere(mem: Memory, pd: int, i: int, j: int)
    ensures SameElsewhere(mem, mem, pd, i, j)
  {
  }

  lemma PageFacts(mem: Memory, limit: int, page: int)
    requires Pages1024(mem, limit)
    ensures 0 <= page < limit ==> page in mem && |mem[page]| == ENTRIES
  {
  }

  lemma TreeFacts(mem: Memory, pd: int, used: set<int>, i: int)
    requires Tree(mem, pd, used) && 0 <= i < ENTRIES
    ensures pd in used && (Present(Word(mem, pd, i)) ==> Frame(Word(mem, pd, i)) in used)
  {
  }

  class MemManager {
    const pageMap: PageMap
    var mem: Memory

    ghost predicate Valid()
      reads this, pageMap.words
    {
      pageMap.Valid() && pageMap.startPage == 0 && 0 < pageMap.firstWord && Pages1024(mem, Limit())
    }

    // The number of pages of the machine.
    function Limit(): int {
      32 * pageMap.words.Length
    }

    ghost function Used(): set<int>
      requires pageMap.Valid()
      reads pageMap.words
    {
      pageMap.Used()
    }

    // Every page but the reserved ones is taken.
    ghost predicate NoneFree()
      requires pageMap.Valid()
      reads pageMap.words
    {
      forall p :: 32 * pageMap.firstWord <= p < Limit() ==> p in Used()
    }

    constructor (pageMap: PageMap, mem: Memory)
      requires pageMap.Valid() && pageMap.startPage == 0 && 0 < pageMap.firstWord
      requires Pages1024(mem, 32 * pageMap.words.Length)
      ensures Valid() && this.pageMap == pageMap && this.mem == mem
    {
      this.pageMap, this.mem := pageMap, mem;
    }

    // A free page, which is not one of the reserved ones; none only if all others are taken.
    method AllocatePhysicalPage() returns (r: Option<int>)
      requires Valid()
      modifies pageMap.words
      ensures Valid()
      ensures r.None? ==> Used() == old(Used()) && NoneFree()
      ensures r.Some? ==> 32 * pageMap.firstWord <= r.value < Limit() && r.value !in old(Used())
      ensures r.Some? ==> Used() == old(Used()) + {r.value}
    {
      r := pageMap.Allocate();
    }

    method SetWord(page: int, i: int, value: int)
      requires Valid() && 0 <= page < Limit() && 0 <= i < ENTRIES
      modifies this
      ensures Valid() && mem == old(mem)[page := old(mem)[page][i := value]]
    {
      mem := mem[page := mem[page][i := value]];
    }

    // Fills a page with one word: the initial entries of a table.
    method FillPage(page: int, value: int)
      requires Valid() && 0 <= page < Limit()
      modifies this
      ensures Valid() && mem == old(mem)[page := Blank(value)]
    {
      var words := mem[page];
      for j := 0 to ENTRIES
        invariant |words| == ENTRIES && forall k :: 0 <= k < j ==> words[k] == value
      {
        words := words[j := value];
      }
      assert words == Blank(value);
      mem := mem[page := words];
    }

    // Gives slot i of the directory a page table if it has none.
    method EnsureTable(pd: int, i: int) returns (r: FaultResult)
      requires Valid() && Tree(mem, pd, Used()) && InRange(Used(), Limit()) && 0 <= i < ENTRIES
      modifies this, pageMap.words
      ensures Valid() && Tree(mem, pd, Used()) && InRange(Used(), Limit()) && old(Used()) <= Used()
      ensures SameElsewhere(old(mem), mem, pd, -1, -1)
      ensures TableStepped(old(mem), mem, old(Used()), Used(), pd, i)
      ensures r.Fault? <==> Present(Word(old(mem), pd, i)) && !UserWritable(Word(old(mem), pd, i))
      ensures r.Resolved? ==> Present(Word(mem, pd, i))
      ensures r.Resolved? && !Present(Word(old(mem), pd, i)) ==>
                Frame(Word(mem, pd, i)) !in old(Used())
                && forall k :: 0 <= k < ENTRIES ==> Word(mem, Frame(Word(mem, pd, i)), k) == 0
      ensures forall q, k :: q in old(Used()) && (q != pd || k != i) ==> Word(mem, q, k) == Word(old(mem), q, k)
      ensures Present(Word(old(mem), pd, i)) ==> mem == old(mem) && Used() == old(Used())
      ensures r.OutOfMemory? ==> !Present(Word(old(mem), pd, i)) && NoneFree()
      ensures !r.Resolved? ==> mem == old(mem) && Used() == old(Used())
    {
      hide Tree, Pages1024, TableStepped;
      TreeFacts(mem, pd, Used(), i);
      PageFacts(mem, Limit(), pd);
      StepNothing(mem, Used(), pd, i, 0);
      var table := Word(mem, pd, i);
      if !Present(table) {
        ghost var used := Used();
        var free := AllocatePhysicalPage();
        if free.None? {
          return OutOfMemory;
        }
        TableAdded(mem, pd, used, i, free.value, Limit());
        WordsWithTable(mem, used, pd, i, free.value);
        FrameIs(free.value, USER_PAGE);
        StepTable(mem, used, pd, i, free.value);
        SetWord(pd, i, Entry(free.value, USER_PAGE));
        FillPage(free.value, 0);
      } else if !UserWritable(table) {
        return Fault;
      }
      return Resolved;
    }

    // Gives slot j of a page table a page if it has none.
    method EnsurePage(pd: int, i: int, j: int) returns (r: FaultResult)
      requires Valid() && Tree(mem, pd, Used()) && InRange(Used(), Limit()) && 0 <= i < ENTRIES && 0 <= j < ENTRIES
      requires Present(Word(mem, pd, i))
      modifies this, pageMap.words
      ensures Valid() && Tree(mem, pd, Used()) && InRange(Used(), Limit()) && old(Used()) <= Used()
      ensures SameElsewhere(old(mem), mem, pd, i, j)
      ensures PageStepped(old(mem), mem, old(Used()), Used(), pd, i, j)
      ensures r.Fault? <==> Present(Pte(old(mem), pd, i, j)) && !UserWritable(Pte(old(mem), pd, i, j))
      ensures !r.Resolved? ==> mem == old(mem) && Used() == old(Used())
      ensures Present(Pte(old(mem), pd, i, j)) ==> Pte(mem, pd, i, j) == Pte(old(mem), pd, i, j)
      ensures r.OutOfMemory? ==> !Present(Pte(mem, pd, i, j)) && NoneFree()
      ensures r.Resolved? ==> UserWritable(Pte(mem, pd, i, j))
      ensures r.Resolved? && !Present(Pte(old(mem), pd, i, j)) ==>
                && Frame(Pte(mem, pd, i, j)) in Used() - old(Used())
                && forall k :: 0 <= k < ENTRIES ==> Word(mem, Frame(Pte(mem, pd, i, j)), k) == 0
      ensures Word(mem, pd, i) == Word(old(mem), pd, i)
      ensures forall q, k :: q in old(Used()) && (q != Frame(Word(mem, pd, i)) || k != j) ==>
                Word(mem, q, k) == Word(old(mem), q, k)
    {
      hide Tree, Pages1024, PageStepped, Entry, Present, UserWritable, SameElsewhere;
      TreeFacts(mem, pd, Used(), i);
      PageFacts(mem, Limit(), Frame(Word(mem, pd, i)));
      StepNothing(mem, Used(), pd, i, j);
      var table := Frame(Word(mem, pd, i));
      var page := Word(mem, table, j);
      if !Present(page) {
        ghost var used := Used();
        SameEverywhere(mem, pd, i, j);
        var free := AllocatePhysicalPage();
        if free.None? {
          return OutOfMemory;
        }
        EntryIs(free.value);
        WordsWithPage(mem, used, table, j, free.value);
        PageAdded(mem, pd, used, i, j, free.value, Limit());
        StepPage(mem, used, pd, i, j, free.value);
        SetWord(table, j, Entry(free.value, USER_PAGE));
        FillPage(free.value, 0);
      } else {
        SameEverywhere(mem, pd, i, j);
        if !UserWritable(page) {
          return Fault;
        }
      }
      return Resolved;
    }

    // Handles a page fault of a user process whose directory is pd. The ghost results are the
    // state between the two levels.
    method AllocatePage(pd: int, dmmOn: bool, address: int)
      returns (r: FaultResult, ghost midMem: Memory, ghost midUsed: set<int>)
      requires Valid() && 0 <= address < 0x1_0000_0000
      requires Tree(mem, pd, Used()) && InRange(Used(), Limit())
      modifies this, pageMap.words
      ensures Valid() && Tree(mem, pd, Used()) && InRange(Used(), Limit()) && old(Used()) <= Used()
      ensures r.Fault? <==> !(Accepted(address, dmmOn) && Permitted(old(mem), pd, address))
      ensures var i, j := address / 0x40_0000, address / 0x1000 % 1024;
              r.Fault? <==> address < 0x8000_0000 || !dmmOn || i == 1021 || i == 1022
                            || (Word(old(mem), pd, i) % 2 == 1 && Word(old(mem), pd, i) % 8 != 7)
                            || (Pte(old(mem), pd, i, j) % 2 == 1 && Pte(old(mem), pd, i, j) % 8 != 7)
      ensures var i, j := address / 0x40_0000, address / 0x1000 % 1024;
              var table := Frame(Word(mem, pd, i));
              && (r.Resolved? ==> Pte(mem, pd, i, j) % 8 == 7)
              && (r.Resolved? && !Present(Pte(old(mem), pd, i, j)) ==>
                    && Frame(Pte(mem, pd, i, j)) !in old(Used())
                    && forall k :: 0 <= k < ENTRIES ==> Word(mem, Frame(Pte(mem, pd, i, j)), k) == 0)
              && (r.Resolved? && !Present(Word(old(mem), pd, i)) ==>
                    forall k :: 0 <= k < ENTRIES && k != j ==> Word(mem, table, k) == 0)
              && (forall q, k :: q in old(Used()) && (q != pd || k != i) && (q != table || k != j) ==>
                    Word(mem, q, k) == Word(old(mem), q, k))
      ensures !r.Fault? ==> Effect(old(mem), mem, old(Used()), Used(), pd, address, r.Resolved?)
      ensures r.Fault? ==> mem == old(mem) && Used() == old(Used())
      ensures r.OutOfMemory? ==> NoneFree()
      ensures TableStepped(old(mem), midMem, old(Used()), midUsed, pd, PdeIndex(address))
      ensures PageStepped(midMem, mem, midUsed, Used(), pd, PdeIndex(address), PteIndex(address))
    {
      hide Tree, Pages1024, TableStepped, PageStepped;
      IndicesAre(address);
      StepNothing(mem, Used(), pd, PdeIndex(address), PteIndex(address));
      midMem, midUsed := mem, Used();
      var pdeIndex, pteIndex := PdeIndex(address), PteIndex(address);
      if pdeIndex != PROCESS_STACK_PDE || pdeIndex != PROCESS_GUI_PDE || dmmOn {
        if address < PROCESS_HEAP_START || (address >= PROCESS_HEAP_START && !dmmOn) ||
           (pdeIndex == PROCESS_STACK_PDE && dmmOn) || pdeIndex == PROCESS_GUI_PDE {
          return Fault, mem, Used();
        }
      }
      r := EnsureTable(pd, pdeIndex);
      midMem, midUsed := mem, Used();
      StepNothing(mem, Used(), pd, PdeIndex(address), PteIndex(address));
      TreeFacts(mem, pd, Used(), pdeIndex);
      if r.Resolved? {
        r := EnsurePage(pd, pdeIndex, pteIndex);
      }
    }

    method GetFlatAddress(pd: int, address: int) returns (flat: int)
      requires 0 <= address < 0x1_0000_0000
      ensures flat == Walk(mem, pd, address)
      ensures var pde := Word(mem, pd, address / 0x40_0000);
              var pte := Word(mem, pde / 0x1000, address / 0x1000 % 1024);
              flat == if pde % 2 == 1 && pte % 2 == 1 then pte / 0x1000 * 0x1000 + address % 0x1000 else 0
    {
      var table := Word(mem, pd, PdeIndex(address));
      if !Present(table) {
        return NULL;
      }
      var page := Word(mem, Frame(table), PteIndex(address));
      if !Present(page) {
        return NULL;
      }
      return Frame(page) * PAGE_SIZE + address % PAGE_SIZE;
    }
  }
}
