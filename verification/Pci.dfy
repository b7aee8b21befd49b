// Depth-first numbering of PCI buses, with configuration accesses routed by the very bridge
// windows the scan writes (drivers/bus/PCIBusHandler.cpp). Windows are those of section 3.2.5 of
// the PCI-to-PCI Bridge Architecture Specification.
module PciBuses {
  import opened Wrappers

  const FUNCTIONS := 8
  const MAX_BUS := 255
  const MAX_PCI_DEVICES := 255

  // The functions of a bus, eight for each device in turn. The flag is the multi-function bit of
  // the header type.
  datatype Bus = Bus(functions: seq<Function>)

  datatype Function = Absent | Endpoint(multi: bool) | Bridge(multi: bool, behind: Bus)

  predicate Multi(f: Function) {
    !f.Absent? && f.multi
  }

  // The function the scan sees at a slot: functions other than 0 only on multi-function devices.
  predicate Visible(bus: Bus, slot: int) {
    0 <= slot < |bus.functions| && !bus.functions[slot].Absent? &&
    (slot % FUNCTIONS == 0 || Multi(bus.functions[slot - slot % FUNCTIONS]))
  }

  // A bridge that the scan takes for one: function 0's header type counts for the whole device.
  // Another one stays as it was reset, and passes nothing on.
  predicate VisibleBridge(bus: Bus, slot: int) {
    Visible(bus, slot) && bus.functions[slot].Bridge? && bus.functions[slot - slot % FUNCTIONS].Bridge?
  }

  // The number of buses of a subtree, and of those behind the bridges before a slot.
  function Size(bus: Bus): (n: int)
    ensures 1 <= n
    decreases bus, |bus.functions| + 1
  {
    1 + SizeUpTo(bus, |bus.functions|)
  }

  function SizeUpTo(bus: Bus, k: int): (n: int)
    requires 0 <= k <= |bus.functions|
    ensures 0 <= n
    decreases bus, k
  {
    if k == 0 then 0
    else SizeUpTo(bus, k - 1) + if VisibleBridge(bus, k - 1) then Size(bus.functions[k - 1].behind) else 0
  }

  // Every bus has the same number of slots, a device has a function 0, and if that is a bridge then
  // so are the device's other functions.
  predicate Regular(bus: Bus, slots: int) {
    && |bus.functions| == slots
    && (forall s :: 0 <= s < slots && !bus.functions[s].Absent? ==>
          !bus.functions[s - s % FUNCTIONS].Absent?
              && (bus.functions[s - s % FUNCTIONS].Bridge? ==> bus.functions[s].Bridge?))
    && (forall s :: 0 <= s < slots && bus.functions[s].Bridge? ==> Regular(bus.functions[s].behind, slots))
  }

  // The bus-number registers of a bridge, and whether it decodes I/O and memory.
  datatype Window = Window(primary: int, secondary: int, subordinate: int, decode: bool)

  // Bridges by their path of slots from the root. One that was not set up forwards nothing.
  type Path = seq<int>
  type Registers = map<Path, Window>

  // The bus number the scan gives to what is behind slot k of bus b.
  function Secondary(bus: Bus, b: int, k: int): int
    requires 0 <= k <= |bus.functions|
  {
    b + 1 + SizeUpTo(bus, k)
  }

  // The final state of the registers below a bus numbered b: each bridge's window runs from the
  // number of the bus behind it over as many numbers as there are buses behind it.
  ghost predicate Numbered(bus: Bus, regs: Registers, here: Path, b: int, upTo: int)
    requires 0 <= upTo <= |bus.functions|
    decreases bus, 1
  {
    forall k :: 0 <= k < upTo && VisibleBridge(bus, k) ==> SlotNumbered(bus, regs, here, b, k)
  }

  ghost predicate SlotNumbered(bus: Bus, regs: Registers, here: Path, b: int, k: int)
    requires VisibleBridge(bus, k)
    decreases bus, 0
  {
    && here + [k] in regs
    && regs[here + [k]] == Window(b, Secondary(bus, b, k), Secondary(bus, b, k + 1) - 1, true)
    && Numbered(bus.functions[k].behind, regs, here + [k], Secondary(bus, b, k), |bus.functions[k].behind.functions|)
  }

  // Where a bus and its descendants are found: the subtree at a path.
  predicate IsPath(root: Bus, path: Path)
    decreases |path|
  {
    path == [] || (VisibleBridge(root, path[0]) && IsPath(root.functions[path[0]].behind, path[1..]))
  }

  function At(root: Bus, path: Path): Bus
    requires IsPath(root, path)
    decreases |path|
  {
    if path == [] then root else At(root.functions[path[0]].behind, path[1..])
  }

  // The number the scan gives to the bus at a path, if the top one is numbered b.
  function NumberOf(bus: Bus, b: int, path: Path): int
    requires IsPath(bus, path)
    decreases |path|
  {
    if path == [] then b else NumberOf(bus.functions[path[0]].behind, Secondary(bus, b, path[0]), path[1..])
  }

  lemma {:induction false} SizesGrow(bus: Bus, k: int, l: int)
    requires 0 <= k <= l <= |bus.functions|
    ensures SizeUpTo(bus, k) <= SizeUpTo(bus, l)
    ensures k < l && VisibleBridge(bus, k) ==> SizeUpTo(bus, k) + Size(bus.functions[k].behind) <= SizeUpTo(bus, l)
    decreases l
  {
    if k < l {
      SizesGrow(bus, k, l - 1);
    }
  }

  // The numbers below a bus start with its own and are as many as there are buses.
  lemma {:induction false} NumberInRange(bus: Bus, b: int, path: Path)
    requires IsPath(bus, path)
    ensures b <= NumberOf(bus, b, path) < b + Size(bus)
    ensures path != [] ==> Secondary(bus, b, path[0]) <= NumberOf(bus, b, path) < Secondary(bus, b, path[0] + 1)
    decreases |path|
  {
    if path != [] {
      NumberInRange(bus.functions[path[0]].behind, Secondary(bus, b, path[0]), path[1..]);
      SizesGrow(bus, 0, path[0]);
      SizesGrow(bus, path[0] + 1, |bus.functions|);
    }
  }

  // No two buses get the same number.
  lemma {:induction false} NumbersDiffer(bus: Bus, b: int, p: Path, q: Path)
    requires IsPath(bus, p) && IsPath(bus, q) && p != q
    ensures NumberOf(bus, b, p) != NumberOf(bus, b, q)
    decreases |p|
  {
    NumberInRange(bus, b, p);
    NumberInRange(bus, b, q);
    if p != [] && q != [] {
      if p[0] == q[0] {
        assert p == [p[0]] + p[1..] && q == [q[0]] + q[1..];
        NumbersDiffer(bus.functions[p[0]].behind, Secondary(bus, b, p[0]), p[1..], q[1..]);
      } else if p[0] < q[0] {
        SizesGrow(bus, p[0] + 1, q[0]);
      } else {
        SizesGrow(bus, q[0] + 1, p[0]);
      }
    } else if p == [] {
      SizesGrow(bus, 0, q[0]);
    } else {
      SizesGrow(bus, 0, p[0]);
    }
  }

  // A bridge's window, from the number of the bus behind it over as many numbers as there are
  // buses, holds exactly the numbers of the buses behind it.
  lemma {:induction false} WindowExact(bus: Bus, b: int, p: Path, q: Path)
    requires IsPath(bus, p) && IsPath(bus, q)
    ensures NumberOf(bus, b, p) <= NumberOf(bus, b, q) < NumberOf(bus, b, p) + Size(At(bus, p)) <==> p <= q
    decreases |p|
  {
    NumberInRange(bus, b, q);
    if p != [] {
      NumberInRange(bus, b, p);
      WindowInside(bus, b, p);
      if q == [] {
        SizesGrow(bus, 0, p[0]);
      } else if p[0] == q[0] {
        WindowExact(bus.functions[p[0]].behind, Secondary(bus, b, p[0]), p[1..], q[1..]);
        assert p <= q <==> p[1..] <= q[1..] by {
          assert p == [p[0]] + p[1..] && q == [q[0]] + q[1..];
        }
      } else if p[0] < q[0] {
        SizesGrow(bus, p[0] + 1, q[0]);
      } else {
        SizesGrow(bus, q[0] + 1, p[0]);
      }
    }
  }

  // The window of a bridge lies in that of the bridge it is behind.
  lemma {:induction false} WindowInside(bus: Bus, b: int, p: Path)
    requires IsPath(bus, p)
    ensures NumberOf(bus, b, p) + Size(At(bus, p)) <= b + Size(bus)
    ensures p != [] ==> NumberOf(bus, b, p) + Size(At(bus, p)) <= Secondary(bus, b, p[0] + 1)
    decreases |p|
  {
    if p != [] {
      WindowInside(bus.functions[p[0]].behind, Secondary(bus, b, p[0]), p[1..]);
      SizesGrow(bus, p[0] + 1, |bus.functions|);
    }
  }

  // A bridge passes on an access to bus b if its window covers b.
  predicate Covers(regs: Registers, bridge: Path, b: int) {
    bridge in regs && regs[bridge].secondary <= b <= regs[bridge].subordinate
  }

  // The first bridge of a bus, from slot k on, that passes on an access to bus b.
  function FirstCover(bus: Bus, regs: Registers, here: Path, b: int, k: int): (slot: int)
    requires 0 <= k <= |bus.functions|
    ensures slot == -1 || (k <= slot < |bus.functions| && VisibleBridge(bus, slot) && Covers(regs, here + [slot], b))
    decreases |bus.functions| - k
  {
    if k == |bus.functions| then -1
    else if VisibleBridge(bus, k) && Covers(regs, here + [k], b) then k
    else FirstCover(bus, regs, here, b, k + 1)
  }

  // Where an access to bus b arrives that travels on a bus numbered `number`.
  function Route(bus: Bus, regs: Registers, here: Path, number: int, b: int): Option<Path>
    decreases bus
  {
    if number == b then Some(here)
    else
      var slot := FirstCover(bus, regs, here, b, 0);
      if slot == -1 then None
      else Route(bus.functions[slot].behind, regs, here + [slot], regs[here + [slot]].secondary, b)
  }

  // The situation while the bus at the end of a path is scanned: the bridges on the path are open
  // to all numbers from the one behind them on, all others on the way end before.
  ghost predicate Open(bus: Bus, regs: Registers, here: Path, path: Path, numbers: seq<int>)
    decreases |path|
  {
    && |numbers| == |path| + 1
    && (path == [] ||
        (&& VisibleBridge(bus, path[0]) && numbers[0] < numbers[1]
         && here + [path[0]] in regs && regs[here + [path[0]]].secondary == numbers[1]
         && regs[here + [path[0]]].subordinate == MAX_BUS
         && (forall k :: k != path[0] && VisibleBridge(bus, k) && here + [k] in regs ==>
               regs[here + [k]].subordinate < numbers[1])
         && Open(bus.functions[path[0]].behind, regs, here + [path[0]], path[1..], numbers[1..])))
  }

  lemma {:induction false} NumbersIncrease(bus: Bus, regs: Registers, here: Path, path: Path, numbers: seq<int>)
    requires Open(bus, regs, here, path, numbers)
    ensures numbers[0] <= numbers[|path|] && (path != [] ==> numbers[0] < numbers[1] <= numbers[|path|])
    decreases |path|
  {
    if path != [] {
      NumbersIncrease(bus.functions[path[0]].behind, regs, here + [path[0]], path[1..], numbers[1..]);
    }
  }

  lemma {:induction false} CoverFound(bus: Bus, regs: Registers, here: Path, b: int, k: int, slot: int)
    requires 0 <= k <= slot < |bus.functions| && VisibleBridge(bus, slot) && Covers(regs, here + [slot], b)
    requires forall j :: j != slot && VisibleBridge(bus, j) ==> !Covers(regs, here + [j], b)
    ensures FirstCover(bus, regs, here, b, k) == slot
    decreases slot - k
  {
    if k < slot {
      CoverFound(bus, regs, here, b, k + 1, slot);
    }
  }

  // An access to the bus being scanned arrives there.
  lemma {:induction false} RouteArrives(bus: Bus, regs: Registers, here: Path, path: Path, numbers: seq<int>)
    requires Open(bus, regs, here, path, numbers) && numbers[|path|] <= MAX_BUS
    ensures Route(bus, regs, here, numbers[0], numbers[|path|]) == Some(here + path)
    ensures IsPath(bus, path)
    decreases |path|
  {
    NumbersIncrease(bus, regs, here, path, numbers);
    if path == [] {
      assert here + path == here;
    } else {
      CoverFound(bus, regs, here, numbers[|path|], 0, path[0]);
      RouteArrives(bus.functions[path[0]].behind, regs, here + [path[0]], path[1..], numbers[1..]);
      assert here + [path[0]] + path[1..] == here + path;
    }
  }

  lemma {:induction false} AtExtends(root: Bus, path: Path, k: int)
    requires IsPath(root, path) && VisibleBridge(At(root, path), k)
    ensures IsPath(root, path + [k]) && At(root, path + [k]) == At(root, path).functions[k].behind
    decreases |path|
  {
    if path == [] {
      assert (path + [k])[1..] == [];
    } else {
      assert (path + [k])[1..] == path[1..] + [k];
      AtExtends(root.functions[path[0]].behind, path[1..], k);
    }
  }

  lemma {:induction false} RegularAt(root: Bus, path: Path, slots: int)
    requires IsPath(root, path) && Regular(root, slots)
    ensures Regular(At(root, path), slots)
    decreases |path|
  {
    if path != [] {
      RegularAt(root.functions[path[0]].behind, path[1..], slots);
    }
  }

  // The bridge at q lies behind the bus at p.
  predicate Under(p: Path, q: Path) {
    |p| < |q| && q[..|p|] == p
  }

  predicate SameAt(regs: Registers, regs': Registers, q: Path) {
    (q in regs <==> q in regs') && (q in regs ==> regs'[q] == regs[q])
  }

  ghost predicate SameOutside(regs: Registers, regs': Registers, p: Path) {
    forall q :: !Under(p, q) ==> SameAt(regs, regs', q)
  }

  // No bridge from slot k of a bus on was set up.
  ghost predicate Fresh(regs: Registers, p: Path, k: int) {
    forall q :: Under(p, q) && q[|p|] >= k ==> q !in regs
  }

  lemma {:induction false} OpenStays(bus: Bus, regs: Registers, regs': Registers, here: Path, path: Path,
          numbers: seq<int>)
    requires Open(bus, regs, here, path, numbers) && forall q :: |q| <= |here| + |path| ==> SameAt(regs, regs', q)
    ensures Open(bus, regs', here, path, numbers)
    decreases |path|
  {
    if path != [] {
      OpenStays(bus.functions[path[0]].behind, regs, regs', here + [path[0]], path[1..], numbers[1..]);
      assert forall k :: SameAt(regs, regs', here + [k]);
    }
  }

  // Opening a bridge of the bus being scanned to all numbers from n on.
  lemma {:induction false} OpenDescends(bus: Bus, regs: Registers, here: Path, path: Path, numbers: seq<int>,
          k: int, n: int, w: Window)
    requires Open(bus, regs, here, path, numbers) && IsPath(bus, path) && VisibleBridge(At(bus, path), k)
    requires numbers[|path|] < n == w.secondary && w.subordinate == MAX_BUS
    requires forall j :: j != k && VisibleBridge(At(bus, path), j) && here + path + [j] in regs ==>
              regs[here + path + [j]].subordinate < n
    ensures Open(bus, regs[here + path + [k] := w], here, path + [k], numbers + [n])
    decreases |path|
  {
    var regs' := regs[here + path + [k] := w];
    if path == [] {
      assert here + path == here && (path + [k])[1..] == [] && (numbers + [n])[1..] == [n];
      forall j | j != k
        ensures here + [j] != here + [k]
      {
        assert (here + [j])[|here|] != (here + [k])[|here|];
      }
    } else {
      var step, behind := path[0], bus.functions[path[0]].behind;
      assert (path + [k])[1..] == path[1..] + [k] && (numbers + [n])[1..] == numbers[1..] + [n];
      assert here + [step] + path[1..] == here + path;
      OpenDescends(behind, regs, here + [step], path[1..], numbers[1..], k, n, w);
      forall j
        ensures here + [j] != here + path + [k]
      {
        assert |here + [j]| < |here + path + [k]|;
      }
    }
  }

  lemma {:induction false} NumberedStays(bus: Bus, regs: Registers, regs': Registers, here: Path, b: int, upTo: int)
    requires 0 <= upTo <= |bus.functions| && Numbered(bus, regs, here, b, upTo)
    requires forall q :: Under(here, q) && q[|here|] < upTo ==> SameAt(regs, regs', q)
    ensures Numbered(bus, regs', here, b, upTo)
    decreases bus, upTo
  {
    forall k | 0 <= k < upTo && VisibleBridge(bus, k)
      ensures SlotNumbered(bus, regs', here, b, k)
    {
      assert SlotNumbered(bus, regs, here, b, k);
      assert (here + [k])[..|here|] == here;
      var behind := bus.functions[k].behind;
      forall q | Under(here + [k], q)
        ensures SameAt(regs, regs', q)
      {
        assert q[..|here|] == (here + [k])[..|here|] && q[|here|] == (here + [k])[|here|];
      }
      NumberedStays(behind, regs, regs', here + [k], Secondary(bus, b, k), |behind.functions|);
    }
  }

  // The path from the bus behind the first bridge on.
  lemma PathTail(bus: Bus, b: int, path: Path)
    requires IsPath(bus, path) && |path| > 1
    ensures IsPath(bus, path[..|path| - 1])
    ensures var behind, n := bus.functions[path[0]].behind, Secondary(bus, b, path[0]);
            && IsPath(behind, path[1..]) && IsPath(behind, path[1..][..|path| - 2])
            && NumberOf(bus, b, path[..|path| - 1]) == NumberOf(behind, n, path[1..][..|path| - 2])
            && NumberOf(bus, b, path) == NumberOf(behind, n, path[1..]) && At(bus, path) == At(behind, path[1..])
  {
    assert path[..|path| - 1][1..] == path[1..][..|path| - 2];
    PrefixIsPath(bus.functions[path[0]].behind, path[1..], |path| - 2);
  }

  lemma {:induction false} PrefixIsPath(bus: Bus, path: Path, n: int)
    requires IsPath(bus, path) && 0 <= n <= |path|
    ensures IsPath(bus, path[..n])
    decreases |path|
  {
    if n > 0 {
      PrefixIsPath(bus.functions[path[0]].behind, path[1..], n - 1);
      assert path[..n][1..] == path[1..][..n - 1];
    }
  }

  lemma FirstNumbered(bus: Bus, regs: Registers, here: Path, b: int, k: int)
    requires Numbered(bus, regs, here, b, |bus.functions|) && VisibleBridge(bus, k)
    ensures var behind, n := bus.functions[k].behind, Secondary(bus, b, k);
            && here + [k] in regs && regs[here + [k]] == Window(b, n, n + Size(behind) - 1, true)
            && Numbered(behind, regs, here + [k], n, |behind.functions|)
  {
  }

  lemma OneStep(bus: Bus, b: int, path: Path)
    requires IsPath(bus, path) && |path| == 1
    ensures path == [path[0]] && IsPath(bus, path[..0]) && NumberOf(bus, b, path[..0]) == b
    ensures NumberOf(bus, b, path) == Secondary(bus, b, path[0]) && At(bus, path) == bus.functions[path[0]].behind
  {
  }

  // The final registers of the bridge in front of the bus at a path.
  lemma {:induction false} NumberedAt(bus: Bus, regs: Registers, here: Path, b: int, path: Path)
    requires Numbered(bus, regs, here, b, |bus.functions|) && IsPath(bus, path) && path != []
    ensures here + path in regs && IsPath(bus, path[..|path| - 1])
    ensures regs[here + path] == Window(NumberOf(bus, b, path[..|path| - 1]), NumberOf(bus, b, path),
                                        NumberOf(bus, b, path) + Size(At(bus, path)) - 1, true)
    decreases |path|
  {
    hide Numbered, NumberOf, At, Size, SizeUpTo;
    var k, behind := path[0], bus.functions[path[0]].behind;
    FirstNumbered(bus, regs, here, b, k);
    if |path| == 1 {
      OneStep(bus, b, path);
    } else {
      PathTail(bus, b, path);
      NumberedAt(behind, regs, here + [k], Secondary(bus, b, k), path[1..]);
      assert here + [k] + path[1..] == here + path;
    }
  }

  datatype Entry = Entry(bus: int, slot: int)

  // The functions the scan lists, those behind a bridge before the bridge itself.
  function Listing(bus: Bus, b: int, k: int): seq<Entry>
    requires 0 <= k <= |bus.functions|
    decreases bus, k
  {
    if k == 0 then []
    else Listing(bus, b, k - 1) + ListedAt(bus, b, k - 1)
  }

  function ListedAt(bus: Bus, b: int, k: int): seq<Entry>
    requires 0 <= k < |bus.functions|
    decreases bus, k, 0
  {
    if !Visible(bus, k) then []
    else if VisibleBridge(bus, k) then
      Listing(bus.functions[k].behind, Secondary(bus, b, k), |bus.functions[k].behind.functions|) + [Entry(b, k)]
    else [Entry(b, k)]
  }

  // A function that the scan must list: one that answers and is function 0 of its device, or
  // whose function 0 has the multi-function bit.
  predicate Answers(bus: Bus, slot: int) {
    0 <= slot < |bus.functions| && !bus.functions[slot].Absent? &&
    (slot % 8 == 0 || (!bus.functions[slot - slot % 8].Absent? && bus.functions[slot - slot % 8].multi))
  }

  lemma VisibleIff(bus: Bus, slot: int)
    ensures Visible(bus, slot) <==> Answers(bus, slot)
    ensures VisibleBridge(bus, slot) <==>
              Answers(bus, slot) && bus.functions[slot].Bridge? && bus.functions[slot - slot % 8].Bridge?
  {
  }

  // The entry names such a function on the bus at a path by the number of that bus.
  predicate NamedBy(bus: Bus, b: int, e: Entry, path: Path) {
    IsPath(bus, path) && Answers(At(bus, path), e.slot) && e.bus == NumberOf(bus, b, path)
  }

  lemma {:induction false} ListedNamed(bus: Bus, b: int, k: int, e: Entry) returns (path: Path)
    requires 0 <= k <= |bus.functions| && e in Listing(bus, b, k)
    ensures NamedBy(bus, b, e, path) && (if path == [] then e.slot else path[0]) < k
    decreases bus, k
  {
    hide Size, SizeUpTo, At, IsPath, NumberOf;
    if e in Listing(bus, b, k - 1) {
      path := ListedNamed(bus, b, k - 1, e);
    } else if e == Entry(b, k - 1) {
      path := [];
      EmptyPath(bus, b);
    } else {
      var behind, n := bus.functions[k - 1].behind, Secondary(bus, b, k - 1);
      var inner := ListedNamed(behind, n, |behind.functions|, e);
      path := [k - 1] + inner;
      LongerPath(bus, b, k - 1, inner);
    }
  }

  lemma EmptyPath(bus: Bus, b: int)
    ensures IsPath(bus, []) && At(bus, []) == bus && NumberOf(bus, b, []) == b
  {
  }

  lemma LongerPath(bus: Bus, b: int, k: int, path: Path)
    requires VisibleBridge(bus, k) && IsPath(bus.functions[k].behind, path)
    ensures IsPath(bus, [k] + path) && At(bus, [k] + path) == At(bus.functions[k].behind, path)
    ensures NumberOf(bus, b, [k] + path) == NumberOf(bus.functions[k].behind, Secondary(bus, b, k), path)
  {
    assert ([k] + path)[1..] == path;
  }

  lemma {:induction false} ListingHas(bus: Bus, b: int, j: int, k: int, e: Entry)
    requires 0 <= j < k <= |bus.functions| && e in ListedAt(bus, b, j)
    ensures e in Listing(bus, b, k)
    decreases k
  {
    if j < k - 1 {
      ListingHas(bus, b, j, k - 1, e);
    }
  }

  lemma {:induction false} NamedListed(bus: Bus, b: int, e: Entry, path: Path)
    requires NamedBy(bus, b, e, path)
    ensures e in Listing(bus, b, |bus.functions|)
    decreases |path|
  {
    hide Size, SizeUpTo, Listing;
    var j := if path == [] then e.slot else path[0];
    if path != [] {
      NamedListed(bus.functions[j].behind, Secondary(bus, b, j), e, path[1..]);
    }
    assert e in ListedAt(bus, b, j);
    ListingHas(bus, b, j, |bus.functions|, e);
  }

  // The listing names exactly those functions, each once.
  lemma ListedIff(bus: Bus, b: int, e: Entry)
    ensures e in Listing(bus, b, |bus.functions|) <==> exists path :: NamedBy(bus, b, e, path)
  {
    hide Listing, NamedBy;
    if e in Listing(bus, b, |bus.functions|) {
      var path := ListedNamed(bus, b, |bus.functions|, e);
    }
    forall path | NamedBy(bus, b, e, path)
      ensures e in Listing(bus, b, |bus.functions|)
    {
      NamedListed(bus, b, e, path);
    }
  }

  ghost predicate Once(entries: seq<Entry>) {
    forall i, j :: 0 <= i < j < |entries| ==> entries[i] != entries[j]
  }

  lemma OnceAdded(first: seq<Entry>, second: seq<Entry>)
    requires Once(first) && Once(second) && forall e :: e in second ==> e !in first
    ensures Once(first + second)
  {
    forall j | 0 <= j < |second|
      ensures second[j] !in first
    {
      assert second[j] in second;
    }
  }

  lemma {:induction false} ListedOnce(bus: Bus, b: int, k: int)
    requires 0 <= k <= |bus.functions|
    ensures Once(Listing(bus, b, k))
    decreases bus, k
  {
    hide Size, SizeUpTo, Once;
    if k > 0 {
      ListedOnce(bus, b, k - 1);
      SingleOnce(Entry(b, k - 1));
      if VisibleBridge(bus, k - 1) {
        var behind, n := bus.functions[k - 1].behind, Secondary(bus, b, k - 1);
        ListedOnce(behind, n, |behind.functions|);
        ListedApart(bus, b, k - 1);
        OnceAdded(Listing(behind, n, |behind.functions|), [Entry(b, k - 1)]);
      } else {
        ListedApart(bus, b, k - 1);
      }
      OnceAdded(Listing(bus, b, k - 1), ListedAt(bus, b, k - 1));
    } else {
      SingleOnce(Entry(b, 0));
    }
  }

  lemma SingleOnce(e: Entry)
    ensures Once([e]) && Once([])
  {
  }

  // What is listed for the slots before the k-th has the bus's own number or one before those of
  // the buses behind the k-th.
  lemma {:induction false} ListedRange(bus: Bus, b: int, k: int, e: Entry)
    requires 0 <= k <= |bus.functions| && e in Listing(bus, b, k)
    ensures (e.bus == b && e.slot < k) || b < e.bus < Secondary(bus, b, k)
    decreases bus, k
  {
    if e in Listing(bus, b, k - 1) {
      ListedRange(bus, b, k - 1, e);
      assert Secondary(bus, b, k - 1) <= Secondary(bus, b, k);
    } else if e != Entry(b, k - 1) {
      assert Secondary(bus, b, k) == Secondary(bus, b, k - 1) + Size(bus.functions[k - 1].behind);
      var behind, n := bus.functions[k - 1].behind, Secondary(bus, b, k - 1);
      ListedRange(behind, n, |behind.functions|, e);
    }
  }

  // What is listed for a slot is not listed for an earlier one, and the bridge itself not behind it.
  lemma ListedApart(bus: Bus, b: int, k: int)
    requires 0 <= k < |bus.functions|
    ensures forall e :: e in ListedAt(bus, b, k) ==> e !in Listing(bus, b, k)
    ensures VisibleBridge(bus, k) ==>
              var behind := bus.functions[k].behind;
              Entry(b, k) !in Listing(behind, Secondary(bus, b, k), |behind.functions|)
  {
    hide Listing, Size, SizeUpTo;
    forall e | e in Listing(bus, b, k)
      ensures (e.bus == b && e.slot < k) || b < e.bus < Secondary(bus, b, k)
    {
      ListedRange(bus, b, k, e);
    }
    if VisibleBridge(bus, k) {
      var behind, n := bus.functions[k].behind, Secondary(bus, b, k);
      forall e | e in Listing(behind, n, |behind.functions|)
        ensures n <= e.bus
      {
        ListedRange(behind, n, |behind.functions|, e);
      }
    }
  }

  // The list holds no more than a fixed number of entries.
  function Kept(entries: seq<Entry>): seq<Entry> {
    if |entries| <= MAX_PCI_DEVICES then entries else entries[..MAX_PCI_DEVICES]
  }

  lemma KeptOf(entries: seq<Entry>)
    ensures |Kept(entries)| <= 255 && (|Kept(entries)| < 255 ==> Kept(entries) == entries)
    ensures (forall e :: e in Kept(entries) ==> e in entries) && (Once(entries) ==> Once(Kept(entries)))
  {
  }

  lemma KeptTwice(a: seq<Entry>, b: seq<Entry>)
    ensures Kept(Kept(a) + b) == Kept(a + b)
  {
  }

  // What the scan of bus b, at a path, has done when it comes to slot k.
  ghost predicate Scanned(bus: Bus, regs: Registers, noOfBuses: int, path: Path, b: int, k: int, regs0: Registers) {
    && 0 <= k <= |bus.functions| && noOfBuses == Secondary(bus, b, k) && Numbered(bus, regs, path, b, k)
    && Fresh(regs, path, k) && SameOutside(regs0, regs, path)
  }

  lemma ScanStarts(bus: Bus, regs: Registers, path: Path, b: int)
    requires Fresh(regs, path, 0)
    ensures Scanned(bus, regs, b + 1, path, b, 0, regs)
  {
  }

  lemma SlotSkipped(bus: Bus, regs: Registers, n: int, path: Path, b: int, k: int, regs0: Registers)
    requires Scanned(bus, regs, n, path, b, k, regs0) && k < |bus.functions| && !VisibleBridge(bus, k)
    ensures Scanned(bus, regs, n, path, b, k + 1, regs0)
  {
  }

  // One register of a bridge written: accesses to the bus it is on still arrive.
  lemma WriteKeepsOpen(root: Bus, regs: Registers, path: Path, numbers: seq<int>, k: int, w: Window)
    requires Open(root, regs, [], path, numbers)
    ensures Open(root, regs[path + [k] := w], [], path, numbers)
  {
    OpenStays(root, regs, regs[path + [k] := w], [], path, numbers);
  }

  // The windows of the bridges already numbered on a bus end before the next number.
  lemma EarlierClosed(bus: Bus, regs: Registers, n: int, path: Path, b: int, k: int, regs0: Registers, j: int)
    requires Scanned(bus, regs, n, path, b, k, regs0) && j != k && VisibleBridge(bus, j) && path + [j] in regs
    ensures regs[path + [j]].subordinate < n
  {
    hide Numbered, Under, SameOutside, SizeUpTo;
    SlotUnder(path, j);
    if j < k {
      NumberedSlot(bus, regs, path, b, k, j);
      SizesGrow(bus, j + 1, k);
    }
  }

  lemma NumberedSlot(bus: Bus, regs: Registers, path: Path, b: int, k: int, j: int)
    requires 0 <= j < k <= |bus.functions| && Numbered(bus, regs, path, b, k) && VisibleBridge(bus, j)
    ensures path + [j] in regs && regs[path + [j]].subordinate == Secondary(bus, b, j + 1) - 1
  {
  }

  lemma SlotUnder(path: Path, j: int)
    ensures Under(path, path + [j]) && (path + [j])[|path|] == j
  {
  }

  lemma UnderSlot(path: Path, k: int, q: Path)
    ensures Under(path + [k], q) ==> Under(path, q) && q[|path|] == k
    ensures Under(path, q) && q[|path|] != k ==> q != path + [k]
  {
  }

  // The bridge at slot k open to all numbers from n on: accesses to bus n will arrive behind it.
  lemma BridgeOpened(root: Bus, regs: Registers, n: int, path: Path, numbers: seq<int>, b: int, k: int,
          regs0: Registers, w: Window)
    requires Open(root, regs, [], path, numbers) && numbers[|path|] == b && IsPath(root, path)
    requires Scanned(At(root, path), regs, n, path, b, k, regs0) && VisibleBridge(At(root, path), k)
    requires w.secondary == n && w.subordinate == MAX_BUS
    ensures Open(root, regs[path + [k] := w], [], path + [k], numbers + [n])
    ensures Fresh(regs[path + [k] := w], path + [k], 0)
  {
    hide Open, Numbered, Fresh, SameOutside, Under;
    var bus := At(root, path);
    SizesGrow(bus, 0, k);
    assert [] + path == path;
    forall j | j != k && VisibleBridge(bus, j) && [] + path + [j] in regs
      ensures regs[[] + path + [j]].subordinate < n
    {
      EarlierClosed(bus, regs, n, path, b, k, regs0, j);
    }
    OpenDescends(root, regs, [], path, numbers, k, n, w);
    FreshBehind(regs, path, k, w);
  }

  lemma FreshBehind(regs: Registers, path: Path, k: int, w: Window)
    requires Fresh(regs, path, k)
    ensures Fresh(regs[path + [k] := w], path + [k], 0)
  {
  }

  // Only what is at or behind slot k changed.
  lemma ChangedBehind(regs: Registers, regs2: Registers, path: Path, k: int, w: Window, w': Window)
    requires SameOutside(regs[path + [k] := w], regs2, path + [k])
    ensures forall q :: !(Under(path, q) && q[|path|] == k) ==> SameAt(regs, regs2[path + [k] := w'], q)
  {
    SlotUnder(path, k);
    forall q | !(Under(path, q) && q[|path|] == k)
      ensures SameAt(regs, regs2[path + [k] := w'], q)
    {
      UnderSlot(path, k, q);
      assert SameAt(regs[path + [k] := w], regs2, q);
    }
  }

  // After everything behind it was numbered, the bridge's window is closed at the last number.
  lemma BridgeClosed(bus: Bus, regs: Registers, regs2: Registers, n: int, path: Path, b: int, k: int,
          regs0: Registers, w: Window)
    requires Scanned(bus, regs, n, path, b, k, regs0) && VisibleBridge(bus, k)
    requires SameOutside(regs[path + [k] := w], regs2, path + [k])
    requires var behind := bus.functions[k].behind; Numbered(behind, regs2, path + [k], n, |behind.functions|)
    ensures var n' := n + Size(bus.functions[k].behind);
            Scanned(bus, regs2[path + [k] := Window(b, n, n' - 1, true)], n', path, b, k + 1, regs0)
  {
    var behind := bus.functions[k].behind;
    var n' := n + Size(behind);
    var last := Window(b, n, n' - 1, true);
    ChangedBehind(regs, regs2, path, k, w, last);
    NumberedCloses(bus, regs, regs2, n, path, b, k, last);
    FrameCloses(regs0, regs, regs2[path + [k] := last], path, k);
  }

  lemma NumberedCloses(bus: Bus, regs: Registers, regs2: Registers, n: int, path: Path, b: int, k: int, last: Window)
    requires 0 <= k < |bus.functions| && VisibleBridge(bus, k) && Numbered(bus, regs, path, b, k)
    requires n == Secondary(bus, b, k)
    requires forall q :: !(Under(path, q) && q[|path|] == k) ==> SameAt(regs, regs2[path + [k] := last], q)
    requires var behind := bus.functions[k].behind; Numbered(behind, regs2, path + [k], n, |behind.functions|)
    requires last == Window(b, n, n + Size(bus.functions[k].behind) - 1, true)
    ensures Numbered(bus, regs2[path + [k] := last], path, b, k + 1)
  {
    hide Numbered, Size;
    var behind, regs3 := bus.functions[k].behind, regs2[path + [k] := last];
    NumberedStays(bus, regs, regs3, path, b, k);
    NumberedStays(behind, regs2, regs3, path + [k], n, |behind.functions|);
    assert SlotNumbered(bus, regs3, path, b, k) by {
      SizeSteps(bus, k);
    }
    NumberedGrows(bus, regs3, path, b, k);
  }

  lemma SizeSteps(bus: Bus, k: int)
    requires VisibleBridge(bus, k)
    ensures SizeUpTo(bus, k + 1) == SizeUpTo(bus, k) + Size(bus.functions[k].behind)
  {
  }

  lemma NumberedGrows(bus: Bus, regs: Registers, here: Path, b: int, k: int)
    requires VisibleBridge(bus, k) && Numbered(bus, regs, here, b, k) && SlotNumbered(bus, regs, here, b, k)
    ensures Numbered(bus, regs, here, b, k + 1)
  {
  }

  lemma FrameCloses(regs0: Registers, regs: Registers, regs3: Registers, path: Path, k: int)
    requires Fresh(regs, path, k) && SameOutside(regs0, regs, path)
    requires forall q :: !(Under(path, q) && q[|path|] == k) ==> SameAt(regs, regs3, q)
    ensures Fresh(regs3, path, k + 1) && SameOutside(regs0, regs3, path)
  {
  }

  lemma ListedBridge(bus: Bus, b: int, k: int, entries: seq<Entry>, entries0: seq<Entry>)
    requires VisibleBridge(bus, k)
    requires var behind := bus.functions[k].behind;
             entries == Kept(Kept(entries0 + Listing(bus, b, k))
                   + Listing(behind, Secondary(bus, b, k), |behind.functions|))
    ensures Kept(entries + [Entry(b, k)]) == Kept(entries0 + Listing(bus, b, k + 1))
  {
    var behind := bus.functions[k].behind;
    var before, inner := entries0 + Listing(bus, b, k), Listing(behind, Secondary(bus, b, k), |behind.functions|);
    KeptTwice(before, inner);
    KeptTwice(before + inner, [Entry(b, k)]);
    assert before + inner + [Entry(b, k)] == entries0 + (Listing(bus, b, k) + (inner + [Entry(b, k)]));
  }

  lemma ListedEndpoint(bus: Bus, b: int, k: int, entries0: seq<Entry>)
    requires Visible(bus, k) && !VisibleBridge(bus, k)
    ensures Kept(Kept(entries0 + Listing(bus, b, k)) + [Entry(b, k)]) == Kept(entries0 + Listing(bus, b, k + 1))
  {
  }

  lemma ListedNothing(bus: Bus, b: int, k: int)
    requires 0 <= k < |bus.functions| && !Visible(bus, k)
    ensures Listing(bus, b, k + 1) == Listing(bus, b, k)
  {
  }

  lemma PushKept(entries: seq<Entry>, e: Entry)
    requires |entries| <= MAX_PCI_DEVICES
    ensures Kept(entries + [e]) == if |entries| < MAX_PCI_DEVICES then entries + [e] else entries
  {
  }

  const RESET := Window(0, 0, 0, true)

  function Held(regs: Registers, bridge: Path): Window {
    if bridge in regs then regs[bridge] else RESET
  }

  lemma ScannedFacts(bus: Bus, regs: Registers, n: int, path: Path, b: int, k: int, regs0: Registers)
    requires Scanned(bus, regs, n, path, b, k, regs0)
    ensures 0 <= k <= |bus.functions| && n == Secondary(bus, b, k)
  {
  }

  lemma ScanEnds(bus: Bus, regs: Registers, n: int, path: Path, b: int, regs0: Registers)
    requires Scanned(bus, regs, n, path, b, |bus.functions|, regs0)
    ensures n == b + Size(bus) && SameOutside(regs0, regs, path) && Numbered(bus, regs, path, b, |bus.functions|)
  {
  }

  lemma OpenRoutes(root: Bus, regs: Registers, path: Path, numbers: seq<int>)
    requires Open(root, regs, [], path, numbers) && numbers[0] == 0 && numbers[|path|] <= MAX_BUS
    ensures |numbers| == |path| + 1 && Route(root, regs, [], 0, numbers[|path|]) == Some(path)
  {
    RouteArrives(root, regs, [], path, numbers);
    assert [] + path == path;
  }

  // The scan behind a bridge leaves the way to the bus it is on, and the bridge itself.
  lemma ScanKeepsOpen(root: Bus, before: Registers, after: Registers, path: Path, numbers: seq<int>, k: int, w: Window)
    requires Open(root, before, [], path, numbers) && SameOutside(before[path + [k] := w], after, path + [k])
    ensures Open(root, after, [], path, numbers)
  {
    forall q | |q| <= |path|
      ensures SameAt(before, after, q)
    {
      assert SameAt(before[path + [k] := w], after, q);
    }
    OpenStays(root, before, after, [], path, numbers);
  }

  lemma BridgeHeld(before: Registers, after: Registers, path: Path, k: int, w: Window)
    requires SameOutside(before[path + [k] := w], after, path + [k])
    ensures Held(after, path + [k]) == w
  {
    assert SameAt(before[path + [k] := w], after, path + [k]);
  }

  lemma NothingListed(bus: Bus, b: int, entries: seq<Entry>)
    requires |entries| <= MAX_PCI_DEVICES
    ensures entries == Kept(entries + Listing(bus, b, 0))
  {
  }

  lemma KeptShort(entries: seq<Entry>)
    ensures |Kept(entries)| <= MAX_PCI_DEVICES
  {
  }

  // The header type remembered from function 0 of a device.
  predicate HeaderOf(bus: Bus, first: int, f: int, multi: bool, bridge: bool)
    requires 0 <= first && (f > 0 ==> first < |bus.functions|)
  {
    f > 0 && !bus.functions[first].Absent? ==>
        multi == bus.functions[first].multi && bridge == bus.functions[first].Bridge?
  }

  // A function that answers is one the scan sees if it is function 0 or the header says so, and
  // is a bridge if the header says so.
  lemma SlotSeen(bus: Bus, d: int, f: int, slots: int, multi: bool, bridge: bool)
    requires Regular(bus, slots) && 0 <= d && 0 <= f < FUNCTIONS && FUNCTIONS * d + f < slots
    requires !bus.functions[FUNCTIONS * d + f].Absent?
    requires HeaderOf(bus, FUNCTIONS * d, f, multi, bridge)
    requires f == 0 ==> multi == bus.functions[FUNCTIONS * d].multi && bridge == bus.functions[FUNCTIONS * d].Bridge?
    ensures Visible(bus, FUNCTIONS * d + f) <==> f == 0 || multi
    ensures Visible(bus, FUNCTIONS * d + f) ==> (VisibleBridge(bus, FUNCTIONS * d + f) <==> bridge)
    ensures HeaderOf(bus, FUNCTIONS * d, f + 1, multi, bridge)
    ensures !Visible(bus, FUNCTIONS * d + f) ==> !VisibleBridge(bus, FUNCTIONS * d + f)
  {
  }

  lemma SlotAbsent(bus: Bus, slot: int)
    requires 0 <= slot < |bus.functions| && bus.functions[slot].Absent?
    ensures !Visible(bus, slot) && !VisibleBridge(bus, slot)
  {
  }

  // The bridge at a path has the number of the bus it is on, and the window of exactly the buses
  // behind it.
  predicate WindowSet(root: Bus, regs: Registers, path: Path)
    requires path != [] && IsPath(root, path)
  {
    && path in regs && IsPath(root, path[..|path| - 1])
    && regs[path] == Window(NumberOf(root, 0, path[..|path| - 1]), NumberOf(root, 0, path),
                            NumberOf(root, 0, path) + Size(At(root, path)) - 1, true)
  }

  class PCIBusHandler {
    // The buses of the machine, which the scan sees only through configuration accesses.
    const root: Bus
    const devices: nat
    var regs: Registers
    var noOfBuses: int
    var entries: seq<Entry>

    constructor (root: Bus, devices: nat)
      ensures this.root == root && this.devices == devices && regs == map[] && noOfBuses == 0 && entries == []
    {
      this.root, this.devices := root, devices;
      regs, noOfBuses, entries := map[], 0, [];
    }

    // The function a configuration read of a slot of bus b arrives at.
    method ReadFunction(b: int, slot: int, ghost path: Path) returns (f: Function)
      requires Route(root, regs, [], 0, b) == Some(path) && IsPath(root, path) && 0 <= slot < |At(root, path).functions|
      ensures f == At(root, path).functions[slot]
    {
      f := At(root, Route(root, regs, [], 0, b).value).functions[slot];
    }

    // A configuration write to a bridge on bus b; what was not written stays.
    method WriteBridge(b: int, slot: int, w: Window, ghost path: Path)
      requires Route(root, regs, [], 0, b) == Some(path)
      modifies this`regs
      ensures regs == old(regs)[path + [slot] := w]
    {
      regs := regs[Route(root, regs, [], 0, b).value + [slot] := w];
    }

    method ReadBridge(b: int, slot: int, ghost path: Path) returns (w: Window)
      requires Route(root, regs, [], 0, b) == Some(path)
      ensures w == Held(regs, path + [slot])
    {
      w := Held(regs, Route(root, regs, [], 0, b).value + [slot]);
    }

    // Opens a bridge to all numbers from the next one on.
    method OpenBridge(b: int, slot: int, ghost path: Path, ghost numbers: seq<int>)
      requires Open(root, regs, [], path, numbers) && numbers[|path|] == b <= MAX_BUS && numbers[0] == 0
      modifies this`regs
      ensures regs == old(regs)[path + [slot] := Window(b, noOfBuses, MAX_BUS, false)]
    {
      hide Open, Route;
      ghost var before := regs;
      OpenRoutes(root, regs, path, numbers);
      var w := ReadBridge(b, slot, path);
      w := w.(decode := false);
      WriteBridge(b, slot, w, path);
      WriteKeepsOpen(root, before, path, numbers, slot, w);
      OpenRoutes(root, regs, path, numbers);
      w := w.(primary := b);
      WriteBridge(b, slot, w, path);
      assert regs == before[path + [slot] := w];
      WriteKeepsOpen(root, before, path, numbers, slot, w);
      OpenRoutes(root, regs, path, numbers);
      w := w.(secondary := noOfBuses);
      WriteBridge(b, slot, w, path);
      assert regs == before[path + [slot] := w];
      WriteKeepsOpen(root, before, path, numbers, slot, w);
      OpenRoutes(root, regs, path, numbers);
      w := w.(subordinate := 0xFF);
      WriteBridge(b, slot, w, path);
      assert regs == before[path + [slot] := w];
    }

    // Closes it at the last number given out.
    method CloseBridge(b: int, slot: int, ghost path: Path, ghost numbers: seq<int>)
      requires Open(root, regs, [], path, numbers) && numbers[|path|] == b <= MAX_BUS && numbers[0] == 0
      modifies this`regs
      ensures regs == old(regs)[path + [slot] :=
                Held(old(regs), path + [slot]).(subordinate := noOfBuses - 1, decode := true)]
      ensures Open(root, regs, [], path, numbers)
    {
      hide Open, Route;
      ghost var before := regs;
      OpenRoutes(root, regs, path, numbers);
      var w := ReadBridge(b, slot, path);
      w := w.(subordinate := noOfBuses - 1);
      WriteBridge(b, slot, w, path);
      WriteKeepsOpen(root, before, path, numbers, slot, w);
      OpenRoutes(root, regs, path, numbers);
      w := ReadBridge(b, slot, path);
      w := w.(decode := true);
      WriteBridge(b, slot, w, path);
      assert regs == before[path + [slot] := w];
      WriteKeepsOpen(root, before, path, numbers, slot, w);
    }

    // Numbers everything behind a bridge.
    method ScanBridge(b: int, slot: int, ghost path: Path, ghost numbers: seq<int>, ghost regs0: Registers)
      requires IsPath(root, path) && Regular(root, FUNCTIONS * devices) && VisibleBridge(At(root, path), slot)
      requires Open(root, regs, [], path, numbers) && numbers[|path|] == b && numbers[0] == 0
      requires Scanned(At(root, path), regs, noOfBuses, path, b, slot, regs0) && b + Size(At(root, path)) <= MAX_BUS + 1
      requires |entries| <= MAX_PCI_DEVICES
      modifies this
      ensures Open(root, regs, [], path, numbers)
      ensures Scanned(At(root, path), regs, noOfBuses, path, b, slot + 1, regs0)
      ensures var behind := At(root, path).functions[slot].behind;
              entries == Kept(old(entries) + Listing(behind, old(noOfBuses), |behind.functions|))
      decreases At(root, path), 0
    {
      hide Open, Scanned, Numbered, Fresh, SameOutside, Under, Listing, SizeUpTo, Route;
      ghost var bus, before, n := At(root, path), regs, noOfBuses;
      ghost var open := Window(b, n, MAX_BUS, false);
      ScannedFacts(bus, regs, n, path, b, slot, regs0);
      SizesGrow(bus, 0, slot);
      SizesGrow(bus, slot, |bus.functions|);
      OpenRoutes(root, regs, path, numbers);
      OpenBridge(b, slot, path, numbers);
      BridgeOpened(root, before, n, path, numbers, b, slot, regs0, open);
      AtExtends(root, path, slot);
      ScanBus(noOfBuses, path + [slot], numbers + [n]);
      ghost var after := regs;
      ScanKeepsOpen(root, before, after, path, numbers, slot, open);
      BridgeHeld(before, after, path, slot, open);
      CloseBridge(b, slot, path, numbers);
      BridgeClosed(bus, before, after, n, path, b, slot, regs0, open);
    }

    // Numbers every bus below bus b, depth first, and lists what it finds.
    method ScanBus(b: int, ghost path: Path, ghost numbers: seq<int>)
      requires IsPath(root, path) && Regular(root, FUNCTIONS * devices)
      requires Open(root, regs, [], path, numbers) && numbers[|path|] == b && numbers[0] == 0
      requires noOfBuses == b && b + Size(At(root, path)) <= MAX_BUS + 1 && Fresh(regs, path, 0)
      requires |entries| <= MAX_PCI_DEVICES
      modifies this
      ensures noOfBuses == b + Size(At(root, path)) && SameOutside(old(regs), regs, path)
      ensures Numbered(At(root, path), regs, path, b, |At(root, path).functions|)
      ensures entries == Kept(old(entries) + Listing(At(root, path), b, |At(root, path).functions|))
      decreases At(root, path), 1
    {
      hide Open, Scanned, Numbered, Fresh, SameOutside, Under, Listing, SizeUpTo, Route, Regular, Kept, Visible;
      hide VisibleBridge;
      ghost var bus, regs0, entries0 := At(root, path), regs, entries;
      RegularAt(root, path, FUNCTIONS * devices);
      ScanStarts(bus, regs, path, b);
      noOfBuses := noOfBuses + 1;
      NothingListed(bus, b, entries);
      var headerMulti := false;
      var headerBridge := false;
      var d := 0;
      while d < devices
        invariant 0 <= d <= devices && Scanned(bus, regs, noOfBuses, path, b, FUNCTIONS * d, regs0)
        invariant Open(root, regs, [], path, numbers) && entries == Kept(entries0 + Listing(bus, b, FUNCTIONS * d))
      {
        var f := 0;
        while f < FUNCTIONS
          invariant 0 <= f <= FUNCTIONS && Scanned(bus, regs, noOfBuses, path, b, FUNCTIONS * d + f, regs0)
          invariant Open(root, regs, [], path, numbers)
          invariant entries == Kept(entries0 + Listing(bus, b, FUNCTIONS * d + f))
          invariant HeaderOf(bus, FUNCTIONS * d, f, headerMulti, headerBridge)
        {
          var slot := FUNCTIONS * d + f;
          OpenRoutes(root, regs, path, numbers);
          var found := ReadFunction(b, slot, path);
          if !found.Absent? {
            if f == 0 {
              headerMulti, headerBridge := found.multi, found.Bridge?;
            }
            SlotSeen(bus, d, f, FUNCTIONS * devices, headerMulti, headerBridge);
            if f == 0 || headerMulti {
              ghost var before, n := entries, noOfBuses;
              KeptShort(entries0 + Listing(bus, b, slot));
              if headerBridge {
                ScannedFacts(bus, regs, noOfBuses, path, b, slot, regs0);
                ScanBridge(b, slot, path, numbers, regs0);
                KeptShort(before + Listing(bus.functions[slot].behind, n, |bus.functions[slot].behind.functions|));
                ListedBridge(bus, b, slot, entries, entries0);
              } else {
                SlotSkipped(bus, regs, noOfBuses, path, b, slot, regs0);
                ListedEndpoint(bus, b, slot, entries0);
              }
              PushKept(entries, Entry(b, slot));
              if |entries| < MAX_PCI_DEVICES {
                entries := entries + [Entry(b, slot)];
              }
            } else {
              SlotSkipped(bus, regs, noOfBuses, path, b, slot, regs0);
              ListedNothing(bus, b, slot);
            }
          } else {
            SlotAbsent(bus, slot);
            SlotSkipped(bus, regs, noOfBuses, path, b, slot, regs0);
            ListedNothing(bus, b, slot);
          }
          f := f + 1;
        }
        d := d + 1;
      }
      ScannedFacts(bus, regs, noOfBuses, path, b, FUNCTIONS * devices, regs0);
      ScanEnds(bus, regs, noOfBuses, path, b, regs0);
    }

    // Scans the whole machine from bus 0. Every bridge ends up with the window of exactly the
    // buses behind it, by depth-first number.
    method Initialize()
      requires Regular(root, FUNCTIONS * devices) && Size(root) <= MAX_BUS + 1 && regs == map[] && entries == []
      modifies this
      ensures noOfBuses == Size(root) && entries == Kept(Listing(root, 0, |root.functions|))
      ensures forall path :: path != [] && IsPath(root, path) ==> WindowSet(root, regs, path)
      ensures Once(entries) && |entries| <= 255
      ensures forall e :: e in entries ==> exists path :: NamedBy(root, 0, e, path)
      ensures |entries| < 255 ==> forall e, path :: NamedBy(root, 0, e, path) ==> e in entries
    {
      hide NamedBy, Listing, Once, Kept;
      noOfBuses := 0;
      ScanBus(0, [], [0]);
      assert [] + Listing(root, 0, |root.functions|) == Listing(root, 0, |root.functions|);
      ListedOnce(root, 0, |root.functions|);
      KeptOf(Listing(root, 0, |root.functions|));
      forall e
        ensures e in Listing(root, 0, |root.functions|) <==> exists path :: NamedBy(root, 0, e, path)
      {
        ListedIff(root, 0, e);
      }
      forall path | path != [] && IsPath(root, path)
        ensures WindowSet(root, regs, path)
      {
        NumberedAt(root, regs, [], 0, path);
        assert [] + path == path;
      }
    }
  }
}
