// The write-back sector cache as a value: its steps and what each of them keeps
// (drivers/DiskCache.h, drivers/DiskCache.cpp).
//
// The cache tree maps a sector to a value object; requests and dirty-list entries hold the
// value's address.  Here every value object has its own identity and a released identity is
// removed from `values`, so following an address after its value was evicted is visible.
module DiskCaches {

  const MAX_CACHE_SECTORS := 32

  datatype DirtyEntry = DirtyEntry(sector: int, value: int)

  function DirtySectors(dirty: seq<DirtyEntry>): (r: set<int>)
    ensures forall s :: s in r <==> exists i :: 0 <= i < |dirty| && dirty[i].sector == s
  {
    set i | 0 <= i < |dirty| :: dirty[i].sector
  }

  // The entries of a release list that may be evicted, in order.
  function Clean(list: seq<int>, dirty: set<int>): (r: seq<int>)
    ensures forall s :: s in r <==> s in list && s !in dirty
  {
    if list == [] then []
    else if list[0] in dirty then Clean(list[1..], dirty)
    else [list[0]] + Clean(list[1..], dirty)
  }

  // The release list behind its first clean entry.
  function AfterFirstClean(list: seq<int>, dirty: set<int>): (rest: seq<int>)
    ensures |rest| <= |list| && rest == list[|list| - |rest|..]
    ensures Clean(list, dirty) == [] ==> rest == []
    ensures Clean(list, dirty) != [] ==>
              && |rest| < |list| && list[|list| - |rest| - 1] == Clean(list, dirty)[0]
              && Clean(rest, dirty) == Clean(list, dirty)[1..]
  {
    if list == [] then []
    else if list[0] in dirty then AfterFirstClean(list[1..], dirty)
    else list[1..]
  }

  function Marked(dirty: seq<DirtyEntry>, sector: int, value: int): seq<DirtyEntry> {
    if sector in DirtySectors(dirty) then dirty else dirty + [DirtyEntry(sector, value)]
  }

  // Every resident sector has its own live value, and a clean one equals the disk.
  ghost predicate Resident<S>(disk: seq<S>, tree: map<int, int>, values: map<int, S>, next: int, dirty: set<int>) {
    && (forall s :: s in tree ==> 0 <= s < |disk| && tree[s] in values)
    && (forall s, t :: s in tree && t in tree && s != t ==> tree[s] != tree[t])
    && (forall v :: v in values ==> v < next)
    && (forall s :: s in tree && s !in dirty ==> values[tree[s]] == disk[s])
  }

  // A dirty-list entry names the live value of its sector, and no sector is listed twice.
  ghost predicate Tracked(tree: map<int, int>, dirty: seq<DirtyEntry>) {
    && (forall i :: 0 <= i < |dirty| ==> dirty[i].sector in tree && tree[dirty[i].sector] == dirty[i].value)
    && (forall i, j :: 0 <= i < j < |dirty| ==> dirty[i].sector != dirty[j].sector)
  }

  // At most 32 sectors are resident; the release list holds distinct resident sectors of a
  // full cache.
  ghost predicate Listed(tree: map<int, int>, list: seq<int>, built: bool) {
    && |tree| <= MAX_CACHE_SECTORS
    && (forall s :: s in list ==> s in tree)
    && (forall i, j :: 0 <= i < j < |list| ==> list[i] != list[j])
    && (built || list != [] ==> |tree| == MAX_CACHE_SECTORS)
  }

  // What a plain array of sectors would hold: the resident value, else the disk value.
  function Merged<S>(disk: seq<S>, tree: map<int, int>, values: map<int, S>): (view: seq<S>)
    ensures |view| == |disk|
    ensures forall s :: 0 <= s < |disk| ==>
              view[s] == if s in tree && tree[s] in values then values[tree[s]] else disk[s]
  {
    seq(|disk|, s requires 0 <= s < |disk| => if s in tree && tree[s] in values then values[tree[s]] else disk[s])
  }

  datatype Cache<S> = Cache(
    disk: seq<S>,
    tree: map<int, int>,
    values: map<int, S>,
    next: int,
    dirty: seq<DirtyEntry>,
    list: seq<int>,
    built: bool)
  {
    ghost predicate Valid() {
      && Resident(disk, tree, values, next, DirtySectors(dirty))
      && Tracked(tree, dirty)
      && Listed(tree, list, built)
    }

    function View(): (view: seq<S>)
      ensures |view| == |disk|
    {
      Merged(disk, tree, values)
    }

    predicate Full() {
      |tree| >= MAX_CACHE_SECTORS
    }

    function Add(sector: int, data: S): Cache<S> {
      this.(tree := tree[sector := next], values := values[next := data], next := next + 1)
    }

    function Update(value: int, data: S): Cache<S> {
      this.(values := values[value := data])
    }

    function MarkDirty(sector: int, value: int): Cache<S> {
      this.(dirty := Marked(dirty, sector, value))
    }

    // A listed sector is always resident; the last guard only makes the function total.
    function Replace(sector: int, data: S): Cache<S> {
      var clean := Clean(list, DirtySectors(dirty));
      if !built then this
      else if clean == [] then this.(list := [], built := false)
      else if clean[0] !in tree then this
      else
        var rest := AfterFirstClean(list, DirtySectors(dirty));
        this.(tree := tree - {clean[0]}, values := values - {tree[clean[0]]}, list := rest, built := rest != [])
            .Add(sector, data)
    }
  }

  // Making an absent sector resident, with any value: only that sector is seen to change, and
  // it needs tracking unless the value is the disk's.
  lemma AddResident<S>(disk: seq<S>, tree: map<int, int>, values: map<int, S>, next: int, dirty: set<int>,
                       sector: int, data: S, dirty': set<int>)
    requires Resident(disk, tree, values, next, dirty) && sector !in tree && 0 <= sector < |disk|
    requires dirty' == dirty + {sector} || (dirty' == dirty && data == disk[sector])
    ensures Resident(disk, tree[sector := next], values[next := data], next + 1, dirty')
    ensures Merged(disk, tree[sector := next], values[next := data]) == Merged(disk, tree, values)[sector := data]
  {
  }

  lemma WriteResident<S>(disk: seq<S>, tree: map<int, int>, values: map<int, S>, next: int, dirty: set<int>,
                         sector: int, data: S)
    requires Resident(disk, tree, values, next, dirty) && sector in tree
    ensures Resident(disk, tree, values[tree[sector] := data], next, dirty + {sector})
    ensures Merged(disk, tree, values[tree[sector] := data]) == Merged(disk, tree, values)[sector := data]
  {
  }

  lemma DropResident<S>(disk: seq<S>, tree: map<int, int>, values: map<int, S>, next: int, dirty: set<int>, victim: int)
    requires Resident(disk, tree, values, next, dirty) && victim in tree && victim !in dirty
    ensures Resident(disk, tree - {victim}, values - {tree[victim]}, next, dirty)
    ensures Merged(disk, tree - {victim}, values - {tree[victim]}) == Merged(disk, tree, values)
  {
  }

  lemma MarkTracked(tree: map<int, int>, dirty: seq<DirtyEntry>, sector: int)
    requires Tracked(tree, dirty) && sector in tree
    ensures var dirty' := Marked(dirty, sector, tree[sector]);
            Tracked(tree, dirty') && DirtySectors(dirty') == DirtySectors(dirty) + {sector}
  {
    var dirty' := Marked(dirty, sector, tree[sector]);
    if sector !in DirtySectors(dirty) {
      assert dirty'[|dirty|].sector == sector;
      assert forall i :: 0 <= i < |dirty| ==> dirty'[i] == dirty[i];
    }
  }

  // Evicting the first clean entry leaves the rest of the list distinct and resident.
  lemma ListedAfterSwap(tree: map<int, int>, list: seq<int>, dirty: set<int>, sector: int, value: int)
    requires Listed(tree, list, true) && sector !in tree && Clean(list, dirty) != []
    ensures var victim, rest := Clean(list, dirty)[0], AfterFirstClean(list, dirty);
            victim in list && victim !in dirty && Listed((tree - {victim})[sector := value], rest, rest != [])
  {
    var victim, rest := Clean(list, dirty)[0], AfterFirstClean(list, dirty);
    assert victim in Clean(list, dirty);
    assert (tree - {victim})[sector := value].Keys == tree.Keys - {victim} + {sector};
    forall s | s in rest
      ensures s in tree - {victim}
    {
      var i :| 0 <= i < |rest| && rest[i] == s;
      assert list[|list| - |rest| + i] == s;
    }
  }

  // The four steps a request takes on the cache, with what each does to the visible sectors.

  lemma AddIsSeen<S>(c: Cache<S>, sector: int, data: S)
    requires c.Valid() && !c.Full() && sector !in c.tree && 0 <= sector < |c.disk|
    ensures var c' := c.Add(sector, data).MarkDirty(sector, c.next);
            c'.Valid() && c'.View() == c.View()[sector := data]
  {
    var dirty := DirtySectors(c.dirty);
    AddResident(c.disk, c.tree, c.values, c.next, dirty, sector, data, dirty + {sector});
    MarkTracked(c.tree[sector := c.next], c.dirty, sector);
  }

  lemma AddCopyUnseen<S>(c: Cache<S>, sector: int)
    requires c.Valid() && !c.Full() && sector !in c.tree && 0 <= sector < |c.disk|
    ensures var c' := c.Add(sector, c.disk[sector]);
            c'.Valid() && c'.View() == c.View()
  {
    var dirty := DirtySectors(c.dirty);
    AddResident(c.disk, c.tree, c.values, c.next, dirty, sector, c.disk[sector], dirty);
  }

  lemma UpdateIsSeen<S>(c: Cache<S>, sector: int, data: S)
    requires c.Valid() && sector in c.tree
    ensures var c' := c.Update(c.tree[sector], data).MarkDirty(sector, c.tree[sector]);
            c'.Valid() && c'.View() == c.View()[sector := data]
  {
    WriteResident(c.disk, c.tree, c.values, c.next, DirtySectors(c.dirty), sector, data);
    MarkTracked(c.tree, c.dirty, sector);
  }

  lemma ReplaceUnseen<S>(c: Cache<S>, sector: int)
    requires c.Valid() && sector !in c.tree && 0 <= sector < |c.disk|
    ensures var c' := c.Replace(sector, c.disk[sector]);
            c'.Valid() && c'.View() == c.View() && |c'.tree| == |c.tree|
  {
    var dirty := DirtySectors(c.dirty);
    var clean := Clean(c.list, dirty);
    if c.built && clean != [] {
      var victim := clean[0];
      var tree, values := c.tree - {victim}, c.values - {c.tree[victim]};
      ListedAfterSwap(c.tree, c.list, dirty, sector, c.next);
      DropResident(c.disk, c.tree, c.values, c.next, dirty, victim);
      AddResident(c.disk, tree, values, c.next, dirty, sector, c.disk[sector], dirty);
      assert Tracked(tree[sector := c.next], c.dirty);
      assert Merged(c.disk, c.tree, c.values)[sector := c.disk[sector]] == Merged(c.disk, c.tree, c.values);
    }
  }

  // The victim goes and the sector comes; without a clean entry the list is given up instead.
  lemma ReplaceIs<S>(c: Cache<S>, sector: int, data: S)
    requires c.Valid() && c.built && sector !in c.tree
    ensures var c', clean := c.Replace(sector, data), Clean(c.list, DirtySectors(c.dirty));
            && c'.disk == c.disk && c'.dirty == c.dirty
            && if clean == [] then c'.tree == c.tree && c'.list == [] && !c'.built
               else c'.tree.Keys == c.tree.Keys - {clean[0]} + {sector} && c'.tree[sector] in c'.values
                    && c'.values[c'.tree[sector]] == data
                    && forall s :: s in c.tree && s != clean[0] ==> c'.tree[s] == c.tree[s]
  {
    assert forall s :: s in Clean(c.list, DirtySectors(c.dirty)) ==> s in c.tree;
  }

  lemma DirectWriteIsSeen<S>(c: Cache<S>, sector: int, data: S)
    requires c.Valid() && sector !in c.tree && 0 <= sector < |c.disk|
    ensures var c' := c.(disk := c.disk[sector := data]);
            c'.Valid() && c'.View() == c.View()[sector := data]
  {
  }

  // Writing the value a dirty-list entry points to, and dropping the entry.
  lemma FlushUnseen<S>(c: Cache<S>)
    requires c.Valid() && c.dirty != []
    ensures var e := c.dirty[0];
            && 0 <= e.sector < |c.disk| && e.value in c.values
            && var c' := c.(disk := c.disk[e.sector := c.values[e.value]], dirty := c.dirty[1..]);
               && c'.Valid() && c'.View() == c.View()
               && DirtySectors(c'.dirty) == DirtySectors(c.dirty) - {e.sector}
  {
  }

  // With an empty dirty list the disk itself is what is seen.
  lemma NothingDirty<S>(c: Cache<S>)
    requires c.Valid() && c.dirty == []
    ensures c.View() == c.disk
  {
  }
}
