// Requests on a drive through its sector cache (drivers/DeviceDrive.cpp).
module DiskDrives {
  import opened Wrappers
  import opened Sectors
  import opened DiskCaches

  const MAX_RELEASE_LIST := 3

  datatype ReadResult<+S> = Read(data: seq<S>) | UsedAfterRelease

  function Misses(tree: map<int, int>, lo: int, hi: int): (m: nat)
    requires lo <= hi
    decreases hi - lo
  {
    if lo == hi then 0 else Misses(tree, lo, hi - 1) + if hi - 1 in tree then 0 else 1
  }

  // The index of the first and of the last of the n sectors from lo on that is not cached, n if
  // all of them are.

  function FirstMiss(tree: map<int, int>, lo: int, n: nat): (first: nat)
    ensures first <= n && (first < n ==> lo + first !in tree)
    ensures forall s :: lo <= s < lo + first ==> s in tree
  {
    if n == 0 then 0
    else
      var first := FirstMiss(tree, lo, n - 1);
      if first < n - 1 || lo + n - 1 !in tree then first else n
  }

  function LastMiss(tree: map<int, int>, lo: int, n: nat): (last: nat)
    ensures last <= n && FirstMiss(tree, lo, n) <= last
    ensures last < n ==> lo + last !in tree
    ensures last == n <==> FirstMiss(tree, lo, n) == n
    ensures forall s :: lo + last < s < lo + n ==> s in tree
  {
    if FirstMiss(tree, lo, n) == n then n
    else if lo + n - 1 !in tree then n - 1
    else LastMiss(tree, lo, n - 1)
  }

  // How many sectors a cache in state c evicts on m misses in a row.
  function Evictions<S>(c: Cache<S>, m: nat): (n: nat)
    ensures n <= |Clean(c.list, DirtySectors(c.dirty))|
  {
    var available := |Clean(c.list, DirtySectors(c.dirty))|;
    if !c.built then 0 else if m <= available then m else available
  }

  // The sectors it evicts: the first clean entries of the release list.
  function Evicted<S>(c: Cache<S>, m: nat): seq<int> {
    Clean(c.list, DirtySectors(c.dirty))[..Evictions(c, m)]
  }

  // A cached sector of the request is evicted by an earlier miss of the request and visited
  // afterwards; sectors behind the last miss are visited before anything is evicted.
  ghost predicate EvictsInside<S>(c: Cache<S>, lo: int, hi: int) {
    exists i, j :: lo <= i < j < hi && i in c.tree && j !in c.tree && i in Evicted(c, Misses(c.tree, lo, i))
  }

  // Which of the values found before a request are still the live values of their sectors:
  // all but those of the sectors in `gone`.
  ghost predicate Alive<S>(tree0: map<int, int>, values0: map<int, S>, tree: map<int, int>, values: map<int, S>,
          gone: seq<int>)
  {
    forall s :: s in tree0 && tree0[s] in values0 ==>
      if s in gone then tree0[s] !in values
      else s in tree && tree[s] == tree0[s] && tree[s] in values && values[tree[s]] == values0[tree[s]]
  }

  // The release list after n evictions.
  ghost predicate ListAfter<S>(c0: Cache<S>, c: Cache<S>, n: nat)
    requires n <= |Clean(c0.list, DirtySectors(c0.dirty))|
  {
    var clean := Clean(c0.list, DirtySectors(c0.dirty));
    && (forall s :: s in c.list ==> s in c0.list)
    && (if c0.built then Clean(c.list, DirtySectors(c.dirty)) == clean[n..] else !c.built)
    && (c0.built && n < |clean| ==> c.built)
  }

  // How far a read that began in c0 has come when the sectors lo..i have been visited.
  ghost predicate ReadUpTo<S>(c0: Cache<S>, c: Cache<S>, lo: int, i: int)
    requires lo <= i
  {
    var misses := Misses(c0.tree, lo, i);
    && c.disk == c0.disk && c.dirty == c0.dirty && c0.next <= c.next
    && (forall s :: s in c.tree ==> s in c0.tree || lo <= s < i)
    && Alive(c0.tree, c0.values, c.tree, c.values, Evicted(c0, misses))
    && ListAfter(c0, c, Evictions(c0, misses))
  }

  lemma ReadHit<S>(c0: Cache<S>, c: Cache<S>, lo: int, i: int)
    requires lo <= i && c0.Valid() && ReadUpTo(c0, c, lo, i) && i in c0.tree
    ensures ReadUpTo(c0, c, lo, i + 1)
  {
  }

  lemma ReadMissAdds<S>(c0: Cache<S>, c: Cache<S>, lo: int, i: int, data: S)
    requires lo <= i && c0.Valid() && ReadUpTo(c0, c, lo, i) && i !in c0.tree && !c0.built
    ensures ReadUpTo(c0, c.Add(i, data), lo, i + 1)
  {
  }

  lemma CleanDistinct(list: seq<int>, dirty: set<int>)
    requires forall i, j :: 0 <= i < j < |list| ==> list[i] != list[j]
    ensures forall i, j :: 0 <= i < j < |Clean(list, dirty)| ==> Clean(list, dirty)[i] != Clean(list, dirty)[j]
  {
  }

  lemma AliveAfterSwap<S>(tree0: map<int, int>, values0: map<int, S>, tree: map<int, int>, values: map<int, S>,
                          gone: seq<int>, victim: int, sector: int, value: int, data: S)
    requires forall s :: s in tree0 ==> tree0[s] in values0 && tree0[s] < value
    requires forall s, t :: s in tree0 && t in tree0 && s != t ==> tree0[s] != tree0[t]
    requires Alive(tree0, values0, tree, values, gone) && victim in tree0 && victim !in gone && sector !in tree0
    ensures Alive(tree0, values0, (tree - {victim})[sector := value], (values - {tree[victim]})[value := data],
              gone + [victim])
  {
  }

  lemma ListAfterSwap<S>(c0: Cache<S>, c: Cache<S>, n: nat, sector: int, data: S)
    requires n < |Clean(c0.list, DirtySectors(c0.dirty))| && c.dirty == c0.dirty && c0.built
    requires ListAfter(c0, c, n) && (forall s :: s in c.list ==> s in c.tree)
    ensures Clean(c.list, DirtySectors(c.dirty))[0] == Clean(c0.list, DirtySectors(c0.dirty))[n]
    ensures ListAfter(c0, c.Replace(sector, data), n + 1)
  {
  }

  // The next eviction takes a sector that is still alive.
  lemma NextVictim<S>(c0: Cache<S>, m: nat)
    requires Listed(c0.tree, c0.list, c0.built) && c0.built
    requires Evictions(c0, m) < |Clean(c0.list, DirtySectors(c0.dirty))|
    ensures var n := Evictions(c0, m);
            var victim := Clean(c0.list, DirtySectors(c0.dirty))[n];
            && Evictions(c0, m + 1) == n + 1 && Evicted(c0, m + 1) == Evicted(c0, m) + [victim]
            && victim in c0.tree && victim !in Evicted(c0, m)
  {
    var clean0 := Clean(c0.list, DirtySectors(c0.dirty));
    CleanDistinct(c0.list, DirtySectors(c0.dirty));
    assert clean0[Evictions(c0, m)] in clean0;
  }

  lemma ReadMissEvicts<S>(c0: Cache<S>, c: Cache<S>, lo: int, i: int, data: S)
    requires Resident(c0.disk, c0.tree, c0.values, c0.next, DirtySectors(c0.dirty))
    requires Listed(c0.tree, c0.list, c0.built)
    requires forall s :: s in c.list ==> s in c.tree
    requires lo <= i && ReadUpTo(c0, c, lo, i) && i !in c0.tree && c0.built
    requires Evictions(c0, Misses(c0.tree, lo, i)) < |Clean(c0.list, DirtySectors(c0.dirty))|
    ensures ReadUpTo(c0, c.Replace(i, data), lo, i + 1)
  {
    var m := Misses(c0.tree, lo, i);
    assert Misses(c0.tree, lo, i + 1) == m + 1;
    NextVictim(c0, m);
    var victim := Clean(c0.list, DirtySectors(c0.dirty))[Evictions(c0, m)];
    ListAfterSwap(c0, c, Evictions(c0, m), i, data);
    AliveAfterSwap(c0.tree, c0.values, c.tree, c.values, Evicted(c0, m), victim, i, c.next, data);
  }

  lemma ReadMissReplaces<S>(c0: Cache<S>, c: Cache<S>, lo: int, i: int, data: S)
    requires lo <= i && c0.Valid() && c.Valid() && ReadUpTo(c0, c, lo, i) && i !in c0.tree && i !in c.tree
    ensures ReadUpTo(c0, c.Replace(i, data), lo, i + 1)
  {
    var n := Evictions(c0, Misses(c0.tree, lo, i));
    if c0.built && n < |Clean(c0.list, DirtySectors(c0.dirty))| {
      ReadMissEvicts(c0, c, lo, i, data);
    } else {
      assert Evictions(c0, Misses(c0.tree, lo, i + 1)) == n;
    }
  }

  lemma NoMisses(tree: map<int, int>, lo: int, i: int)
    requires lo <= i && forall s :: lo <= s < i ==> s in tree
    ensures Misses(tree, lo, i) == 0
    decreases i - lo
  {
  }

  // What a read does to the cache, sector by sector; tree0 is what the request found cached.

  function ReadStep<S>(c: Cache<S>, tree0: map<int, int>, sector: int): (r: Cache<S>)
    requires 0 <= sector < |c.disk|
    ensures |r.disk| == |c.disk|
  {
    if sector in tree0 then c
    else if c.Full() then c.Replace(sector, c.disk[sector])
    else c.Add(sector, c.disk[sector])
  }

  function AfterReads<S>(c: Cache<S>, tree0: map<int, int>, lo: int, i: int): (r: Cache<S>)
    requires 0 <= lo <= i <= |c.disk|
    ensures |r.disk| == |c.disk|
    decreases i - lo
  {
    if lo == i then c else ReadStep(AfterReads(c, tree0, lo, i - 1), tree0, i - 1)
  }

  lemma {:induction false} ReadsNothing<S>(c: Cache<S>, tree0: map<int, int>, lo: int, i: int, j: int)
    requires 0 <= lo <= i <= j <= |c.disk| && forall s :: i <= s < j ==> s in tree0
    ensures AfterReads(c, tree0, lo, j) == AfterReads(c, tree0, lo, i)
    decreases j - i
  {
    hide Cache.Replace, Cache.Add, Cache.Full;
    if i < j {
      ReadsNothing(c, tree0, lo, i, j - 1);
    }
  }

  // A read that began in c0 at sector lo has visited its sectors up to i, and followed the
  // values of all the cached ones from `first` on.
  ghost predicate Reading<S>(c0: Cache<S>, c: Cache<S>, lo: int, first: int, i: int)
    requires 0 <= lo <= first <= i <= |c0.disk|
  {
    && c.Valid() && c.View() == c0.View() && ReadUpTo(c0, c, lo, i) && c == AfterReads(c0, c0.tree, lo, i)
    && (c0.built ==> c.Full())
    && (forall s :: s in c.list ==> s in c0.list)
    && forall s :: first <= s < i && s in c0.tree ==> s !in Evicted(c0, Misses(c0.tree, lo, s))
  }

  lemma NothingMissed<S>(c: Cache<S>, lo: int, i: int)
    requires 0 <= lo <= i <= |c.disk| && c.Valid() && forall s :: lo <= s < i ==> s in c.tree
    ensures Reading(c, c, lo, i, i)
  {
    ReadsNothing(c, c.tree, lo, lo, i);
    NoMisses(c.tree, lo, i);
    assert Clean(c.list, DirtySectors(c.dirty))[0..] == Clean(c.list, DirtySectors(c.dirty));
  }

  // A request whose sectors are all cached.
  lemma HitsOnly<S>(c: Cache<S>, lo: int, n: nat)
    requires 0 <= lo && lo + n <= |c.disk| && FirstMiss(c.tree, lo, n) == n
    ensures c == AfterReads(c, c.tree, lo, lo + n) && !EvictsInside(c, lo, lo + n)
  {
    ReadsNothing(c, c.tree, lo, lo, lo + n);
  }

  lemma NoneLostInside<S>(c0: Cache<S>, c: Cache<S>, lo: int, first: int, last: int, hi: int)
    requires 0 <= lo <= first <= last < hi <= |c0.disk| && Reading(c0, c, lo, first, last + 1)
    requires forall i :: lo <= i < first || last < i < hi ==> i in c0.tree
    ensures !EvictsInside(c0, lo, hi) && c.Valid() && c.View() == c0.View() && c.disk == c0.disk
    ensures c == AfterReads(c0, c0.tree, lo, hi) && forall s :: s in c.list ==> s in c0.list
  {
    ReadsNothing(c0, c0.tree, lo, last + 1, hi);
    forall i | lo <= i < first
      ensures Misses(c0.tree, lo, i) == 0
    {
      NoMisses(c0.tree, lo, i);
    }
  }

  lemma LostInside<S>(c0: Cache<S>, c: Cache<S>, lo: int, first: int, i: int, last: int, hi: int)
    requires 0 <= lo <= first <= i <= last < hi <= |c0.disk| && Reading(c0, c, lo, first, i)
    requires i in c0.tree && last !in c0.tree && i in Evicted(c0, Misses(c0.tree, lo, i))
    ensures EvictsInside(c0, lo, hi) && c.Valid() && c.View() == c0.View() && c.disk == c0.disk
    ensures forall s :: s in c.list ==> s in c0.list
  {
  }

  lemma HitValue<S>(c0: Cache<S>, c: Cache<S>, lo: int, i: int)
    requires lo <= i && c0.Valid() && ReadUpTo(c0, c, lo, i) && i in c0.tree
    ensures c0.tree[i] in c.values <==> i !in Evicted(c0, Misses(c0.tree, lo, i))
    ensures c0.tree[i] in c.values ==> c.values[c0.tree[i]] == c0.View()[i]
  {
  }

  // A cached sector of a request lo..hi that lies between two missing ones.
  ghost predicate Interior(tree: map<int, int>, lo: int, hi: int, s: int) {
    s in tree && exists a, b :: lo <= a < s < b < hi && a !in tree && b !in tree
  }

  function Span(lo: int, hi: int): (r: set<int>)
    ensures forall s :: s in r <==> lo <= s < hi
    decreases hi - lo
  {
    if hi <= lo then {} else Span(lo, hi - 1) + {hi - 1}
  }

  // The sectors of a request that are written before anything is made resident.
  function WrittenFirst(tree: map<int, int>, lo: int, n: nat): set<int> {
    Span(lo, lo + FirstMiss(tree, lo, n)) + Span(lo + LastMiss(tree, lo, n) + 1, lo + n)
  }

  // Whether a write comes upon a cached sector after its eviction.  At sector i the release list
  // is `list`, the dirty sectors are `dirty` and those evicted so far are `gone`: a cached sector
  // becomes dirty, a missing one takes the place of the first clean entry of the list.
  predicate Follows(tree: map<int, int>, list: seq<int>, dirty: set<int>, gone: set<int>, i: int, hi: int)
    decreases hi - i
  {
    if hi <= i then false
    else if i in tree then i in gone || Follows(tree, list, dirty + {i}, gone, i + 1, hi)
    else Follows(tree, AfterFirstClean(list, dirty), dirty, gone + FirstClean(list, dirty), i + 1, hi)
  }

  function FirstClean(list: seq<int>, dirty: set<int>): set<int> {
    var clean := Clean(list, dirty);
    if clean == [] then {} else {clean[0]}
  }

  function Evictable<S>(c: Cache<S>): seq<int> {
    if c.built then c.list else []
  }

  // A write of n sectors from lo on follows an evicted entry.
  predicate WriteEvictsInside<S>(c: Cache<S>, lo: int, n: nat) {
    Follows(c.tree, Evictable(c), DirtySectors(c.dirty) + WrittenFirst(c.tree, lo, n), {}, lo, lo + n)
  }

  lemma {:induction false} FollowsNothing(tree: map<int, int>, dirty: set<int>, other: set<int>, gone: set<int>,
                                          i: int, hi: int)
    ensures Follows(tree, [], dirty, gone, i, hi) == Follows(tree, [], other, gone, i, hi)
    decreases hi - i
  {
    if i < hi {
      if i in tree {
        FollowsNothing(tree, dirty + {i}, other + {i}, gone, i + 1, hi);
      } else {
        assert gone + FirstClean([], dirty) == gone == gone + FirstClean([], other);
        FollowsNothing(tree, dirty, other, gone, i + 1, hi);
      }
    }
  }

  // Cached sectors that are dirty already do not matter at the beginning of the request...
  lemma {:induction false} FollowsFromMiss(tree: map<int, int>, list: seq<int>, dirty: set<int>, i: int, first: int,
                                           hi: int)
    requires i <= first <= hi && forall s :: i <= s < first ==> s in tree && s in dirty
    ensures Follows(tree, list, dirty, {}, i, hi) == Follows(tree, list, dirty, {}, first, hi)
    decreases first - i
  {
    if i < first {
      assert dirty + {i} == dirty;
      FollowsFromMiss(tree, list, dirty, i + 1, first, hi);
    }
  }

  lemma FirstCleanListed(list: seq<int>, dirty: set<int>)
    ensures forall s :: s in AfterFirstClean(list, dirty) ==> s in list
    ensures forall s :: s in FirstClean(list, dirty) ==> s in list && s !in dirty
  {
    var clean := Clean(list, dirty);
    assert clean != [] ==> clean[0] in clean;
  }

  // The release list and the evicted sectors name no cached sector of the request but dirty ones.
  predicate Harmless(tree: map<int, int>, list: seq<int>, dirty: set<int>, gone: set<int>, i: int, hi: int) {
    && (forall s | s in list && i <= s < hi && s in tree :: s in dirty)
    && (forall s | s in gone && i <= s < hi :: s !in tree)
  }

  lemma HarmlessHit(tree: map<int, int>, list: seq<int>, dirty: set<int>, gone: set<int>, i: int, hi: int)
    requires Harmless(tree, list, dirty, gone, i, hi) && i < hi && i in tree
    ensures i !in gone && Harmless(tree, list, dirty + {i}, gone, i + 1, hi)
  {
  }

  lemma HarmlessMiss(tree: map<int, int>, list: seq<int>, dirty: set<int>, gone: set<int>, i: int, hi: int)
    requires Harmless(tree, list, dirty, gone, i, hi)
    ensures Harmless(tree, AfterFirstClean(list, dirty), dirty, gone + FirstClean(list, dirty), i + 1, hi)
  {
    hide AfterFirstClean, FirstClean;
    FirstCleanListed(list, dirty);
  }

  lemma HarmlessAtStart(tree: map<int, int>, list: seq<int>, dirty: set<int>, more: set<int>, i: int, hi: int)
    requires forall s :: s in list && i <= s < hi && s in tree ==> s in dirty || s in more
    ensures Harmless(tree, list, dirty + more, {}, i, hi)
  {
  }

  // Such a request follows no evicted entry.
  lemma {:induction false} NoneFollowed(tree: map<int, int>, list: seq<int>, dirty: set<int>, gone: set<int>, i: int,
                                        hi: int)
    requires Harmless(tree, list, dirty, gone, i, hi)
    ensures !Follows(tree, list, dirty, gone, i, hi)
    decreases hi - i
  {
    hide Harmless, AfterFirstClean, FirstClean;
    if i < hi {
      if i in tree {
        HarmlessHit(tree, list, dirty, gone, i, hi);
        NoneFollowed(tree, list, dirty + {i}, gone, i + 1, hi);
      } else {
        HarmlessMiss(tree, list, dirty, gone, i, hi);
        NoneFollowed(tree, AfterFirstClean(list, dirty), dirty, gone + FirstClean(list, dirty), i + 1, hi);
      }
    }
  }

  predicate DirtyEnd(tree: map<int, int>, dirty: set<int>, gone: set<int>, end: int, hi: int) {
    forall s | end <= s < hi :: s in tree && s in dirty && s !in gone
  }

  lemma DirtyEndKept(tree: map<int, int>, list: seq<int>, dirty: set<int>, gone: set<int>, end: int, hi: int, i: int)
    requires DirtyEnd(tree, dirty, gone, end, hi)
    ensures DirtyEnd(tree, dirty + {i}, gone, end, hi)
    ensures DirtyEnd(tree, dirty, gone + FirstClean(list, dirty), end, hi)
  {
    hide FirstClean;
    FirstCleanListed(list, dirty);
  }

  lemma DirtyEndHarmless(tree: map<int, int>, list: seq<int>, dirty: set<int>, gone: set<int>, end: int, hi: int)
    requires DirtyEnd(tree, dirty, gone, end, hi)
    ensures !Follows(tree, list, dirty, gone, end, hi)
    decreases hi - end
  {
    hide Follows;
    if end < hi {
      assert end in tree && end in dirty && end !in gone;
      assert dirty + {end} == dirty;
      DirtyEndHarmless(tree, list, dirty, gone, end + 1, hi);
      FollowsHit(tree, list, dirty, gone, end, hi);
    } else {
      NothingFollowed(tree, list, dirty, gone, end, hi);
    }
  }

  lemma FollowsHit(tree: map<int, int>, list: seq<int>, dirty: set<int>, gone: set<int>, i: int, hi: int)
    requires i < hi && i in tree
    ensures Follows(tree, list, dirty, gone, i, hi)
            == (i in gone || Follows(tree, list, dirty + {i}, gone, i + 1, hi))
  {
  }

  lemma FollowsMiss(tree: map<int, int>, list: seq<int>, dirty: set<int>, gone: set<int>, i: int, hi: int)
    requires i < hi && i !in tree
    ensures Follows(tree, list, dirty, gone, i, hi)
            == Follows(tree, AfterFirstClean(list, dirty), dirty, gone + FirstClean(list, dirty), i + 1, hi)
  {
    hide AfterFirstClean, FirstClean;
  }

  lemma NothingFollowed(tree: map<int, int>, list: seq<int>, dirty: set<int>, gone: set<int>, i: int, hi: int)
    requires hi <= i
    ensures !Follows(tree, list, dirty, gone, i, hi)
  {
  }

  // ... nor at its end.
  lemma {:induction false} FollowsToMiss(tree: map<int, int>, list: seq<int>, dirty: set<int>, gone: set<int>, i: int,
                                         end: int, hi: int)
    requires i <= end <= hi && DirtyEnd(tree, dirty, gone, end, hi)
    ensures Follows(tree, list, dirty, gone, i, hi) == Follows(tree, list, dirty, gone, i, end)
    decreases end - i
  {
    hide AfterFirstClean, FirstClean, DirtyEnd, Follows;
    DirtyEndKept(tree, list, dirty, gone, end, hi, i);
    if i == end {
      DirtyEndHarmless(tree, list, dirty, gone, end, hi);
      NothingFollowed(tree, list, dirty, gone, end, end);
    } else if i in tree {
      FollowsHit(tree, list, dirty, gone, i, hi);
      FollowsHit(tree, list, dirty, gone, i, end);
      FollowsToMiss(tree, list, dirty + {i}, gone, i + 1, end, hi);
    } else {
      FollowsMiss(tree, list, dirty, gone, i, hi);
      FollowsMiss(tree, list, dirty, gone, i, end);
      FollowsToMiss(tree, AfterFirstClean(list, dirty), dirty, gone + FirstClean(list, dirty), i + 1, end, hi);
    }
  }

  // What a write does to the cache, sector by sector; tree0 is what the request found cached.

  function WriteStep<S>(c: Cache<S>, tree0: map<int, int>, sector: int, data: S): (r: Cache<S>)
    requires 0 <= sector < |c.disk|
    ensures |r.disk| == |c.disk|
  {
    if sector in tree0 then c.Update(tree0[sector], data).MarkDirty(sector, tree0[sector])
    else if c.Full() then c.(disk := c.disk[sector := data]).Replace(sector, data)
    else c.Add(sector, data).MarkDirty(sector, c.next)
  }

  function AfterWrites<S>(c: Cache<S>, tree0: map<int, int>, lo: int, start: int, end: int, data: seq<S>): (r: Cache<S>)
    requires 0 <= start <= end <= |data| && 0 <= lo && lo + |data| <= |c.disk|
    ensures |r.disk| == |c.disk|
    decreases end - start
  {
    if start == end then c
    else WriteStep(AfterWrites(c, tree0, lo, start, end - 1, data), tree0, lo + end - 1, data[end - 1])
  }

  function AfterWrite<S>(c: Cache<S>, lo: int, data: seq<S>): (r: Cache<S>)
    requires 0 <= lo && lo + |data| <= |c.disk|
    ensures |r.disk| == |c.disk|
  {
    var first, last := FirstMiss(c.tree, lo, |data|), LastMiss(c.tree, lo, |data|);
    var c1 := AfterWrites(c, c.tree, lo, 0, first, data);
    if first == |data| then c1
    else AfterWrites(AfterWrites(c1, c.tree, lo, last + 1, |data|, data), c.tree, lo, first, last + 1, data)
  }

  // While there is room, a read leaves all its sectors cached and the device as it is.
  lemma {:induction false} ReadsCached<S>(c: Cache<S>, lo: int, i: int)
    requires 0 <= lo <= i <= |c.disk| && |c.tree| + Misses(c.tree, lo, i) <= 32
    ensures var c' := AfterReads(c, c.tree, lo, i);
            && c'.disk == c.disk && c'.dirty == c.dirty && c'.list == c.list
            && |c'.tree| == |c.tree| + Misses(c.tree, lo, i)
            && forall s :: s in c'.tree <==> s in c.tree || lo <= s < i
    decreases i - lo
  {
    if lo < i {
      ReadsCached(c, lo, i - 1);
    }
  }

  // c' holds the sectors from lo to hi as well, all dirty, m of them new, and the device is as in c.
  ghost predicate Deferred<S>(c: Cache<S>, c': Cache<S>, lo: int, hi: int, m: int) {
    && c'.disk == c.disk && c'.list == c.list && |c'.tree| == |c.tree| + m
    && (forall s :: s in c'.tree <==> s in c.tree || lo <= s < hi)
    && forall s :: s in DirtySectors(c'.dirty) <==> s in DirtySectors(c.dirty) || lo <= s < hi
  }

  lemma StepDeferred<S>(c0: Cache<S>, c: Cache<S>, tree0: map<int, int>, lo: int, sector: int, m: nat, data: S)
    requires lo <= sector && 0 <= sector < |c.disk| && Deferred(c0, c, lo, sector, m)
    requires sector in c0.tree <==> sector in tree0
    requires sector !in tree0 ==> |c0.tree| + m < 32
    ensures Deferred(c0, WriteStep(c, tree0, sector, data), lo, sector + 1, m + if sector in tree0 then 0 else 1)
  {
    hide DirtySectors, Marked, Deferred;
    if sector in tree0 {
      HitDeferred(c0, c, lo, sector, m, tree0[sector], data);
    } else {
      MissDeferred(c0, c, lo, sector, m, data);
    }
  }

  lemma HitDeferred<S>(c0: Cache<S>, c: Cache<S>, lo: int, sector: int, m: nat, value: int, data: S)
    requires lo <= sector && Deferred(c0, c, lo, sector, m) && sector in c0.tree
    ensures Deferred(c0, c.Update(value, data).MarkDirty(sector, value), lo, sector + 1, m)
  {
    hide DirtySectors, Marked;
    MarkedSectors(c.dirty, sector, value);
  }

  lemma MissDeferred<S>(c0: Cache<S>, c: Cache<S>, lo: int, sector: int, m: nat, data: S)
    requires lo <= sector && Deferred(c0, c, lo, sector, m) && sector !in c0.tree && |c0.tree| + m < 32
    ensures !c.Full() && Deferred(c0, c.Add(sector, data).MarkDirty(sector, c.next), lo, sector + 1, m + 1)
  {
    hide DirtySectors, Marked;
    MarkedSectors(c.dirty, sector, c.next);
    TreeGrows(c.tree, sector, c.next);
  }

  lemma TreeGrows(tree: map<int, int>, sector: int, value: int)
    requires sector !in tree
    ensures |tree[sector := value]| == |tree| + 1
    ensures forall s :: s in tree[sector := value] <==> s in tree || s == sector
  {
  }

  lemma {:induction false} WritesDeferred<S>(c: Cache<S>, tree0: map<int, int>, lo: int, start: int, end: int,
                                             data: seq<S>)
    requires 0 <= start <= end <= |data| && 0 <= lo && lo + |data| <= |c.disk|
    requires forall s :: lo + start <= s < lo + end ==> (s in c.tree <==> s in tree0)
    requires |c.tree| + Misses(tree0, lo + start, lo + end) <= 32
    ensures Deferred(c, AfterWrites(c, tree0, lo, start, end, data), lo + start, lo + end,
                     Misses(tree0, lo + start, lo + end))
    decreases end - start
  {
    hide WriteStep, Deferred;
    if start < end {
      WritesDeferred(c, tree0, lo, start, end - 1, data);
      StepDeferred(c, AfterWrites(c, tree0, lo, start, end - 1, data), tree0, lo + start, lo + end - 1,
                   Misses(tree0, lo + start, lo + end - 1), data[end - 1]);
    } else {
      assert Deferred(c, c, lo + start, lo + start, 0) by {
        NothingDeferred(c, lo + start);
      }
    }
  }

  lemma NothingDeferred<S>(c: Cache<S>, lo: int)
    ensures Deferred(c, c, lo, lo, 0)
  {
  }

  lemma MarkedSectors(dirty: seq<DirtyEntry>, sector: int, value: int)
    ensures forall s :: s in DirtySectors(Marked(dirty, sector, value)) <==> s in DirtySectors(dirty) || s == sector
  {
    var dirty' := Marked(dirty, sector, value);
    if sector !in DirtySectors(dirty) {
      assert dirty'[|dirty|].sector == sector;
      assert forall i :: 0 <= i < |dirty| ==> dirty'[i] == dirty[i];
    }
  }

  lemma ThreeDeferred<S>(c: Cache<S>, c1: Cache<S>, c2: Cache<S>, c3: Cache<S>, lo: int, a: int, b: int, hi: int,
                         m: int)
    requires lo <= a <= b <= hi
    requires Deferred(c, c1, lo, a, 0) && Deferred(c1, c2, b, hi, 0) && Deferred(c2, c3, a, b, m)
    ensures Deferred(c, c3, lo, hi, m)
  {
    hide DirtySectors;
  }

  lemma DeferredTree<S>(c: Cache<S>, c': Cache<S>, lo: int, hi: int)
    requires Deferred(c, c', lo, hi, 0) && forall s :: lo <= s < hi ==> s in c.tree
    ensures |c'.tree| == |c.tree| && |c'.disk| == |c.disk| && forall s :: s in c'.tree <==> s in c.tree
  {
  }

  // While there is room, and so for a request that is cached already, a write reaches the cache
  // alone: its sectors are cached and dirty, and the device is as before.
  lemma WriteDeferred<S>(c: Cache<S>, lo: int, data: seq<S>)
    requires 0 <= lo && lo + |data| <= |c.disk| && |c.tree| + Misses(c.tree, lo, lo + |data|) <= 32
    ensures Deferred(c, AfterWrite(c, lo, data), lo, lo + |data|, Misses(c.tree, lo, lo + |data|))
  {
    hide AfterWrites, Deferred, Misses, FirstMiss, LastMiss;
    var n, first, last := |data|, FirstMiss(c.tree, lo, |data|), LastMiss(c.tree, lo, |data|);
    MissesInside(c.tree, lo, first, last, n);
    WritesDeferred(c, c.tree, lo, 0, first, data);
    if first < n {
      MiddleDeferred(c, AfterWrites(c, c.tree, lo, 0, first, data), lo, first, last, data);
    }
  }

  lemma MissesInside(tree: map<int, int>, lo: int, first: int, last: int, n: int)
    requires 0 <= first <= last <= n && (first == n || last < n)
    requires forall s :: lo <= s < lo + first || lo + last < s < lo + n ==> s in tree
    ensures Misses(tree, lo, lo + first) == 0
    ensures first == n ==> Misses(tree, lo, lo + n) == 0
    ensures first < n ==> Misses(tree, lo + last + 1, lo + n) == 0
    ensures first < n ==> Misses(tree, lo + first, lo + last + 1) == Misses(tree, lo, lo + n)
  {
    hide Misses;
    NoMisses(tree, lo, lo + first);
    if first < n {
      NoMisses(tree, lo + last + 1, lo + n);
      MissesAdd(tree, lo, lo + first, lo + last + 1);
      MissesAdd(tree, lo, lo + last + 1, lo + n);
    }
  }

  lemma MiddleDeferred<S>(c: Cache<S>, c1: Cache<S>, lo: int, first: int, last: int, data: seq<S>)
    requires 0 <= lo && lo + |data| <= |c.disk| && 0 <= first <= last < |data|
    requires Deferred(c, c1, lo, lo + first, 0)
    requires forall s :: lo <= s < lo + first || lo + last < s < lo + |data| ==> s in c.tree
    requires Misses(c.tree, lo + last + 1, lo + |data|) == 0
    requires |c.tree| + Misses(c.tree, lo + first, lo + last + 1) <= 32
    ensures |c1.disk| == |c.disk|
    ensures var c2 := AfterWrites(c1, c.tree, lo, last + 1, |data|, data);
            Deferred(c, AfterWrites(c2, c.tree, lo, first, last + 1, data), lo, lo + |data|,
                     Misses(c.tree, lo + first, lo + last + 1))
  {
    hide AfterWrites, Deferred, Misses;
    var n := |data|;
    DeferredTree(c, c1, lo, lo + first);
    WritesDeferred(c1, c.tree, lo, last + 1, n, data);
    var c2 := AfterWrites(c1, c.tree, lo, last + 1, n, data);
    DeferredTree(c1, c2, lo + last + 1, lo + n);
    WritesDeferred(c2, c.tree, lo, first, last + 1, data);
    ThreeDeferred(c, c1, c2, AfterWrites(c2, c.tree, lo, first, last + 1, data), lo, lo + first, lo + last + 1,
                  lo + n, Misses(c.tree, lo + first, lo + last + 1));
  }

  lemma {:induction false} MissesAdd(tree: map<int, int>, lo: int, mid: int, hi: int)
    requires lo <= mid <= hi
    ensures Misses(tree, lo, hi) == Misses(tree, lo, mid) + Misses(tree, mid, hi)
    decreases hi - mid
  {
    if mid < hi {
      MissesAdd(tree, lo, mid, hi - 1);
    }
  }

  // The values found for the request that are no longer live.
  function Gone<S>(tree0: map<int, int>, values: map<int, S>): set<int> {
    set s | s in tree0 && tree0[s] !in values
  }

  lemma GoneIs<S>(tree0: map<int, int>, values: map<int, S>, gone: set<int>)
    requires forall s :: s in gone <==> s in tree0 && tree0[s] !in values
    ensures Gone(tree0, values) == gone
  {
    assert forall s :: s in Gone(tree0, values) ==> s in gone;
    assert forall s :: s in gone ==> s in Gone(tree0, values);
  }

  // What lies ahead of a write that began in c0 and has come to sector i in state c.
  predicate Ahead<S>(c0: Cache<S>, c: Cache<S>, i: int, hi: int) {
    Follows(c0.tree, Evictable(c), DirtySectors(c.dirty), Gone(c0.tree, c.values), i, hi)
  }

  // A write that began in c0 at sector lo has made no other sectors than those before i
  // resident; a value found for a request is either still the live value or gone.
  ghost predicate Writing<S>(c0: Cache<S>, c: Cache<S>, lo: int, i: int) {
    && c.Valid() && |c.disk| == |c0.disk|
    && (forall s :: s in c.list ==> s in c0.list && s in c0.tree)
    && (forall s :: s in c.tree ==> s in c0.tree || lo <= s < i)
    && (forall s :: s in c.tree && s in c0.tree ==> c.tree[s] == c0.tree[s])
    && (forall s :: s in c0.tree && c0.tree[s] in c.values ==> s in c.tree)
    && (forall s :: s in c0.tree ==> c0.tree[s] < c.next)
  }

  lemma WriteBegins<S>(c: Cache<S>, lo: int)
    requires c.Valid()
    ensures Writing(c, c, lo, lo)
  {
  }

  lemma WriteEnds<S>(c0: Cache<S>, c: Cache<S>, lo: int, i: int)
    requires Writing(c0, c, lo, i)
    ensures c.Valid() && |c.disk| == |c0.disk| && forall s :: s in c.list ==> s in c0.list && s in c.tree
  {
  }

  lemma FoundLive<S>(c: Cache<S>, sector: int)
    requires c.Valid() && sector in c.tree
    ensures c.tree[sector] in c.values
  {
  }

  lemma WritingFurther<S>(c0: Cache<S>, c: Cache<S>, lo: int, i: int, j: int)
    requires Writing(c0, c, lo, i) && i <= j
    ensures Writing(c0, c, lo, j)
  {
  }

  lemma WriteHits<S>(c0: Cache<S>, c: Cache<S>, lo: int, i: int, sector: int, data: S)
    requires Writing(c0, c, lo, i) && sector in c0.tree && c0.tree[sector] in c.values && 0 <= sector < |c.disk|
    ensures var c' := WriteStep(c, c0.tree, sector, data);
            && Writing(c0, c', lo, i) && c'.View() == c.View()[sector := data] && c'.values.Keys == c.values.Keys
            && DirtySectors(c'.dirty) == DirtySectors(c.dirty) + {sector}
  {
    UpdateIsSeen(c, sector, data);
    MarkTracked(c.tree, c.dirty, sector);
  }

  lemma WriteAdds<S>(c0: Cache<S>, c: Cache<S>, lo: int, i: int, data: S)
    requires Writing(c0, c, lo, i) && lo <= i && 0 <= i < |c.disk| && i !in c0.tree && !c.Full()
    ensures var c' := WriteStep(c, c0.tree, i, data);
            Writing(c0, c', lo, i + 1) && c'.View() == c.View()[i := data]
  {
    AddIsSeen(c, i, data);
  }

  // With a full cache the sector goes to the disk and replaces a clean resident one, if any.
  lemma WriteReplaces<S>(c0: Cache<S>, c: Cache<S>, lo: int, i: int, data: S)
    requires Writing(c0, c, lo, i) && lo <= i && 0 <= i < |c.disk| && i !in c0.tree && c.Full()
    ensures var c' := WriteStep(c, c0.tree, i, data);
            Writing(c0, c', lo, i + 1) && c'.View() == c.View()[i := data]
  {
    DirectWriteIsSeen(c, i, data);
    var c1 := c.(disk := c.disk[i := data]);
    ReplaceUnseen(c1, i);
    var clean := Clean(c.list, DirtySectors(c.dirty));
    if c.built && clean != [] {
      assert clean[0] in clean;
      ListedAfterSwap(c.tree, c.list, DirtySectors(c.dirty), i, c.next);
      assert forall s :: s in AfterFirstClean(c.list, DirtySectors(c.dirty)) ==> s in c.list;
    }
  }

  // Each step leaves what lies ahead as it was foreseen.

  lemma HitAsForeseen<S>(c0: Cache<S>, c: Cache<S>, i: int, hi: int, data: S)
    requires i in c0.tree && c0.tree[i] in c.values && 0 <= i < |c.disk| && i < hi
    requires Tracked(c.tree, c.dirty) && i in c.tree && c.tree[i] == c0.tree[i]
    ensures Ahead(c0, WriteStep(c, c0.tree, i, data), i + 1, hi) == Ahead(c0, c, i, hi)
  {
    MarkTracked(c.tree, c.dirty, i);
    var c' := WriteStep(c, c0.tree, i, data);
    GoneIs(c0.tree, c'.values, Gone(c0.tree, c.values));
  }

  lemma AddAsForeseen<S>(c0: Cache<S>, c: Cache<S>, i: int, hi: int, data: S)
    requires i !in c0.tree && !c.Full() && !c.built && 0 <= i < |c.disk| && i < hi
    requires forall s :: s in c0.tree ==> c0.tree[s] < c.next
    ensures Ahead(c0, WriteStep(c, c0.tree, i, data), i + 1, hi) == Ahead(c0, c, i, hi)
  {
    var c' := WriteStep(c, c0.tree, i, data);
    var gone := Gone(c0.tree, c.values);
    GoneIs(c0.tree, c'.values, gone);
    assert gone == gone + FirstClean([], DirtySectors(c.dirty));
    FollowsNothing(c0.tree, DirtySectors(c.dirty), DirtySectors(c'.dirty), gone, i + 1, hi);
  }

  lemma ReplaceAsForeseen<S>(c0: Cache<S>, c: Cache<S>, lo: int, i: int, hi: int, data: S)
    requires Writing(c0, c, lo, i) && i !in c0.tree && c.Full() && 0 <= i < |c.disk| && i < hi
    requires forall s, t :: s in c0.tree && t in c0.tree && s != t ==> c0.tree[s] != c0.tree[t]
    ensures Ahead(c0, WriteStep(c, c0.tree, i, data), i + 1, hi) == Ahead(c0, c, i, hi)
  {
    var dirty, gone := DirtySectors(c.dirty), Gone(c0.tree, c.values);
    var clean := Clean(Evictable(c), dirty);
    var c' := WriteStep(c, c0.tree, i, data);
    if clean == [] {
      GoneIs(c0.tree, c'.values, gone);
      assert gone == gone + FirstClean(Evictable(c), dirty);
    } else {
      assert clean[0] in clean;
      GoneIs(c0.tree, c'.values, gone + {clean[0]});
    }
  }

  lemma LostAhead<S>(c0: Cache<S>, c: Cache<S>, i: int, hi: int)
    requires i in c0.tree && c0.tree[i] !in c.values && i < hi
    ensures Ahead(c0, c, i, hi)
  {
  }

  lemma NothingAhead<S>(c0: Cache<S>, c: Cache<S>, hi: int)
    ensures !Ahead(c0, c, hi, hi)
  {
  }

  lemma NothingGone<S>(c: Cache<S>, values: map<int, S>)
    requires c.Valid() && values.Keys == c.values.Keys
    ensures Gone(c.tree, values) == {}
  {
    forall s | s in c.tree
      ensures c.tree[s] in values
    {
      assert c.tree[s] in c.values.Keys;
    }
  }

  lemma WritingFacts<S>(c0: Cache<S>, c: Cache<S>, lo: int, i: int)
    requires Writing(c0, c, lo, i) && c0.Valid()
    ensures |c.disk| == |c0.disk| && (forall s :: s in c.list ==> s in c.tree) && Tracked(c.tree, c.dirty)
    ensures forall s :: s in c0.tree ==> c0.tree[s] < c.next
    ensures forall s, t :: s in c0.tree && t in c0.tree && s != t ==> c0.tree[s] != c0.tree[t]
    ensures forall s :: s in c0.tree && c0.tree[s] in c.values ==> s in c.tree && c.tree[s] == c0.tree[s]
    ensures !c.Full() ==> !c.built
  {
  }

  // A write that began in c0 was in state c when it came to index `from` of the data, and is now
  // at index k, all of from..k having been cached.
  ghost predicate EndsWritten<S>(c0: Cache<S>, c: Cache<S>, now: Cache<S>, lo: int, from: int, k: int, data: seq<S>)
    requires 0 <= from <= k <= |data| && 0 <= lo && lo + |data| <= |c.disk|
  {
    && Writing(c0, now, lo, lo) && now.values.Keys == c0.values.Keys
    && now.View() == Stored(c.View(), lo + from, data[from..k])
    && now == AfterWrites(c, c0.tree, lo, from, k, data)
    && now.list == c.list && now.built == c.built
    && DirtySectors(now.dirty) == DirtySectors(c.dirty) + Span(lo + from, lo + k)
  }

  lemma EndsBegin<S>(c0: Cache<S>, c: Cache<S>, lo: int, from: int, data: seq<S>)
    requires 0 <= from <= |data| && 0 <= lo && lo + |data| <= |c.disk|
    requires Writing(c0, c, lo, lo) && c.values.Keys == c0.values.Keys
    ensures EndsWritten(c0, c, c, lo, from, from, data)
  {
    StoredNothing(c.View(), lo + from, data[from..from]);
  }

  lemma EndsStep<S>(c0: Cache<S>, c: Cache<S>, now: Cache<S>, lo: int, from: int, k: int, data: seq<S>)
    requires 0 <= from <= k < |data| && 0 <= lo && lo + |data| <= |c.disk| == |now.disk|
    requires c0.Valid() && lo + k in c0.tree && EndsWritten(c0, c, now, lo, from, k, data)
    ensures EndsWritten(c0, c, WriteStep(now, c0.tree, lo + k, data[k]), lo, from, k + 1, data)
  {
    hide Stored, Writing, Cache.Valid, Cache.View;
    FoundLive(c0, lo + k);
    WriteHits(c0, now, lo, lo, lo + k, data[k]);
    StoredNext(c.View(), lo, data, from, k);
  }

  lemma EndsFacts<S>(c0: Cache<S>, c: Cache<S>, now: Cache<S>, lo: int, from: int, k: int, data: seq<S>)
    requires 0 <= from <= k <= |data| && 0 <= lo && lo + |data| <= |c.disk|
    requires EndsWritten(c0, c, now, lo, from, k, data)
    ensures Writing(c0, now, lo, lo) && now.values.Keys == c0.values.Keys && |now.disk| == |c0.disk|
  {
    hide Stored, AfterWrites, Cache.Valid, Cache.View;
  }

  // The same for the part with the missing sectors, with what lies ahead up to index `to`.
  ghost predicate MiddleWritten<S>(c0: Cache<S>, c: Cache<S>, now: Cache<S>, lo: int, from: int, k: int, to: int,
          data: seq<S>)
    requires 0 <= from <= k <= to <= |data| && 0 <= lo && lo + |data| <= |c.disk|
  {
    && Writing(c0, now, lo, lo + k)
    && now.View() == Stored(c.View(), lo + from, data[from..k])
    && now == AfterWrites(c, c0.tree, lo, from, k, data)
    && Ahead(c0, now, lo + k, lo + to) == Ahead(c0, c, lo + from, lo + to)
  }

  lemma MiddleBegins<S>(c0: Cache<S>, c: Cache<S>, lo: int, from: int, to: int, data: seq<S>)
    requires 0 <= from <= to <= |data| && 0 <= lo && lo + |data| <= |c.disk| && Writing(c0, c, lo, lo)
    ensures MiddleWritten(c0, c, c, lo, from, from, to, data)
  {
    hide Ahead;
    StoredNothing(c.View(), lo + from, data[from..from]);
  }

  lemma MiddleFacts<S>(c0: Cache<S>, c: Cache<S>, now: Cache<S>, lo: int, from: int, k: int, to: int, data: seq<S>)
    requires 0 <= from <= k <= to <= |data| && 0 <= lo && lo + |data| <= |c.disk|
    requires MiddleWritten(c0, c, now, lo, from, k, to, data)
    ensures Writing(c0, now, lo, lo + k) && now.Valid() && |now.disk| == |c0.disk|
    ensures forall s :: s in now.list ==> s in c0.list
    ensures Ahead(c0, now, lo + k, lo + to) == Ahead(c0, c, lo + from, lo + to)
  {
    hide Ahead, Stored, AfterWrites;
  }

  lemma MiddleStep<S>(c0: Cache<S>, c: Cache<S>, before: Cache<S>, now: Cache<S>, lo: int, from: int, k: int, to: int,
                      data: seq<S>)
    requires 0 <= from <= k < to <= |data| && 0 <= lo && lo + |data| <= |c.disk| == |before.disk|
    requires MiddleWritten(c0, c, before, lo, from, k, to, data)
    requires Writing(c0, now, lo, lo + k + 1) && now.View() == before.View()[lo + k := data[k]]
    requires now == WriteStep(before, c0.tree, lo + k, data[k])
    requires Ahead(c0, now, lo + k + 1, lo + to) == Ahead(c0, before, lo + k, lo + to)
    ensures MiddleWritten(c0, c, now, lo, from, k + 1, to, data)
  {
    hide Ahead, Stored, Writing, WriteStep, Cache.View;
    StoredNext(c.View(), lo, data, from, k);
  }

  lemma MiddleEnds<S>(c0: Cache<S>, c: Cache<S>, now: Cache<S>, lo: int, from: int, to: int, data: seq<S>)
    requires 0 <= from <= to <= |data| && 0 <= lo && lo + |data| <= |c.disk|
    requires MiddleWritten(c0, c, now, lo, from, to, to, data)
    ensures now.Valid() && |now.disk| == |c0.disk| && (forall s :: s in now.list ==> s in c0.list)
    ensures !Ahead(c0, c, lo + from, lo + to)
    ensures now.View() == Stored(c.View(), lo + from, data[from..to])
    ensures now == AfterWrites(c, c0.tree, lo, from, to, data)
  {
    hide Stored, AfterWrites;
    NothingAhead(c0, now, lo + to);
  }

  // With the cached ends of the request written, what lies ahead is its middle.
  lemma WriteAhead<S>(c: Cache<S>, lo: int, n: nat)
    ensures var first, last := FirstMiss(c.tree, lo, n), LastMiss(c.tree, lo, n);
            var dirty := DirtySectors(c.dirty) + WrittenFirst(c.tree, lo, n);
            WriteEvictsInside(c, lo, n)
            == (first < n && Follows(c.tree, Evictable(c), dirty, {}, lo + first, lo + last + 1))
  {
    hide Follows, FirstMiss, LastMiss, Evictable, Span;
    var first, last := FirstMiss(c.tree, lo, n), LastMiss(c.tree, lo, n);
    var dirty := DirtySectors(c.dirty) + WrittenFirst(c.tree, lo, n);
    if first < n {
      FollowsFromMiss(c.tree, Evictable(c), dirty, lo, lo + first, lo + n);
      FollowsToMiss(c.tree, Evictable(c), dirty, {}, lo + first, lo + last + 1, lo + n);
    } else {
      NoneFollowed(c.tree, Evictable(c), dirty, {}, lo, lo + n);
    }
  }

  lemma AllHitsWritten<S>(c0: Cache<S>, c: Cache<S>, lo: int, data: seq<S>)
    requires 0 <= lo && lo + |data| <= |c0.disk| && FirstMiss(c0.tree, lo, |data|) == |data|
    requires EndsWritten(c0, c0, c, lo, 0, |data|, data)
    ensures !WriteEvictsInside(c0, lo, |data|) && c.Valid() && |c.disk| == |c0.disk| && c.list == c0.list
    ensures c.View() == Stored(c0.View(), lo, data) && c == AfterWrite(c0, lo, data)
  {
    hide Stored, Follows, AfterWrites, FirstMiss, LastMiss, WriteEvictsInside, Cache.Valid, Cache.View;
    WriteAhead(c0, lo, |data|);
    WriteEnds(c0, c, lo, lo);
    assert data[0..|data|] == data;
  }

  // The two ends written, the way through the middle tells whether an evicted entry is followed.
  lemma EndsForesee<S>(c0: Cache<S>, c1: Cache<S>, c2: Cache<S>, lo: int, data: seq<S>)
    requires c0.Valid() && 0 <= lo && lo + |data| <= |c0.disk| == |c1.disk|
    requires FirstMiss(c0.tree, lo, |data|) < |data|
    requires EndsWritten(c0, c0, c1, lo, 0, FirstMiss(c0.tree, lo, |data|), data)
    requires EndsWritten(c0, c1, c2, lo, LastMiss(c0.tree, lo, |data|) + 1, |data|, data)
    ensures var first, last := FirstMiss(c0.tree, lo, |data|), LastMiss(c0.tree, lo, |data|);
            WriteEvictsInside(c0, lo, |data|) == Ahead(c0, c2, lo + first, lo + last + 1)
  {
    hide Stored, Follows, AfterWrites, FirstMiss, LastMiss, WriteEvictsInside, Cache.Valid, Cache.View, Writing, Span,
         Gone;
    WriteAhead(c0, lo, |data|);
    NothingGone(c0, c2.values);
    assert DirtySectors(c2.dirty) == DirtySectors(c0.dirty) + WrittenFirst(c0.tree, lo, |data|);
  }

  lemma AllPartsWritten<S>(c0: Cache<S>, c1: Cache<S>, c2: Cache<S>, c3: Cache<S>, lo: int, data: seq<S>)
    requires 0 <= lo && lo + |data| <= |c0.disk| == |c1.disk| == |c2.disk|
    requires FirstMiss(c0.tree, lo, |data|) < |data|
    requires EndsWritten(c0, c0, c1, lo, 0, FirstMiss(c0.tree, lo, |data|), data)
    requires EndsWritten(c0, c1, c2, lo, LastMiss(c0.tree, lo, |data|) + 1, |data|, data)
    requires var first, last := FirstMiss(c0.tree, lo, |data|), LastMiss(c0.tree, lo, |data|);
             && c3.View() == Stored(c2.View(), lo + first, data[first..last + 1])
             && c3 == AfterWrites(c2, c0.tree, lo, first, last + 1, data)
    ensures c3.View() == Stored(c0.View(), lo, data) && c3 == AfterWrite(c0, lo, data)
  {
    hide Stored, AfterWrites, FirstMiss, LastMiss, Cache.View, Writing, Span;
    var first, last := FirstMiss(c0.tree, lo, |data|), LastMiss(c0.tree, lo, |data|);
    StoredInThreeParts(c0.View(), lo, data, first, last + 1);
    assert data[..first] == data[0..first] && data[last + 1..] == data[last + 1..|data|];
  }

  // What a request for the sectors from lo on found cached, wants, and finds on the device. All
  // sectors before first and behind last are cached, last is not.
  ghost predicate Requested<S>(c: Cache<S>, lo: int, found: seq<Option<int>>, want: seq<S>, raw: seq<S>,
          first: int, last: int) {
    && 0 <= lo <= lo + |found| <= |c.disk| && 0 <= first <= last < |found| == |want| == |raw|
    && (forall k :: 0 <= k < |found| ==> found[k] == if lo + k in c.tree then Some(c.tree[lo + k]) else None)
    && (forall k :: 0 <= k < |found| ==> want[k] == c.View()[lo + k] && raw[k] == c.disk[lo + k])
    && (forall s :: lo <= s < lo + first || lo + last < s < lo + |found| ==> s in c.tree)
    && found[last].None?
  }

  lemma RequestedAt<S>(c: Cache<S>, lo: int, found: seq<Option<int>>, want: seq<S>, raw: seq<S>, first: int,
          last: int, k: int)
    requires Requested(c, lo, found, want, raw, first, last) && 0 <= k < |found|
    ensures 0 <= lo + k < |c.disk| && found[k] == (if lo + k in c.tree then Some(c.tree[lo + k]) else None)
    ensures want[k] == c.View()[lo + k] && raw[k] == c.disk[lo + k]
  {
  }

  lemma RequestedFacts<S>(c: Cache<S>, lo: int, found: seq<Option<int>>, want: seq<S>, raw: seq<S>, first: int,
          last: int)
    requires Requested(c, lo, found, want, raw, first, last)
    ensures forall s :: lo <= s < lo + first || lo + last < s < lo + |found| ==> s in c.tree
    ensures 0 <= lo && 0 <= first <= last < |found| && lo + last !in c.tree
  {
  }

  // The wanted sectors up to k and behind last, and what the device held in between.
  ghost predicate HalfRead<S>(data: seq<S>, want: seq<S>, raw: seq<S>, k: int, last: int) {
    && |data| == |want| == |raw|
    && (forall j :: 0 <= j < |data| && (j < k || last < j) ==> data[j] == want[j])
    && (forall j :: 0 <= j < |data| && k <= j <= last ==> data[j] == raw[j])
  }

  lemma HalfReadStep<S>(data: seq<S>, want: seq<S>, raw: seq<S>, k: int, last: int)
    requires HalfRead(data, want, raw, k, last) && 0 <= k <= last < |data|
    ensures data[k] == raw[k] && HalfRead(data[k := want[k]], want, raw, k + 1, last)
  {
  }

  lemma HalfReadDone<S>(data: seq<S>, want: seq<S>, raw: seq<S>, last: int)
    requires HalfRead(data, want, raw, last + 1, last)
    ensures data == want
  {
  }

  // How many entries a flush with this limit writes back, and what it leaves.

  function Flushes<S>(c: Cache<S>, limit: int): nat {
    if 0 <= limit <= |c.dirty| then limit else |c.dirty|
  }

  function FlushStep<S>(c: Cache<S>): (r: Cache<S>)
    ensures |r.disk| == |c.disk|
  {
    if c.dirty == [] || !(0 <= c.dirty[0].sector < |c.disk|) || c.dirty[0].value !in c.values then c
    else c.(disk := c.disk[c.dirty[0].sector := c.values[c.dirty[0].value]], dirty := c.dirty[1..])
  }

  function AfterFlush<S>(c: Cache<S>, n: nat): (r: Cache<S>)
    ensures |r.disk| == |c.disk|
  {
    if n == 0 then c else FlushStep(AfterFlush(c, n - 1))
  }

  // A release list that a ranking may build.
  predicate Rankable<S>(c: Cache<S>, ranked: seq<int>) {
    && |ranked| <= MAX_RELEASE_LIST
    && (forall s :: s in ranked ==> s in c.tree)
    && (forall s :: s in ranked ==> s !in DirtySectors(c.dirty) || s in c.list)
    && (forall i, j :: 0 <= i < j < |ranked| ==> ranked[i] != ranked[j])
  }

  // A ranking would build a list that is none, such as one that names a sector twice.
  predicate Misranked<S>(c: Cache<S>, ranked: seq<int>) {
    c.Full() && !c.built && !Rankable(c, ranked)
  }

  function Ranked<S>(c: Cache<S>, ranked: seq<int>): Cache<S> {
    if !c.Full() || c.built then c else c.(list := ranked, built := |ranked| == MAX_RELEASE_LIST)
  }

  lemma FoundValues<S>(c: Cache<S>, lo: int, found: seq<Option<int>>)
    requires c.Valid() && 0 <= lo && lo + |found| <= |c.disk|
    requires forall k :: 0 <= k < |found| ==> found[k] == if lo + k in c.tree then Some(c.tree[lo + k]) else None
    ensures forall k :: 0 <= k < |found| && found[k].Some? ==>
              found[k].value in c.values && c.values[found[k].value] == c.View()[lo + k]
  {
  }

  lemma RequestIs<S>(c: Cache<S>, lo: int, found: seq<Option<int>>, want: seq<S>, raw: seq<S>)
    requires 0 <= lo && lo + |found| <= |c.disk| && FirstMiss(c.tree, lo, |found|) < |found|
    requires forall k :: 0 <= k < |found| ==> found[k] == if lo + k in c.tree then Some(c.tree[lo + k]) else None
    requires want == c.View()[lo..lo + |found|] && raw == c.disk[lo..lo + |found|]
    ensures Requested(c, lo, found, want, raw, FirstMiss(c.tree, lo, |found|), LastMiss(c.tree, lo, |found|))
  {
    hide FirstMiss, LastMiss, Cache.View;
    var first, last := FirstMiss(c.tree, lo, |found|), LastMiss(c.tree, lo, |found|);
    assert forall s :: lo <= s < lo + first || lo + last < s < lo + |found| ==> s in c.tree;
  }

  // The resident ends copied and the middle read from the device.
  lemma HalfReadBegins<S>(data: seq<S>, middle: seq<S>, want: seq<S>, device: seq<S>, lo: int, first: int, last: int)
    requires 0 <= first <= last < |data| == |want| && 0 <= lo && lo + |data| <= |device|
    requires |middle| == last - first + 1 && middle == device[lo + first..lo + first + |middle|]
    requires forall k :: 0 <= k < first || last < k < |data| ==> data[k] == want[k]
    ensures HalfRead(data[..first] + middle + data[last + 1..], want, device[lo..lo + |data|], first, last)
  {
  }

  class DiskDrive<S(0)> {
    const lbaStart: nat
    var disk: seq<S>
    var tree: map<int, int>
    var values: map<int, S>
    var nextValue: int
    var dirty: seq<DirtyEntry>
    var releaseList: seq<int>
    var releaseListBuilt: bool

    function State(): Cache<S>
      reads this
    {
      Cache(disk, tree, values, nextValue, dirty, releaseList, releaseListBuilt)
    }

    ghost predicate Valid()
      reads this
    {
      lbaStart <= |disk| && State().Valid()
    }

    function View(): (view: seq<S>)
      reads this
      ensures |view| == |disk|
    {
      State().View()
    }

    constructor (disk: seq<S>, lbaStart: nat)
      requires lbaStart <= |disk|
      ensures Valid() && View() == disk && this.lbaStart == lbaStart && releaseList == []
    {
      this.lbaStart := lbaStart;
      this.disk := disk;
      tree, values, nextValue, dirty := map[], map[], 0, [];
      releaseList, releaseListBuilt := [], false;
      new;
      NothingDirty(State());
    }

    predicate Full()
      reads this
    {
      |tree| >= MAX_CACHE_SECTORS
    }

    // The device commands, as a total array of sectors.
    method RawRead(start: int, count: int) returns (data: seq<S>)
      requires 0 <= start <= start + count <= |disk|
      ensures data == disk[start..start + count]
    {
      data := disk[start..start + count];
    }

    method RawWrite(sector: int, data: S)
      requires 0 <= sector < |disk|
      modifies `disk
      ensures State() == old(State()).(disk := old(disk)[sector := data])
    {
      disk := disk[sector := data];
    }

    method Add(sector: int, data: S) returns (value: int)
      modifies `tree, `values, `nextValue
      ensures State() == old(State()).Add(sector, data) && value == old(nextValue)
    {
      value := nextValue;
      nextValue := nextValue + 1;
      values := values[value := data];
      tree := tree[sector := value];
    }

    method InsertToDirtyList(sector: int, value: int)
      modifies `dirty
      ensures State() == old(State()).MarkDirty(sector, value)
    {
      if !exists e | e in dirty :: e.sector == sector {
        dirty := dirty + [DirtyEntry(sector, value)];
      }
    }

    // Pops the release list up to its first clean entry.
    method PopVictim() returns (victim: Option<int>)
      modifies `releaseList
      ensures match victim
              case None => Clean(old(releaseList), DirtySectors(dirty)) == [] && releaseList == []
              case Some(v) =>
                && Clean(old(releaseList), DirtySectors(dirty)) != []
                && v == Clean(old(releaseList), DirtySectors(dirty))[0]
                && releaseList == AfterFirstClean(old(releaseList), DirtySectors(dirty))
    {
      while releaseList != []
        invariant Clean(releaseList, DirtySectors(dirty)) == Clean(old(releaseList), DirtySectors(dirty))
        invariant AfterFirstClean(releaseList, DirtySectors(dirty)) ==
                  AfterFirstClean(old(releaseList), DirtySectors(dirty))
        decreases |releaseList|
      {
        var node := releaseList[0];
        releaseList := releaseList[1..];
        if !exists i | 0 <= i < |dirty| :: dirty[i].sector == node {
          return Some(node);
        }
      }
      return None;
    }

    // Evicts the first clean entry of the release list and makes `sector` resident; without a
    // built list nothing is evicted.
    method ReplaceCache(sector: int, data: S)
      requires forall s :: s in releaseList ==> s in tree
      modifies `tree, `values, `nextValue, `releaseList, `releaseListBuilt
      ensures State() == old(State()).Replace(sector, data)
    {
      if !releaseListBuilt {
        return;
      }
      var victim := PopVictim();
      if victim.None? {
        releaseListBuilt := false;
        return;
      }
      assert victim.value in Clean(old(releaseList), DirtySectors(dirty));
      values := values - {tree[victim.value]};
      tree := tree - {victim.value};
      var _ := Add(sector, data);
      releaseListBuilt := releaseList != [];
    }

    // The cached values of a request, with the indices of its first and last missing sector.
    method Lookup(lo: int, count: int) returns (found: seq<Option<int>>, firstBreak: int, lastBreak: int)
      requires 0 <= count
      ensures |found| == count
      ensures forall k :: 0 <= k < count ==> found[k] == if lo + k in tree then Some(tree[lo + k]) else None
      ensures firstBreak == FirstMiss(tree, lo, count) && lastBreak == LastMiss(tree, lo, count)
    {
      found, firstBreak, lastBreak := [], count, count;
      for k := 0 to count
        invariant |found| == k
        invariant forall j :: 0 <= j < k ==> found[j] == if lo + j in tree then Some(tree[lo + j]) else None
        invariant firstBreak == if FirstMiss(tree, lo, k) == k then count else FirstMiss(tree, lo, k)
        invariant lastBreak == if LastMiss(tree, lo, k) == k then count else LastMiss(tree, lo, k)
      {
        if lo + k in tree {
          found := found + [Some(tree[lo + k])];
        } else {
          found := found + [None];
          if firstBreak == count {
            firstBreak := k;
          }
          lastBreak := k;
        }
      }
    }

    // The sectors before the first and behind the last missing one come from the cache.
    method CopyResident(found: seq<Option<int>>, firstBreak: int, lastBreak: int,
            ghost want: seq<S>) returns (data: seq<S>)
      requires 0 <= firstBreak <= lastBreak <= |found| == |want|
      requires forall k :: 0 <= k < firstBreak || lastBreak < k < |found| ==>
                 found[k].Some? && found[k].value in values && values[found[k].value] == want[k]
      ensures |data| == |found|
      ensures forall k :: 0 <= k < firstBreak || lastBreak < k < |found| ==> data[k] == want[k]
    {
      var anything: S := *;
      data := seq(|found|, _ => anything);
      for k := 0 to firstBreak
        invariant |data| == |found|
        invariant forall j :: 0 <= j < k ==> data[j] == want[j]
      {
        data := data[k := values[found[k].value]];
      }
      var k := lastBreak + 1;
      while k < |found|
        invariant lastBreak < k && |data| == |found|
        invariant forall j :: 0 <= j < firstBreak || (lastBreak < j < |found| && j < k) ==> data[j] == want[j]
      {
        data := data[k := values[found[k].value]];
        k := k + 1;
      }
    }

    // A read sees the plain array, unless a sector it found cached is evicted before its turn.
    method Read(startSector: nat, count: nat) returns (r: ReadResult<S>)
      requires Valid() && lbaStart + startSector + count <= |disk|
      modifies this
      ensures Valid() && View() == old(View()) && disk == old(disk)
      ensures forall s :: s in releaseList ==> s in old(releaseList)
      ensures var lo := lbaStart + startSector;
              && (r == UsedAfterRelease <==> EvictsInside(old(State()), lo, lo + count))
              && (r.Read? ==> r.data == View()[lo..lo + count]
                              && State() == AfterReads(old(State()), old(tree), lo, lo + count))
    {
      hide AfterReads, EvictsInside, FirstMiss, LastMiss, Requested, HalfRead, Cache.Valid, Cache.View;
      var lo := lbaStart + startSector;
      ghost var want := View()[lo..lo + count];
      var found, firstBreak, lastBreak := Lookup(lo, count);
      FoundValues(State(), lo, found);
      var data := CopyResident(found, firstBreak, lastBreak, want);
      if firstBreak < count {
        var raw := RawRead(lo + firstBreak, lastBreak - firstBreak + 1);
        RequestIs(State(), lo, found, want, disk[lo..lo + count]);
        HalfReadBegins(data, raw, want, disk, lo, firstBreak, lastBreak);
        data := data[..firstBreak] + raw + data[lastBreak + 1..];
        r := FetchMisses(lo, found, firstBreak, lastBreak, data, want, disk[lo..lo + count]);
      } else {
        HitsOnly(State(), lo, count);
        r := ReadResult.Read(data);
      }
    }

    // Makes the missing sectors resident and reads the resident ones among them.
    method FetchMisses(lo: int, found: seq<Option<int>>, firstBreak: int, lastBreak: int, buffer: seq<S>,
                       ghost want: seq<S>, ghost raw: seq<S>)
      returns (r: ReadResult<S>)
      requires State().Valid() && 0 <= lo <= lo + |found| <= |disk|
      requires 0 <= firstBreak <= lastBreak < |found| == |buffer|
      requires Requested(State(), lo, found, want, raw, firstBreak, lastBreak)
      requires HalfRead(buffer, want, raw, firstBreak, lastBreak)
      modifies this
      ensures State().Valid() && State().View() == old(State().View()) && disk == old(disk)
      ensures forall s :: s in releaseList ==> s in old(releaseList)
      ensures r == UsedAfterRelease <==> EvictsInside(old(State()), lo, lo + |found|)
      ensures r.Read? ==> r.data == want && State() == AfterReads(old(State()), old(tree), lo, lo + |found|)
    {
      hide Reading, EvictsInside, Resident, Tracked, Listed, Misses, Evicted, Merged, HalfRead, Requested, AfterReads;
      hide Cache.Valid, Cache.View;
      ghost var c0 := State();
      var data := buffer;
      RequestedFacts(c0, lo, found, want, raw, firstBreak, lastBreak);
      NothingMissed(c0, lo, lo + firstBreak);
      for k := firstBreak to lastBreak + 1
        invariant Reading(c0, State(), lo, lo + firstBreak, lo + k)
        invariant |data| == |found| && HalfRead(data, want, raw, k, lastBreak)
      {
        HalfReadStep(data, want, raw, k, lastBreak);
        RequestedAt(c0, lo, found, want, raw, firstBreak, lastBreak, k);
        var got := FetchOne(c0, lo, lo + firstBreak, lo + k, found[k], data[k]);
        if got.None? {
          LostInside(c0, State(), lo, lo + firstBreak, lo + k, lo + lastBreak, lo + |found|);
          return UsedAfterRelease;
        }
        data := data[k := got.value];
      }
      NoneLostInside(c0, State(), lo, lo + firstBreak, lo + lastBreak, lo + |found|);
      HalfReadDone(data, want, raw, lastBreak);
      r := ReadResult.Read(data);
    }

    // One sector of the middle part: a missing one is cached if there is room or something to
    // evict, a cached one is read from the value found for it, if that is still there.
    method FetchOne(ghost c0: Cache<S>, ghost lo: int, ghost first: int, sector: int, pointer: Option<int>, data: S)
      returns (got: Option<S>)
      requires c0.Valid() && 0 <= lo <= first <= sector < |c0.disk| && Reading(c0, State(), lo, first, sector)
      requires pointer == if sector in c0.tree then Some(c0.tree[sector]) else None
      requires data == c0.disk[sector]
      modifies this
      ensures got.Some? ==> Reading(c0, State(), lo, first, sector + 1) && got.value == c0.View()[sector]
      ensures got.None? ==>
                State() == old(State()) && sector in c0.tree && sector in Evicted(c0, Misses(c0.tree, lo, sector))
    {
      ghost var c := State();
      if pointer.None? {
        if Full() {
          ReplaceUnseen(c, sector);
          ReadMissReplaces(c0, c, lo, sector, data);
          ReplaceCache(sector, data);
        } else {
          AddCopyUnseen(c, sector);
          ReadMissAdds(c0, c, lo, sector, data);
          var _ := Add(sector, data);
        }
        got := Some(data);
      } else {
        HitValue(c0, c, lo, sector);
        if pointer.value !in values {
          return None;
        }
        ReadHit(c0, c, lo, sector);
        got := Some(values[pointer.value]);
      }
    }

    // A write is seen as the plain array's, unless a cached sector of the request is evicted
    // before its turn.
    method Write(startSector: nat, data: seq<S>) returns (ok: bool)
      requires Valid() && lbaStart + startSector + |data| <= |disk|
      modifies this
      ensures Valid() && |disk| == |old(disk)|
      ensures forall s :: s in releaseList ==> s in old(releaseList)
      ensures var lo := lbaStart + startSector;
              && (ok <==> !WriteEvictsInside(old(State()), lo, |data|))
              && (ok ==> View() == Stored(old(View()), lo, data) && State() == AfterWrite(old(State()), lo, data))
    {
      hide Stored, AfterWrite, AfterWrites, EndsWritten, Writing, WriteEvictsInside, Ahead, FirstMiss, LastMiss;
      hide Cache.Valid, Cache.View;
      var lo := lbaStart + startSector;
      ghost var c0 := State();
      var found, firstBreak, lastBreak := Lookup(lo, |data|);
      WriteBegins(c0, lo);
      WriteResidents(c0, lo, found, 0, firstBreak, data);
      ghost var c1 := State();
      if firstBreak < |data| {
        EndsFacts(c0, c0, c1, lo, 0, firstBreak, data);
        WriteResidents(c0, lo, found, lastBreak + 1, |data|, data);
        ghost var c2 := State();
        EndsFacts(c0, c1, c2, lo, lastBreak + 1, |data|, data);
        EndsForesee(c0, c1, c2, lo, data);
        ok := WriteMisses(c0, lo, found, firstBreak, lastBreak + 1, data);
        if ok {
          AllPartsWritten(c0, c1, c2, State(), lo, data);
        }
      } else {
        AllHitsWritten(c0, c1, lo, data);
        ok := true;
      }
    }

    // Part from..to of a request, all of it cached.
    method WriteResidents(ghost c0: Cache<S>, lo: int, found: seq<Option<int>>, from: int, to: int, data: seq<S>)
      requires Writing(c0, State(), lo, lo) && values.Keys == c0.values.Keys && c0.Valid()
      requires 0 <= from <= to <= |data| == |found| && 0 <= lo && lo + |data| <= |disk|
      requires forall k :: from <= k < to ==> found[k].Some? && lo + k in c0.tree && found[k].value == c0.tree[lo + k]
      modifies `values, `dirty
      ensures EndsWritten(c0, old(State()), State(), lo, from, to, data)
    {
      hide EndsWritten, Writing, Cache.Valid, AfterWrites;
      ghost var c := State();
      EndsBegin(c0, c, lo, from, data);
      for k := from to to
        invariant |disk| == |c.disk| && EndsWritten(c0, c, State(), lo, from, k, data)
      {
        assert found[k].Some?;
        EndsStep(c0, c, State(), lo, from, k, data);
        WriteResident(lo + k, found[k].value, data[k]);
      }
    }

    method WriteResident(sector: int, value: int, data: S)
      modifies `values, `dirty
      ensures State() == old(State()).Update(value, data).MarkDirty(sector, value)
    {
      values := values[value := data];
      InsertToDirtyList(sector, value);
    }

    // The part between the first and the last missing sector.
    method WriteMisses(ghost c0: Cache<S>, lo: int, found: seq<Option<int>>, from: int, to: int,
            data: seq<S>) returns (ok: bool)
      requires Writing(c0, State(), lo, lo) && c0.Valid()
      requires 0 <= from <= to <= |data| == |found| && 0 <= lo && lo + |data| <= |disk|
      requires forall k :: from <= k < to ==> found[k] == if lo + k in c0.tree then Some(c0.tree[lo + k]) else None
      modifies this
      ensures State().Valid() && |disk| == |c0.disk| && forall s :: s in releaseList ==> s in c0.list
      ensures ok <==> !Ahead(c0, old(State()), lo + from, lo + to)
      ensures ok ==> State().View() == Stored(old(State().View()), lo + from, data[from..to])
      ensures ok ==> State() == AfterWrites(old(State()), c0.tree, lo, from, to, data)
    {
      hide MiddleWritten, Writing, Ahead, Cache.Valid, Cache.View, AfterWrites;
      ghost var c := State();
      MiddleBegins(c0, c, lo, from, to, data);
      for k := from to to
        invariant |disk| == |c.disk| && MiddleWritten(c0, c, State(), lo, from, k, to, data)
      {
        MiddleFacts(c0, c, State(), lo, from, k, to, data);
        ghost var before := State();
        ok := WriteOne(c0, lo, lo + k, lo + to, found[k], data[k]);
        if !ok {
          return;
        }
        MiddleStep(c0, c, before, State(), lo, from, k, to, data);
      }
      MiddleEnds(c0, c, State(), lo, from, to, data);
      ok := true;
    }

    method WriteOne(ghost c0: Cache<S>, ghost lo: int, sector: int, ghost hi: int, pointer: Option<int>, data: S)
      returns (ok: bool)
      requires Writing(c0, State(), lo, sector) && lo <= sector < hi && 0 <= sector < |c0.disk| && c0.Valid()
      requires pointer == if sector in c0.tree then Some(c0.tree[sector]) else None
      modifies this
      ensures ok ==> Writing(c0, State(), lo, sector + 1) && State().View() == old(State().View())[sector := data]
      ensures ok ==> sector < |old(disk)| && State() == WriteStep(old(State()), c0.tree, sector, data)
      ensures ok ==> Ahead(c0, State(), sector + 1, hi) == Ahead(c0, old(State()), sector, hi)
      ensures !ok ==> State() == old(State()) && Ahead(c0, State(), sector, hi)
    {
      hide Resident, Tracked, Listed, Merged, Follows, Gone, Ahead, Writing;
      ghost var c := State();
      WritingFacts(c0, c, lo, sector);
      ok := true;
      if pointer.None? {
        if Full() {
          WriteReplaces(c0, c, lo, sector, data);
          ReplaceAsForeseen(c0, c, lo, sector, hi, data);
          RawWrite(sector, data);
          ReplaceCache(sector, data);
        } else {
          WriteAdds(c0, c, lo, sector, data);
          AddAsForeseen(c0, c, sector, hi, data);
          var value := Add(sector, data);
          InsertToDirtyList(sector, value);
        }
      } else if pointer.value !in values {
        LostAhead(c0, c, sector, hi);
        ok := false;
      } else {
        WriteHits(c0, c, lo, sector, sector, data);
        HitAsForeseen(c0, c, sector, hi, data);
        WriteResident(sector, pointer.value, data);
        WritingFurther(c0, State(), lo, sector, sector + 1);
      }
    }

    // Writes dirty sectors back, oldest first: `count` of them, all of them if it is negative.
    method FlushDirtyCacheSectors(count: int)
      requires Valid()
      modifies `disk, `dirty
      ensures Valid() && View() == old(View()) && |disk| == |old(disk)| && releaseList == old(releaseList)
      ensures dirty == old(dirty)[if 0 <= count <= |old(dirty)| then count else |old(dirty)|..]
      ensures count < 0 ==> disk == View()
      ensures State() == AfterFlush(old(State()), Flushes(old(State()), count))
    {
      hide Resident, Tracked, Listed, Merged;
      var remaining := count;
      ghost var flushed := 0;
      while remaining != 0 && dirty != []
        invariant Valid() && State().View() == old(State().View()) && |disk| == |old(disk)|
        invariant 0 <= flushed <= |old(dirty)| && remaining == count - flushed && (0 <= count ==> 0 <= remaining)
        invariant dirty == old(dirty)[flushed..] && State() == AfterFlush(old(State()), flushed)
        decreases |dirty|
      {
        FlushUnseen(State());
        var entry := dirty[0];
        dirty := dirty[1..];
        disk := disk[entry.sector := values[entry.value]];
        remaining := remaining - 1;
        flushed := flushed + 1;
      }
      if dirty == [] {
        NothingDirty(State());
      }
    }

    // The background ranking: a full cache without a built release list is given one, of at most
    // three resident sectors, each clean or left over from a build that did not fill the list;
    // which ones is the ranking's choice.
    method ReleaseCache(ranked: seq<int>)
      requires Valid() && !Misranked(State(), ranked)
      modifies `releaseList, `releaseListBuilt
      ensures Valid() && View() == old(View())
      ensures State() == Ranked(old(State()), ranked)
      ensures releaseList == if |tree| >= 32 && !old(releaseListBuilt) then ranked else old(releaseList)
      ensures releaseListBuilt <==> old(releaseListBuilt) || (|tree| >= 32 && |ranked| == 3)
    {
      if !Full() || releaseListBuilt {
        return;
      }
      releaseList := ranked;
      releaseListBuilt := |ranked| == MAX_RELEASE_LIST;
    }
  }

  datatype Operation<+S> =
    | ReadSectors(start: nat, count: nat)
    | WriteSectors(start: nat, data: seq<S>)
    | Flush(limit: int)
    | Rank(candidates: seq<int>)

  predicate InRange<S>(operation: Operation<S>, size: int) {
    match operation
    case ReadSectors(start, count) => start + count <= size
    case WriteSectors(start, data) => start + |data| <= size
    case _ => true
  }

  datatype Outcome<+S> = Outcome(results: seq<seq<S>>, sectors: seq<S>)

  // The same operations on a plain array of sectors, the drive starting at `base`.
  function Plain<S>(sectors: seq<S>, base: nat, operations: seq<Operation<S>>): (r: Outcome<S>)
    requires forall i :: 0 <= i < |operations| ==> InRange(operations[i], |sectors| - base)
    ensures |r.sectors| == |sectors|
  {
    if operations == [] then Outcome([], sectors)
    else
      var before := Plain(sectors, base, operations[..|operations| - 1]);
      PlainStep(before, base, operations[|operations| - 1])
  }

  function PlainStep<S>(before: Outcome<S>, base: nat, operation: Operation<S>): (r: Outcome<S>)
    requires InRange(operation, |before.sectors| - base)
    ensures |r.sectors| == |before.sectors|
  {
    match operation
    case ReadSectors(start, count) =>
      before.(results := before.results + [before.sectors[base + start..base + start + count]])
    case WriteSectors(start, data) => before.(sectors := Stored(before.sectors, base + start, data))
    case _ => before
  }

  // Whether an operation follows an evicted entry, or builds a list with which a later one fails,
  // and what it does to the cache if not.

  ghost predicate Faults<S>(c: Cache<S>, base: nat, operation: Operation<S>) {
    match operation
    case ReadSectors(start, count) => EvictsInside(c, base + start, base + start + count)
    case WriteSectors(start, data) => WriteEvictsInside(c, base + start, |data|)
    case Flush(_) => false
    case Rank(candidates) => Misranked(c, candidates)
  }

  ghost function Performed<S>(c: Cache<S>, base: nat, operation: Operation<S>): (r: Cache<S>)
    requires InRange(operation, |c.disk| - base)
    ensures |r.disk| == |c.disk|
  {
    match operation
    case ReadSectors(start, count) => AfterReads(c, c.tree, base + start, base + start + count)
    case WriteSectors(start, data) => AfterWrite(c, base + start, data)
    case Flush(limit) => AfterFlush(c, Flushes(c, limit))
    case Rank(candidates) => Ranked(c, candidates)
  }

  ghost function Reached<S>(c: Cache<S>, base: nat, operations: seq<Operation<S>>): (r: Cache<S>)
    requires forall i :: 0 <= i < |operations| ==> InRange(operations[i], |c.disk| - base)
    ensures |r.disk| == |c.disk|
  {
    if operations == [] then c
    else Performed(Reached(c, base, operations[..|operations| - 1]), base, operations[|operations| - 1])
  }

  ghost predicate FaultsOnTheWay<S>(c: Cache<S>, base: nat, operations: seq<Operation<S>>)
    requires forall i :: 0 <= i < |operations| ==> InRange(operations[i], |c.disk| - base)
  {
    exists k :: 0 <= k < |operations| && Faults(Reached(c, base, operations[..k]), base, operations[k])
  }

  // A run whose first i operations have been performed.
  ghost predicate RunUpTo<S>(c0: Cache<S>, c: Cache<S>, base: nat, operations: seq<Operation<S>>, i: int,
          results: seq<seq<S>>)
    requires forall i :: 0 <= i < |operations| ==> InRange(operations[i], |c0.disk| - base)
    requires 0 <= i <= |operations|
  {
    && |c.disk| == |c0.disk| && c == Reached(c0, base, operations[..i])
    && Outcome(results, c.View()) == Plain(c0.View(), base, operations[..i])
    && forall k :: 0 <= k < i ==> !Faults(Reached(c0, base, operations[..k]), base, operations[k])
  }

  lemma RunBegins<S>(c: Cache<S>, base: nat, operations: seq<Operation<S>>)
    requires forall i :: 0 <= i < |operations| ==> InRange(operations[i], |c.disk| - base)
    ensures RunUpTo(c, c, base, operations, 0, [])
  {
  }

  lemma RunNext<S>(c0: Cache<S>, c: Cache<S>, base: nat, operations: seq<Operation<S>>, i: int, results: seq<seq<S>>,
                   c': Cache<S>, results': seq<seq<S>>)
    requires forall i :: 0 <= i < |operations| ==> InRange(operations[i], |c0.disk| - base)
    requires 0 <= i < |operations| && |c.disk| == |c0.disk| && RunUpTo(c0, c, base, operations, i, results)
    requires !Faults(c, base, operations[i]) && c' == Performed(c, base, operations[i])
    requires Outcome(results', c'.View()) == PlainStep(Outcome(results, c.View()), base, operations[i])
    ensures RunUpTo(c0, c', base, operations, i + 1, results')
  {
    hide Faults, Performed, PlainStep, Cache.View;
    assert operations[..i + 1][..i] == operations[..i];
  }

  lemma RunFaults<S>(c0: Cache<S>, c: Cache<S>, base: nat, operations: seq<Operation<S>>, i: int, results: seq<seq<S>>)
    requires forall i :: 0 <= i < |operations| ==> InRange(operations[i], |c0.disk| - base)
    requires 0 <= i < |operations| && RunUpTo(c0, c, base, operations, i, results) && Faults(c, base, operations[i])
    ensures FaultsOnTheWay(c0, base, operations)
  {
    hide Faults, Plain, Cache.View, Reached;
  }

  lemma RunDone<S>(c0: Cache<S>, c: Cache<S>, base: nat, operations: seq<Operation<S>>, results: seq<seq<S>>)
    requires forall i :: 0 <= i < |operations| ==> InRange(operations[i], |c0.disk| - base)
    requires RunUpTo(c0, c, base, operations, |operations|, results)
    ensures !FaultsOnTheWay(c0, base, operations) && c == Reached(c0, base, operations)
    ensures Outcome(results, c.View()) == Plain(c0.View(), base, operations)
  {
    hide Faults, Plain, Cache.View, Reached;
    assert operations[..|operations|] == operations;
  }

  // Every run of reads, writes, flushes and rankings behaves as the plain array, and a final flush
  // leaves that array on the disk, exactly if no operation faults in the state it is reached in.
  method Run<S(0)>(drive: DiskDrive<S>, operations: seq<Operation<S>>) returns (results: seq<seq<S>>, ok: bool)
    requires drive.Valid()
    requires forall i :: 0 <= i < |operations| ==> InRange(operations[i], |drive.disk| - drive.lbaStart)
    modifies drive
    ensures drive.Valid()
    ensures ok <==> !FaultsOnTheWay(old(drive.State()), drive.lbaStart, operations)
    ensures ok ==> Outcome(results, drive.disk) == Plain(old(drive.View()), drive.lbaStart, operations)
    ensures old(drive.releaseList) == [] && (forall i :: 0 <= i < |operations| ==> !operations[i].Rank?) ==> ok
  {
    hide RunUpTo, Reached, Faults, FaultsOnTheWay, Performed, Plain, PlainStep, Cache.Valid, Cache.View;
    results := [];
    ghost var c0, base := drive.State(), drive.lbaStart;
    if c0.list == [] && forall i :: 0 <= i < |operations| ==> !operations[i].Rank? {
      NoRankNoFault(c0, base, operations);
    }
    RunBegins(c0, base, operations);
    for i := 0 to |operations|
      invariant drive.Valid() && |drive.disk| == |c0.disk|
      invariant RunUpTo(c0, drive.State(), base, operations, i, results)
    {
      ghost var c, before := drive.State(), results;
      ok, results := Perform(drive, operations[i], results);
      if !ok {
        RunFaults(c0, c, base, operations, i, before);
        return;
      }
      RunNext(c0, c, base, operations, i, before, drive.State(), results);
    }
    RunDone(c0, drive.State(), base, operations, results);
    drive.FlushDirtyCacheSectors(-1);
    ok := true;
  }

  method Perform<S(0)>(drive: DiskDrive<S>, operation: Operation<S>, before: seq<seq<S>>)
    returns (ok: bool, results: seq<seq<S>>)
    requires drive.Valid() && InRange(operation, |drive.disk| - drive.lbaStart)
    modifies drive
    ensures drive.Valid() && |drive.disk| == |old(drive.disk)|
    ensures ok <==> !Faults(old(drive.State()), drive.lbaStart, operation)
    ensures ok ==> |old(drive.disk)| == |old(drive.State()).disk|
                   && drive.State() == Performed(old(drive.State()), drive.lbaStart, operation)
                   && Outcome(results, drive.State().View())
                      == PlainStep(Outcome(before, old(drive.State().View())), drive.lbaStart, operation)
  {
    hide Resident, Tracked, Listed, Merged, Stored, EvictsInside, WriteEvictsInside, AfterReads, AfterWrite, AfterFlush;
    hide Cache.Valid, Cache.View;
    ok, results := true, before;
    match operation {
      case ReadSectors(start, count) =>
        var r := drive.Read(start, count);
        ok := r.Read?;
        if ok {
          results := results + [r.data];
        }
      case WriteSectors(start, data) =>
        ok := drive.Write(start, data);
      case Flush(limit) =>
        drive.FlushDirtyCacheSectors(limit);
      case Rank(candidates) =>
        ok := !Misranked(drive.State(), candidates);
        if ok {
          drive.ReleaseCache(candidates);
        }
    }
  }

  // Without a release list nothing is evicted.

  lemma {:induction false} NoListReads<S>(c: Cache<S>, tree0: map<int, int>, lo: int, i: int)
    requires 0 <= lo <= i <= |c.disk| && c.list == []
    ensures AfterReads(c, tree0, lo, i).list == []
    decreases i - lo
  {
    if lo < i {
      NoListReads(c, tree0, lo, i - 1);
    }
  }

  lemma {:induction false} NoListWrites<S>(c: Cache<S>, tree0: map<int, int>, lo: int, start: int, end: int,
                                           data: seq<S>)
    requires 0 <= start <= end <= |data| && 0 <= lo && lo + |data| <= |c.disk| && c.list == []
    ensures AfterWrites(c, tree0, lo, start, end, data).list == []
    decreases end - start
  {
    if start < end {
      NoListWrites(c, tree0, lo, start, end - 1, data);
    }
  }

  lemma NoListWrite<S>(c: Cache<S>, lo: int, data: seq<S>)
    requires 0 <= lo && lo + |data| <= |c.disk| && c.list == []
    ensures AfterWrite(c, lo, data).list == []
  {
    hide FirstMiss, LastMiss, AfterWrites;
    var first, last := FirstMiss(c.tree, lo, |data|), LastMiss(c.tree, lo, |data|);
    NoListWrites(c, c.tree, lo, 0, first, data);
    if first < |data| {
      var c1 := AfterWrites(c, c.tree, lo, 0, first, data);
      NoListWrites(c1, c.tree, lo, last + 1, |data|, data);
      NoListWrites(AfterWrites(c1, c.tree, lo, last + 1, |data|, data), c.tree, lo, first, last + 1, data);
    }
  }

  lemma {:induction false} FlushKeepsList<S>(c: Cache<S>, n: nat)
    ensures AfterFlush(c, n).list == c.list
  {
    if n > 0 {
      FlushKeepsList(c, n - 1);
    }
  }

  lemma NoListPerformed<S>(c: Cache<S>, base: nat, operation: Operation<S>)
    requires InRange(operation, |c.disk| - base) && c.list == [] && !operation.Rank?
    ensures Performed(c, base, operation).list == [] && !Faults(c, base, operation)
  {
    hide EvictsInside, WriteEvictsInside, AfterReads, AfterWrite, AfterFlush;
    match operation {
      case ReadSectors(start, count) =>
        NoListReads(c, c.tree, base + start, base + start + count);
        NothingInteriorListed(c, base + start, base + start + count);
      case WriteSectors(start, data) =>
        NoListWrite(c, base + start, data);
        NothingListedInside(c, base + start, |data|);
      case Flush(limit) =>
        FlushKeepsList(c, Flushes(c, limit));
    }
  }

  lemma {:induction false} NoRankReached<S>(c: Cache<S>, base: nat, operations: seq<Operation<S>>)
    requires forall i :: 0 <= i < |operations| ==> InRange(operations[i], |c.disk| - base) && !operations[i].Rank?
    requires c.list == []
    ensures Reached(c, base, operations).list == []
  {
    hide Performed, Faults;
    if operations != [] {
      var n := |operations| - 1;
      NoRankReached(c, base, operations[..n]);
      NoListPerformed(Reached(c, base, operations[..n]), base, operations[n]);
    }
  }

  // A run that never ranks never faults.
  lemma NoRankNoFault<S>(c: Cache<S>, base: nat, operations: seq<Operation<S>>)
    requires forall i :: 0 <= i < |operations| ==> InRange(operations[i], |c.disk| - base) && !operations[i].Rank?
    requires c.list == []
    ensures !FaultsOnTheWay(c, base, operations)
  {
    hide Performed, Faults, Reached;
    forall k | 0 <= k < |operations|
      ensures !Faults(Reached(c, base, operations[..k]), base, operations[k])
    {
      NoRankReached(c, base, operations[..k]);
      NoListPerformed(Reached(c, base, operations[..k]), base, operations[k]);
    }
  }

  // A release list free of the cached sectors between two missing ones rules the fault out.
  lemma NothingInteriorListed<S>(c: Cache<S>, lo: int, hi: int)
    ensures (forall s :: s in c.list ==> !Interior(c.tree, lo, hi, s)) ==> !EvictsInside(c, lo, hi)
  {
    if s :| s in c.list && Interior(c.tree, lo, hi, s) {
      return;
    }
    forall i, j | lo <= i < j < hi && i in c.tree && j !in c.tree
      ensures i !in Evicted(c, Misses(c.tree, lo, i))
    {
      if forall s :: lo <= s < i ==> s in c.tree {
        NoMisses(c.tree, lo, i);
      } else {
        assert Interior(c.tree, lo, hi, i);
        assert i !in Clean(c.list, DirtySectors(c.dirty));
      }
    }
  }

  // So does, for a write, a release list that names no cached sector of the request at all, or
  // only ones that are dirty or lie before the first or behind the last missing sector.
  lemma NothingListedInside<S>(c: Cache<S>, lo: int, n: nat)
    requires forall s :: s in c.list && lo <= s < lo + n && s in c.tree ==>
               s in DirtySectors(c.dirty) || s in WrittenFirst(c.tree, lo, n)
    ensures !WriteEvictsInside(c, lo, n)
  {
    hide WrittenFirst, Harmless, DirtySectors, Follows;
    HarmlessAtStart(c.tree, Evictable(c), DirtySectors(c.dirty), WrittenFirst(c.tree, lo, n), lo, lo + n);
    NoneFollowed(c.tree, Evictable(c), DirtySectors(c.dirty) + WrittenFirst(c.tree, lo, n), {}, lo, lo + n);
  }

  // The fault is real: a full cache with sector 1 but not 0 and 2, sector 1 first on the release list,
  // and a request for sectors 0 to 2, whose miss on sector 0 evicts it.
  lemma EvictionInsideHappens() returns (c: Cache<int>)
    ensures c.Valid() && EvictsInside(c, 0, 3) && WriteEvictsInside(c, 0, 3)
  {
    hide Resident, EvictsInside, WriteEvictsInside;
    var tree := FirstSectors(33) - {2};
    assert tree.Keys == FirstSectors(33).Keys - {2} && |tree.Keys| == 32;
    c := Cache(seq(34, _ => 0), tree, Zeroes(33), 34, [], [1], true);
    assert Listed(tree, c.list, true) && Tracked(tree, []);
    EvictsFirst(c);
    WriteEvictsFirst(c);
    ZeroesResident(tree, c.values);
  }

  lemma ZeroesResident(tree: map<int, int>, values: map<int, int>)
    requires forall s :: s in tree ==> 1 <= s <= 33 && tree[s] == s
    requires forall v :: v in values <==> 1 <= v <= 33
    requires forall v :: v in values ==> values[v] == 0
    ensures Resident(seq(34, _ => 0), tree, values, 34, DirtySectors([]))
  {
  }

  lemma EvictsFirst(c: Cache<int>)
    requires 0 !in c.tree && 1 in c.tree && 2 !in c.tree && c.dirty == [] && c.list == [1] && c.built
    ensures EvictsInside(c, 0, 3)
  {
    assert Misses(c.tree, 0, 1) == 1;
    assert DirtySectors(c.dirty) == {};
    assert Clean([1], {}) == [1];
    assert Evictions(c, 1) == 1;
    assert Evicted(c, 1)[0] == 1;
    assert 0 <= 1 < 2 < 3 && 1 in Evicted(c, Misses(c.tree, 0, 1));
  }

  lemma WriteEvictsFirst(c: Cache<int>)
    requires 0 !in c.tree && 1 in c.tree && 2 !in c.tree && c.dirty == [] && c.list == [1] && c.built
    ensures WriteEvictsInside(c, 0, 3)
  {
    var dirty := WrittenFirst(c.tree, 0, 3);
    assert FirstMiss(c.tree, 0, 3) == 0 && LastMiss(c.tree, 0, 3) == 2;
    assert dirty == {};
    assert DirtySectors(c.dirty) + dirty == {};
    assert Clean([1], {}) == [1] && FirstClean([1], {}) == {1};
    assert 1 in {} + FirstClean([1], {});
    assert Follows(c.tree, AfterFirstClean([1], {}), {}, {} + FirstClean([1], {}), 1, 3);
  }

  // Sectors 1 to n resident, sector s in value s.
  function FirstSectors(n: nat): (tree: map<int, int>)
    ensures |tree| == n && forall s :: s in tree <==> 1 <= s <= n
    ensures forall s :: s in tree ==> tree[s] == s
  {
    if n == 0 then map[] else FirstSectors(n - 1)[n := n]
  }

  function Zeroes(n: nat): (values: map<int, int>)
    ensures forall v :: v in values <==> 1 <= v <= n
    ensures forall v :: v in values ==> values[v] == 0
  {
    if n == 0 then map[] else Zeroes(n - 1)[n := 0]
  }
}
