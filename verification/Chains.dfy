// Sector chains: the files of a volume (filesystem/Directory.cpp, filesystem/FileSystem.cpp).
module Chains {
  import opened Volumes

  function NextInChain(chain: seq<int>, i: int): int
    requires 0 <= i < |chain|
  {
    if i + 1 < |chain| then chain[i + 1] else EOC
  }

  function StartOf(chain: seq<int>): int {
    if chain == [] then EOC else chain[0]
  }

  // A file's sectors: distinct, in range, none the root's, each entry naming the next sector and
  // the last one marked as the end.
  ghost predicate IsChain(table: seq<int>, chain: seq<int>) {
    && (forall i :: 0 <= i < |chain| ==> 0 < chain[i] < |table| && Low28(table[chain[i]]) == NextInChain(chain, i))
    && (forall i, j :: 0 <= i < j < |chain| ==> chain[i] != chain[j])
  }

  // The table determines the chain that starts at a sector.
  lemma {:induction false} ChainUnique(table: seq<int>, a: seq<int>, b: seq<int>, i: int)
    requires IsChain(table, a) && IsChain(table, b) && StartOf(a) == StartOf(b) && |table| < EOC
    requires 0 <= i < |a|
    ensures i < |b| && a[i] == b[i] && (i + 1 == |a| <==> i + 1 == |b|)
    decreases i
  {
    hide IsChain, NextInChain;
    EntryNamesNext(table, a, i);
    if i == 0 {
      if b != [] {
        EntryNamesNext(table, b, 0);
      }
    } else {
      ChainUnique(table, a, b, i - 1);
      EntryNamesNext(table, a, i - 1);
      EntryNamesNext(table, b, i - 1);
      EntryNamesNext(table, b, i);
    }
  }

  lemma EntryNamesNext(table: seq<int>, chain: seq<int>, i: int)
    requires IsChain(table, chain) && |table| < EOC && 0 <= i < |chain|
    ensures 0 < chain[i] < |table|
    ensures Low28(table[chain[i]]) == if i + 1 < |chain| then chain[i + 1] else EOC
    ensures Low28(table[chain[i]]) == EOC <==> i + 1 == |chain|
  {
  }

  lemma InUseEntries(table: seq<int>, chain: seq<int>)
    requires IsChain(table, chain)
    ensures forall i :: 0 <= i < |chain| ==> Low28(table[chain[i]]) != 0
  {
  }

  // Appending a pooled sector to a chain: allocate it, then link the last sector to it.
  function Extended(v: Volume, chain: seq<int>): Volume
    requires v.pool != [] && 0 <= v.pool[0] < |v.table|
    requires chain != [] ==> 0 <= chain[|chain| - 1] < |v.table|
  {
    var v' := Allocated(v);
    if chain == [] then v' else v'.Set(chain[|chain| - 1], v.pool[0])
  }

  lemma ExtendedKeeps(v: Volume, chain: seq<int>)
    requires v.Sound() && IsChain(v.table, chain) && v.pool != []
    ensures var v' := Extended(v, chain);
            && v'.Sound() && IsChain(v'.table, chain + [v.pool[0]])
            && v'.pool == v.pool[1..] && v'.data == v.data && |v'.table| == |v.table|
            && forall id :: 0 <= id < |v.table| && id !in chain && id != v.pool[0] ==> v'.table[id] == v.table[id]
  {
    var id := v.pool[0];
    InUseEntries(v.table, chain);
    assert id !in chain;
    AllocationSound(v);
    var v1 := Allocated(v);
    if chain != [] {
      var last := chain[|chain| - 1];
      LinkSound(v1, last, id);
      assert last in chain;
    }
  }

  // v is v0 with the chain grown by sectors that were free: by those of the pool, in pool order,
  // and when it was used up by others; nothing else of the table has changed.
  ghost predicate Grown(v0: Volume, chain0: seq<int>, v: Volume, chain: seq<int>) {
    var k := |chain| - |chain0|;
    && 0 <= k && chain[..|chain0|] == chain0 && v.used == v0.used + k
    && (k <= |v0.pool| ==> chain == chain0 + v0.pool[..k] && v.pool == v0.pool[k..])
    && (forall i :: |chain0| <= i < |chain| ==> 0 <= chain[i] < |v0.table| && Low28(v0.table[chain[i]]) == 0)
    && v.Sound() && |v.table| == |v0.table| && IsChain(v.table, chain)
    && forall id :: 0 <= id < |v.table| && id !in chain ==> v.table[id] == v0.table[id]
  }

  lemma GrownByNone(v: Volume, chain: seq<int>)
    requires v.Sound() && IsChain(v.table, chain)
    ensures Grown(v, chain, v, chain)
  {
  }

  // One more sector, after a refill of the pool if that was empty.
  lemma GrownByOne(v0: Volume, chain0: seq<int>, v: Volume, chain: seq<int>, pool: seq<int>)
    requires Grown(v0, chain0, v, chain) && pool != [] && (v.pool != [] ==> pool == v.pool)
    requires v.(pool := pool).Sound()
    ensures 0 < pool[0] < |v.table| && (chain != [] ==> 0 <= chain[|chain| - 1] < |v.table|)
    ensures pool[0] !in chain && Grown(v0, chain0, Extended(v.(pool := pool), chain), chain + [pool[0]])
  {
    hide IsChain, Extended, Volume.Sound, Grown;
    var id := pool[0];
    assert IsChain(v.table, chain) && v.Sound() by {
      GrownSound(v0, chain0, v, chain);
    }
    PooledIsFree(v.(pool := pool));
    FreeInNoChain(v.table, chain, id);
    LastInTable(v.table, chain);
    ExtendedKeeps(v.(pool := pool), chain);
    ExtendedCounts(v.(pool := pool), chain);
    GrownStep(v0, chain0, v, chain, pool, Extended(v.(pool := pool), chain));
  }

  lemma GrownSound(v0: Volume, chain0: seq<int>, v: Volume, chain: seq<int>)
    requires Grown(v0, chain0, v, chain)
    ensures v.Sound() && IsChain(v.table, chain)
  {
  }

  lemma GrownStep(v0: Volume, chain0: seq<int>, v: Volume, chain: seq<int>, pool: seq<int>, v': Volume)
    requires Grown(v0, chain0, v, chain) && pool != [] && (v.pool != [] ==> pool == v.pool)
    requires v'.Sound() && IsChain(v'.table, chain + [pool[0]]) && v'.used == v.used + 1 && v'.pool == pool[1..]
    requires 0 <= pool[0] < |v.table| == |v'.table| && Low28(v.table[pool[0]]) == 0 && pool[0] !in chain
    requires forall id :: 0 <= id < |v.table| && id !in chain && id != pool[0] ==> v'.table[id] == v.table[id]
    ensures Grown(v0, chain0, v', chain + [pool[0]])
  {
    hide IsChain, Volume.Sound;
    var k := |chain| - |chain0|;
    if k + 1 <= |v0.pool| {
      PrefixGrows(chain0, v0.pool, k);
    }
    assert (chain + [pool[0]])[..|chain0|] == chain[..|chain0|];
    assert forall id :: id in chain ==> id in chain + [pool[0]];
  }

  lemma PrefixGrows(chain0: seq<int>, pool: seq<int>, k: int)
    requires 0 <= k < |pool|
    ensures chain0 + pool[..k + 1] == chain0 + pool[..k] + [pool[k]]
    ensures pool[k..][0] == pool[k] && pool[k..][1..] == pool[k + 1..]
  {
  }

  lemma LastInTable(table: seq<int>, chain: seq<int>)
    requires IsChain(table, chain)
    ensures chain != [] ==> 0 < chain[|chain| - 1] < |table|
  {
  }

  lemma ExtendedCounts(v: Volume, chain: seq<int>)
    requires v.Sound() && IsChain(v.table, chain) && v.pool != []
    requires |v.table| < EOC
    ensures Extended(v, chain).used == v.used + 1
  {
  }

  // The sectors that a chain may have once it has grown by at most k sectors.
  ghost function Claimed(v: Volume, chain: seq<int>, k: int): set<int> {
    set id | 0 <= id < |v.table| &&
      (id in chain || (0 < k && if k <= |v.pool| then id in v.pool[..k] else v.Entry(id) == 0))
  }

  lemma GrownClaims(v0: Volume, chain0: seq<int>, v: Volume, chain: seq<int>, k: int)
    requires Grown(v0, chain0, v, chain) && (|chain| == |chain0| || |chain| - |chain0| <= k)
    ensures forall id :: id in chain ==> id in Claimed(v0, chain0, k)
  {
    var n := |chain| - |chain0|;
    forall i | 0 <= i < |chain|
      ensures chain[i] in Claimed(v0, chain0, k)
    {
      assert 0 < chain[i] < |v.table|;
      if i < |chain0| {
        assert chain[i] == chain[..|chain0|][i] == chain0[i];
      } else if k <= |v0.pool| {
        assert chain[i] == v0.pool[..n][i - |chain0|] == v0.pool[..k][i - |chain0|];
      }
    }
  }

  // Freeing a chain from its first sector on.
  function FreedAll(v: Volume, chain: seq<int>, capacity: nat): (r: Volume)
    requires forall i :: 0 <= i < |chain| ==> 0 <= chain[i] < |v.table|
    ensures |r.table| == |v.table|
    decreases |chain|
  {
    if chain == [] then v else FreedAll(Freed(v, chain[0], capacity), chain[1..], capacity)
  }

  lemma {:induction false} FreedAllPool(v: Volume, chain: seq<int>, capacity: nat)
    requires forall i :: 0 <= i < |chain| ==> 0 <= chain[i] < |v.table|
    requires |v.pool| <= capacity
    ensures |FreedAll(v, chain, capacity).pool| ==
            if |v.pool| + |chain| <= capacity then |v.pool| + |chain| else capacity
    decreases |chain|
  {
    if chain != [] {
      FreedAllPool(Freed(v, chain[0], capacity), chain[1..], capacity);
    }
  }

  lemma RestIsChain(v: Volume, chain: seq<int>, capacity: nat)
    requires IsChain(v.table, chain) && chain != []
    ensures IsChain(Freed(v, chain[0], capacity).table, chain[1..])
    ensures StartOf(chain[1..]) == v.Entry(chain[0])
  {
  }

  lemma {:induction false} FreedAllSound(v: Volume, chain: seq<int>, capacity: nat)
    requires v.Sound() && IsChain(v.table, chain)
    ensures var r := FreedAll(v, chain, capacity); r.Sound() && r.data == v.data && r.used == v.used - |chain|
    decreases |chain|
  {
    if chain != [] {
      InUseEntries(v.table, chain);
      FreeSound(v, chain[0], capacity);
      RestIsChain(v, chain, capacity);
      FreedAllSound(Freed(v, chain[0], capacity), chain[1..], capacity);
    }
  }

  lemma {:induction false} FreedAllEntry(v: Volume, chain: seq<int>, capacity: nat, id: int)
    requires IsChain(v.table, chain) && 0 <= id < |v.table|
    ensures var r := FreedAll(v, chain, capacity);
            if id in chain then r.Entry(id) == 0 else r.table[id] == v.table[id]
    decreases |chain|
  {
    hide Freed, Low28, WithLow28, IsChain;
    if chain != [] {
      FirstInChain(v.table, chain);
      FreedOne(v, chain[0], capacity, id);
      RestIsChain(v, chain, capacity);
      FreedAllEntry(Freed(v, chain[0], capacity), chain[1..], capacity, id);
    }
  }

  lemma FirstInChain(table: seq<int>, chain: seq<int>)
    requires IsChain(table, chain) && chain != []
    ensures 0 <= chain[0] < |table| && chain[0] !in chain[1..]
    ensures forall id :: id in chain <==> id == chain[0] || id in chain[1..]
  {
  }

  lemma FreedOne(v: Volume, id: int, capacity: nat, other: int)
    requires 0 <= id < |v.table| && 0 <= other < |v.table|
    ensures var r := Freed(v, id, capacity);
            |r.table| == |v.table| && if other == id then r.Entry(other) == 0 else r.table[other] == v.table[other]
  {
  }

  // The deleted chain's entries become free and nothing else of the table changes.
  lemma FreedAllFrees(v: Volume, chain: seq<int>, capacity: nat)
    requires v.Sound() && IsChain(v.table, chain)
    ensures var r := FreedAll(v, chain, capacity);
            && r.Sound() && r.data == v.data && r.used == v.used - |chain|
            && forall id :: 0 <= id < |v.table| ==> if id in chain then r.Entry(id) == 0 else r.table[id] == v.table[id]
  {
    FreedAllSound(v, chain, capacity);
    forall id | 0 <= id < |v.table|
      ensures var r := FreedAll(v, chain, capacity);
              if id in chain then r.Entry(id) == 0 else r.table[id] == v.table[id]
    {
      FreedAllEntry(v, chain, capacity, id);
    }
  }

  // Every file of the volume has a chain, and no sector is in two of them.
  ghost predicate Files(v: Volume, chains: map<int, seq<int>>) {
    && v.Sound()
    && (forall f :: f in chains ==> IsChain(v.table, chains[f]))
    && (forall f, g, id :: f in chains && g in chains && f != g && id in chains[f] ==> id !in chains[g])
  }

  // A chain survives a table change that leaves its entries alone.
  lemma ChainUntouched(table: seq<int>, table': seq<int>, chain: seq<int>)
    requires IsChain(table, chain) && |table'| == |table|
    requires forall id :: id in chain && 0 <= id < |table| ==> table'[id] == table[id]
    ensures IsChain(table', chain)
  {
  }

  // A free sector is in no chain.
  lemma FreeInNoChain(table: seq<int>, chain: seq<int>, id: int)
    requires IsChain(table, chain) && 0 <= id < |table| && Low28(table[id]) == 0
    ensures id !in chain
  {
  }

  datatype Step = Create(file: int) | Append(file: int) | Delete(file: int)

  // One operation on the files of a volume; one that cannot be done changes nothing.
  function Apply(v: Volume, chains: map<int, seq<int>>, step: Step, capacity: nat): (r: (Volume, map<int, seq<int>>))
    requires forall f, i :: f in chains && 0 <= i < |chains[f]| ==> 0 <= chains[f][i] < |v.table|
    requires forall i :: 0 <= i < |v.pool| ==> 0 <= v.pool[i] < |v.table|
  {
    match step
    case Create(f) => if f in chains then (v, chains) else (v, chains[f := []])
    case Append(f) =>
      if f !in chains || v.pool == [] then (v, chains)
      else (Extended(v, chains[f]), chains[f := chains[f] + [v.pool[0]]])
    case Delete(f) =>
      if f !in chains then (v, chains) else (FreedAll(v, chains[f], capacity), chains - {f})
  }

  lemma AppendKeepsFiles(v: Volume, chains: map<int, seq<int>>, f: int)
    requires Files(v, chains) && f in chains && v.pool != []
    ensures Files(Extended(v, chains[f]), chains[f := chains[f] + [v.pool[0]]])
  {
    hide Volume.Sound;
    PooledIsFree(v);
    ExtendedKeeps(v, chains[f]);
    var id := v.pool[0];
    var v', chains' := Extended(v, chains[f]), chains[f := chains[f] + [id]];
    forall g | g in chains && g != f
      ensures IsChain(v'.table, chains[g]) && id !in chains[g]
    {
      FreeInNoChain(v.table, chains[g], id);
      ChainUntouched(v.table, v'.table, chains[g]);
    }
  }

  lemma PooledIsFree(v: Volume)
    requires v.Sound() && v.pool != []
    ensures 0 < v.pool[0] < |v.table| && v.Entry(v.pool[0]) == 0
  {
  }

  lemma DeleteKeepsFiles(v: Volume, chains: map<int, seq<int>>, f: int, capacity: nat)
    requires Files(v, chains) && f in chains
    ensures Files(FreedAll(v, chains[f], capacity), chains - {f})
  {
    hide Volume.Sound, FreedAll;
    var v' := FreedAll(v, chains[f], capacity);
    FreedAllFrees(v, chains[f], capacity);
    forall g | g in chains && g != f
      ensures IsChain(v'.table, chains[g])
    {
      ChainUntouched(v.table, v'.table, chains[g]);
    }
  }

  lemma ApplyKeepsFiles(v: Volume, chains: map<int, seq<int>>, step: Step, capacity: nat)
    requires Files(v, chains)
    ensures var (v', chains') := Apply(v, chains, step, capacity); Files(v', chains')
  {
    match step
    case Create(f) =>
    case Append(f) =>
      if f in chains && v.pool != [] {
        AppendKeepsFiles(v, chains, f);
      }
    case Delete(f) =>
      if f in chains {
        DeleteKeepsFiles(v, chains, f, capacity);
      }
  }

  // The sectors in use that no file has, as the root directory's.
  ghost function Loose(v: Volume, chains: map<int, seq<int>>): set<int> {
    set id | 0 <= id < |v.table| && v.Entry(id) != 0 && forall f :: f in chains ==> id !in chains[f]
  }

  // What one step does to the files, to the counter, and to each sector.
  lemma ApplyIs(v: Volume, chains: map<int, seq<int>>, step: Step, capacity: nat)
    requires Files(v, chains)
    ensures var (v', chains') := Apply(v, chains, step, capacity); var f := step.file;
            && |v'.table| == |v.table| && v'.data == v.data
            && v'.used - v.used == Length(chains', f) - Length(chains, f)
            && (forall g :: g != f ==> (g in chains' <==> g in chains) && (g in chains ==> chains'[g] == chains[g]))
            && match step {
                 case Create(_) => f in chains' && chains'[f] == (if f in chains then chains[f] else [])
                 case Append(_) =>
                   if f !in chains then f !in chains'
                   else if v.pool == [] then f in chains' && chains'[f] == chains[f]
                   else f in chains' && |chains'[f]| == |chains[f]| + 1 && chains'[f][..|chains[f]|] == chains[f]
                        && v.Entry(chains'[f][|chains[f]|]) == 0
                 case Delete(_) =>
                   f !in chains' && forall i :: f in chains && 0 <= i < |chains[f]| ==> v'.Entry(chains[f][i]) == 0
               }
  {
    hide Volume.Sound, Extended, FreedAll, IsChain;
    ApplyKeepsFiles(v, chains, step, capacity);
    var f := step.file;
    if step.Append? && f in chains && v.pool != [] {
      PooledIsFree(v);
      ExtendedKeeps(v, chains[f]);
      TableBelow(v);
      ExtendedCounts(v, chains[f]);
    } else if step.Delete? && f in chains {
      ChainInside(v.table, chains[f]);
      FreedAllFrees(v, chains[f], capacity);
    }
  }

  lemma TableBelow(v: Volume)
    requires v.Sound()
    ensures |v.table| < EOC
  {
  }

  lemma ChainInside(table: seq<int>, chain: seq<int>)
    requires IsChain(table, chain)
    ensures forall i :: 0 <= i < |chain| ==> 0 <= chain[i] < |table| && chain[i] in chain
  {
  }

  function Length(chains: map<int, seq<int>>, f: int): int {
    if f in chains then |chains[f]| else 0
  }

  // No step loses a sector: those in use that no file has are the same.
  lemma ApplyLosesNone(v: Volume, chains: map<int, seq<int>>, step: Step, capacity: nat)
    requires Files(v, chains)
    ensures var (v', chains') := Apply(v, chains, step, capacity); Loose(v', chains') == Loose(v, chains)
  {
    hide Extended, FreedAll, Low28, InUse;
    ApplyIs(v, chains, step, capacity);
    var (v', chains') := Apply(v, chains, step, capacity);
    var f := step.file;
    if step.Append? && f in chains && v.pool != [] {
      PooledIsFree(v);
      ExtendedKeeps(v, chains[f]);
      AppendLosesNone(v, v', chains, f, v.pool[0]);
    } else if step.Delete? && f in chains {
      FreedAllFrees(v, chains[f], capacity);
      DeleteLosesNone(v, v', chains, f);
    }
  }

  lemma AppendLosesNone(v: Volume, v': Volume, chains: map<int, seq<int>>, f: int, added: int)
    requires f in chains && |v'.table| == |v.table| && 0 <= added < |v.table| && v.Entry(added) == 0
    requires forall id :: 0 <= id < |v.table| && id !in chains[f] && id != added ==> v'.table[id] == v.table[id]
    ensures Loose(v', chains[f := chains[f] + [added]]) == Loose(v, chains)
  {
    var chains' := chains[f := chains[f] + [added]];
    forall id
      ensures id in Loose(v', chains') <==> id in Loose(v, chains)
    {
      assert forall g :: g in chains ==>
                         g in chains' && (id in chains'[g] <==> id in chains[g] || (g == f && id == added));
    }
  }

  lemma DeleteLosesNone(v: Volume, v': Volume, chains: map<int, seq<int>>, f: int)
    requires f in chains && |v'.table| == |v.table|
    requires forall id :: 0 <= id < |v.table| ==>
               if id in chains[f] then v'.Entry(id) == 0 else v'.table[id] == v.table[id]
    ensures Loose(v', chains - {f}) == Loose(v, chains)
  {
    forall id
      ensures id in Loose(v', chains - {f}) <==> id in Loose(v, chains)
    {
      if 0 <= id < |v.table| && id !in chains[f] {
        assert forall g :: g in chains && g != f ==> g in chains - {f};
      }
    }
  }

  // A file is there if it was created, or there before, and not deleted since.
  function ThereAfter(steps: seq<Step>, f: int, before: bool): bool {
    if steps == [] then before
    else
      var now := if steps[0] == Create(f) then true else if steps[0] == Delete(f) then false else before;
      ThereAfter(steps[1..], f, now)
  }

  // Whatever is created, appended to and deleted, in whatever order, every file's chain stays
  // acyclic and terminated, the chains stay disjoint, and no sector is lost.
  ghost function Run(v: Volume, chains: map<int, seq<int>>, steps: seq<Step>, capacity: nat): (r: (Volume, map<int,
          seq<int>>))
    requires Files(v, chains)
    ensures Files(r.0, r.1)
    ensures Loose(r.0, r.1) == Loose(v, chains)
    ensures forall f :: f in r.1 <==> ThereAfter(steps, f, f in chains)
    decreases |steps|
  {
    if steps == [] then (v, chains)
    else
      ApplyKeepsFiles(v, chains, steps[0], capacity);
      ApplyIs(v, chains, steps[0], capacity);
      ApplyLosesNone(v, chains, steps[0], capacity);
      var (v', chains') := Apply(v, chains, steps[0], capacity);
      Run(v', chains', steps[1..], capacity)
  }
}
