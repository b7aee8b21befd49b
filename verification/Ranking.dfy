// How the background ranking chooses its release list (drivers/DiskCache.cpp). Ranks are real
// numbers; the list's ascending insertion is part of upan::list, which is not part of this model,
// and puts a node behind those of equal rank here.
module Rankings {
  import opened DiskCaches
  import opened DiskDrives

  datatype Node = Node(sector: int, rank: real)

  function Inserted(list: seq<Node>, node: Node): (r: seq<Node>)
    ensures |r| == |list| + 1
  {
    if list == [] || node.rank < list[0].rank then [node] + list else [list[0]] + Inserted(list[1..], node)
  }

  // One clean resident sector: with a full list it takes the place of the last node if it ranks
  // higher.
  function Visited(list: seq<Node>, node: Node): seq<Node> {
    if |list| != MAX_RELEASE_LIST then Inserted(list, node)
    else if node.rank <= list[|list| - 1].rank then list
    else Inserted(list[..|list| - 1], node)
  }

  // The traversal of the clean resident sectors, on what the list still held.
  function Traversed(list: seq<Node>, nodes: seq<Node>): seq<Node> {
    if nodes == [] then list else Visited(Traversed(list, nodes[..|nodes| - 1]), nodes[|nodes| - 1])
  }

  function Sectors(list: seq<Node>): (r: seq<int>)
    ensures |r| == |list|
    ensures forall i :: 0 <= i < |list| ==> r[i] == list[i].sector
  {
    if list == [] then [] else Sectors(list[..|list| - 1]) + [list[|list| - 1].sector]
  }

  ghost predicate Once(list: seq<Node>) {
    forall i, j :: 0 <= i < j < |list| ==> list[i].sector != list[j].sector
  }

  ghost predicate Among(list: seq<Node>, sectors: set<int>) {
    forall i :: 0 <= i < |list| ==> list[i].sector in sectors
  }

  lemma {:induction false} InsertedOnce(list: seq<Node>, node: Node, sectors: set<int>)
    requires Once(list) && Among(list, sectors) && node.sector !in sectors
    ensures Once(Inserted(list, node)) && Among(Inserted(list, node), sectors + {node.sector})
  {
    if list != [] && node.rank >= list[0].rank {
      var rest := list[1..];
      assert forall i :: 0 <= i < |rest| ==> rest[i] == list[i + 1];
      assert Among(rest, sectors - {list[0].sector});
      InsertedOnce(rest, node, sectors - {list[0].sector});
    }
  }

  // From a list without the visited sectors the traversal makes one that names no sector twice,
  // and fills it if there are enough.
  lemma {:induction false} TraversedOnce(list: seq<Node>, nodes: seq<Node>, sectors: set<int>, seen: set<int>)
    requires |list| <= MAX_RELEASE_LIST && Once(list) && Among(list, sectors)
    requires Once(nodes) && seen == set i | 0 <= i < |nodes| :: nodes[i].sector
    requires sectors !! seen
    ensures var r := Traversed(list, nodes);
            && Once(r) && Among(r, sectors + seen)
            && |r| == if |list| + |nodes| <= MAX_RELEASE_LIST then |list| + |nodes| else MAX_RELEASE_LIST
    decreases |nodes|
  {
    if nodes != [] {
      var rest, node := nodes[..|nodes| - 1], nodes[|nodes| - 1];
      var before := set i | 0 <= i < |rest| :: rest[i].sector;
      assert forall x :: x in before ==> x in seen && x != node.sector;
      TraversedOnce(list, rest, sectors, before);
      var r := Traversed(list, rest);
      VisitedOnce(r, node, sectors + before);
      assert forall x :: x in sectors + before + {node.sector} ==> x in sectors + seen;
    }
  }

  lemma VisitedOnce(list: seq<Node>, node: Node, sectors: set<int>)
    requires |list| <= MAX_RELEASE_LIST && Once(list) && Among(list, sectors) && node.sector !in sectors
    ensures Once(Visited(list, node)) && Among(Visited(list, node), sectors + {node.sector})
    ensures |Visited(list, node)| == if |list| < MAX_RELEASE_LIST then |list| + 1 else MAX_RELEASE_LIST
  {
    if |list| != MAX_RELEASE_LIST {
      InsertedOnce(list, node, sectors);
    } else if node.rank > list[|list| - 1].rank {
      InsertedOnce(list[..|list| - 1], node, sectors);
    }
  }

  // So a cache whose list was empty, as after every list that was used up, may be given what the
  // traversal of its clean resident sectors makes.
  lemma FirstRankingIsSound<S>(c: Cache<S>, nodes: seq<Node>)
    requires Once(nodes)
    requires forall i :: 0 <= i < |nodes| ==> nodes[i].sector in c.tree && nodes[i].sector !in DirtySectors(c.dirty)
    ensures Rankable(c, Sectors(Traversed([], nodes)))
  {
    hide Traversed, Sectors, Once, Among, DirtySectors;
    var sectors := c.tree.Keys - DirtySectors(c.dirty);
    assert Among(nodes, sectors) by {
      NodesAmong(nodes, c.tree.Keys, DirtySectors(c.dirty));
    }
    FirstListed(nodes, sectors);
  }

  lemma NodesAmong(nodes: seq<Node>, resident: set<int>, dirty: set<int>)
    requires forall i :: 0 <= i < |nodes| ==> nodes[i].sector in resident && nodes[i].sector !in dirty
    ensures Among(nodes, resident - dirty)
  {
  }

  lemma FirstListed(nodes: seq<Node>, sectors: set<int>)
    requires Once(nodes) && Among(nodes, sectors)
    ensures var list := Sectors(Traversed([], nodes));
            && |list| <= MAX_RELEASE_LIST && (forall s :: s in list ==> s in sectors)
            && forall i, j :: 0 <= i < j < |list| ==> list[i] != list[j]
  {
    hide Traversed, Sectors;
    var seen := set i | 0 <= i < |nodes| :: nodes[i].sector;
    TraversedOnce([], nodes, {}, seen);
    SectorsOnce(Traversed([], nodes), {} + seen);
  }

  lemma SectorsOnce(list: seq<Node>, sectors: set<int>)
    requires Once(list) && Among(list, sectors)
    ensures forall s :: s in Sectors(list) ==> s in sectors
    ensures forall i, j :: 0 <= i < j < |Sectors(list)| ==> Sectors(list)[i] != Sectors(list)[j]
  {
    forall s | s in Sectors(list)
      ensures s in sectors
    {
      var i :| 0 <= i < |list| && Sectors(list)[i] == s;
      assert list[i].sector in sectors;
    }
  }

  ghost predicate Ascending(list: seq<Node>) {
    forall i, j :: 0 <= i < j < |list| ==> list[i].rank <= list[j].rank
  }

  lemma {:induction false} InsertedAscending(list: seq<Node>, node: Node)
    requires Ascending(list)
    ensures Ascending(Inserted(list, node))
    ensures forall i :: 0 <= i < |list| + 1 ==> Inserted(list, node)[i] == node || Inserted(list, node)[i] in list
  {
    if list != [] && node.rank >= list[0].rank {
      InsertedAscending(list[1..], node);
    }
  }

  lemma {:induction false} TraversedAscending(list: seq<Node>, nodes: seq<Node>)
    requires Ascending(list) && |list| + |nodes| <= MAX_RELEASE_LIST
    ensures Ascending(Traversed(list, nodes)) && |Traversed(list, nodes)| == |list| + |nodes|
    decreases |nodes|
  {
    if nodes != [] {
      var n := |nodes| - 1;
      TraversedAscending(list, nodes[..n]);
      InsertedAscending(Traversed(list, nodes[..n]), nodes[n]);
    }
  }

  // The first of the highest-ranked nodes.
  function Best(node: Node, nodes: seq<Node>): (best: Node)
    ensures node.rank <= best.rank && (best == node || best in nodes)
    ensures forall i :: 0 <= i < |nodes| ==> nodes[i].rank <= best.rank
  {
    if nodes == [] then node
    else
      var best := Best(node, nodes[..|nodes| - 1]);
      if best.rank < nodes[|nodes| - 1].rank then nodes[|nodes| - 1] else best
  }

  // A full list keeps its first two nodes; its last one gives way to the best of those visited.
  lemma {:induction false} FullTraversed(list: seq<Node>, nodes: seq<Node>)
    requires |list| == MAX_RELEASE_LIST && Ascending(list)
    ensures Traversed(list, nodes) == [list[0], list[1], Best(list[2], nodes)]
    decreases |nodes|
  {
    if nodes != [] {
      var n := |nodes| - 1;
      var node, r := nodes[n], Traversed(list, nodes[..n]);
      FullTraversed(list, nodes[..n]);
      assert r[..2] == [list[0], list[1]] && r[..2][1..] == [list[1]] && [list[1]][1..] == [];
      if node.rank > r[2].rank {
        assert Inserted([], node) == [node] && Inserted([list[1]], node) == [list[1], node];
        assert Inserted(r[..2], node) == [list[0], list[1], node];
      }
    }
  }

  lemma {:induction false} TraversedInTwo(list: seq<Node>, nodes: seq<Node>, k: int)
    requires 0 <= k <= |nodes|
    ensures Traversed(list, nodes) == Traversed(Traversed(list, nodes[..k]), nodes[k..])
    decreases |nodes|
  {
    if k == |nodes| {
      assert nodes[..k] == nodes && nodes[k..] == [];
    } else {
      var n := |nodes| - 1;
      TraversedInTwo(list, nodes[..n], k);
      assert nodes[..n][..k] == nodes[..k] && nodes[k..][..n - k] == nodes[..n][k..];
    }
  }

  // What a traversal makes of a list that the first k of the visited nodes fill.
  lemma TraversedIs(list: seq<Node>, nodes: seq<Node>)
    requires |list| <= MAX_RELEASE_LIST <= |list| + |nodes| && Ascending(list)
    ensures var k := MAX_RELEASE_LIST - |list|;
            var full := Traversed(list, nodes[..k]);
            && |full| == MAX_RELEASE_LIST
            && Traversed(list, nodes) == [full[0], full[1], Best(full[2], nodes[k..])]
  {
    var k := MAX_RELEASE_LIST - |list|;
    TraversedAscending(list, nodes[..k]);
    TraversedInTwo(list, nodes, k);
    FullTraversed(Traversed(list, nodes[..k]), nodes[k..]);
  }

  // A build that found fewer than three clean sectors leaves them in the list, unbuilt. The next
  // traversal visits them again, and names no sector twice exactly if none of them is among the
  // nodes that fill the list and stay in it, nor is the best of the others.
  lemma LeftOverTwiceIff(list: seq<Node>, nodes: seq<Node>)
    requires Once(list) && Once(nodes) && |list| <= MAX_RELEASE_LIST && Ascending(list)
    ensures Once(Traversed(list, nodes)) <==>
            if |list| + |nodes| <= MAX_RELEASE_LIST then
              forall i, j :: 0 <= i < |list| && 0 <= j < |nodes| ==> list[i].sector != nodes[j].sector
            else
              var k := MAX_RELEASE_LIST - |list|;
              var full := Traversed(list, nodes[..k]);
              && |full| == MAX_RELEASE_LIST && full[0].sector != full[1].sector
              && Best(full[2], nodes[k..]).sector != full[0].sector
              && Best(full[2], nodes[k..]).sector != full[1].sector
  {
    if |list| + |nodes| <= MAX_RELEASE_LIST {
      ShortTwiceIff(list, nodes);
    } else {
      TraversedIs(list, nodes);
      var k := MAX_RELEASE_LIST - |list|;
      var full := Traversed(list, nodes[..k]);
      OnceOfThree(full[0], full[1], Best(full[2], nodes[k..]));
    }
  }

  lemma OnceOfThree(a: Node, b: Node, c: Node)
    ensures Once([a, b, c]) <==> a.sector != b.sector && a.sector != c.sector && b.sector != c.sector
  {
    if Once([a, b, c]) {
      assert [a, b, c][0] == a && [a, b, c][1] == b && [a, b, c][2] == c;
    }
  }

  lemma ShortTwiceIff(list: seq<Node>, nodes: seq<Node>)
    requires Once(list) && Once(nodes) && |list| + |nodes| <= MAX_RELEASE_LIST
    ensures Once(Traversed(list, nodes)) <==>
              forall i, j :: 0 <= i < |list| && 0 <= j < |nodes| ==> list[i].sector != nodes[j].sector
  {
    if i, j :| 0 <= i < |list| && 0 <= j < |nodes| && list[i].sector == nodes[j].sector {
      var x := list[i].sector;
      TraversedCount(list, nodes, x);
      CountPresent(list, i);
      CountPresent(nodes, j);
      if Once(Traversed(list, nodes)) {
        CountOnce(Traversed(list, nodes), x);
      }
    } else {
      var sectors := set i | 0 <= i < |list| :: list[i].sector;
      TraversedOnce(list, nodes, sectors, set i | 0 <= i < |nodes| :: nodes[i].sector);
    }
  }

  // How often a sector is named.
  function Count(list: seq<Node>, x: int): nat {
    if list == [] then 0 else (if list[0].sector == x then 1 else 0) + Count(list[1..], x)
  }

  lemma {:induction false} CountLast(list: seq<Node>, x: int)
    requires list != []
    ensures Count(list, x) == Count(list[..|list| - 1], x) + if list[|list| - 1].sector == x then 1 else 0
    decreases |list|
  {
    if |list| > 1 {
      CountLast(list[1..], x);
      assert list[1..][..|list| - 2] == list[..|list| - 1][1..];
    }
  }

  lemma {:induction false} CountPresent(list: seq<Node>, i: int)
    requires 0 <= i < |list|
    ensures 1 <= Count(list, list[i].sector)
    decreases i
  {
    if i > 0 {
      CountPresent(list[1..], i - 1);
    }
  }

  lemma {:induction false} CountOnce(list: seq<Node>, x: int)
    requires Once(list)
    ensures Count(list, x) <= 1
    ensures list != [] && list[0].sector == x ==> Count(list[1..], x) == 0
    decreases |list|
  {
    if list != [] {
      assert forall i :: 0 <= i < |list[1..]| ==> list[1..][i] == list[i + 1];
      CountOnce(list[1..], x);
      CountNone(list[1..], list[0].sector);
    }
  }

  lemma {:induction false} CountNone(list: seq<Node>, x: int)
    requires forall i :: 0 <= i < |list| ==> list[i].sector != x
    ensures Count(list, x) == 0
    decreases |list|
  {
    if list != [] {
      CountNone(list[1..], x);
    }
  }

  lemma {:induction false} InsertedCount(list: seq<Node>, node: Node, x: int)
    ensures Count(Inserted(list, node), x) == Count(list, x) + if node.sector == x then 1 else 0
    decreases |list|
  {
    if list == [] || node.rank < list[0].rank {
      assert ([node] + list)[1..] == list;
    } else {
      InsertedCount(list[1..], node, x);
      assert ([list[0]] + Inserted(list[1..], node))[1..] == Inserted(list[1..], node);
    }
  }

  lemma {:induction false} TraversedCount(list: seq<Node>, nodes: seq<Node>, x: int)
    requires |list| + |nodes| <= MAX_RELEASE_LIST
    ensures |Traversed(list, nodes)| == |list| + |nodes|
    ensures Count(Traversed(list, nodes), x) == Count(list, x) + Count(nodes, x)
    decreases |nodes|
  {
    if nodes != [] {
      var rest, node := nodes[..|nodes| - 1], nodes[|nodes| - 1];
      TraversedCount(list, rest, x);
      InsertedCount(Traversed(list, rest), node, x);
      CountLast(nodes, x);
    }
  }

  // It happens: one clean sector in a full cache, ranked three times, fills the list, whatever its
  // rank was each time.
  lemma OneSectorListedThrice(s: int, first: real, second: real, third: real)
    ensures var list := Traversed(Traversed(Traversed([], [Node(s, first)]), [Node(s, second)]), [Node(s, third)]);
            Sectors(list) == [s, s, s]
  {
    var list1 := Traversed([], [Node(s, first)]);
    var list2 := Traversed(list1, [Node(s, second)]);
    TraversedCount([], [Node(s, first)], s);
    TraversedCount(list1, [Node(s, second)], s);
    TraversedCount(list2, [Node(s, third)], s);
    assert forall rank: real :: Count([Node(s, rank)], s) == 1;
    CountAll(Traversed(list2, [Node(s, third)]), s);
  }

  lemma {:induction false} CountAll(list: seq<Node>, x: int)
    ensures Count(list, x) <= |list|
    ensures Count(list, x) == |list| ==> forall i :: 0 <= i < |list| ==> list[i].sector == x
  {
    if list != [] {
      CountAll(list[1..], x);
      assert forall i :: 0 < i < |list| ==> list[i] == list[1..][i - 1];
    }
  }

  // After its eviction the next victim is no longer cached, which the code takes for a failure.
  lemma NextVictimGone<S>(c: Cache<S>, s: int, sector: int, data: S)
    requires c.built && c.list == [s, s, s] && s in c.tree && s !in DirtySectors(c.dirty) && sector != s
    ensures var c' := c.Replace(sector, data);
            c'.built && c'.list == [s, s] && s !in c'.tree && Clean(c'.list, DirtySectors(c'.dirty)) == [s, s]
  {
    ThreeTimesClean(s, DirtySectors(c.dirty));
    hide Clean, AfterFirstClean, DirtySectors;
  }

  lemma ThreeTimesClean(s: int, dirty: set<int>)
    requires s !in dirty
    ensures Clean([s, s, s], dirty) == [s, s, s] && Clean([s, s], dirty) == [s, s]
    ensures AfterFirstClean([s, s, s], dirty) == [s, s]
  {
    CleanFirst(s, [], dirty);
    CleanFirst(s, [s], dirty);
    CleanFirst(s, [s, s], dirty);
    assert [s] + [s, s] == [s, s, s] && [s] + [s] == [s, s] && [s] + [] == [s];
  }

  lemma CleanFirst(s: int, rest: seq<int>, dirty: set<int>)
    requires s !in dirty
    ensures Clean([s] + rest, dirty) == [s] + Clean(rest, dirty) && AfterFirstClean([s] + rest, dirty) == rest
  {
    assert ([s] + rest)[0] == s && ([s] + rest)[1..] == rest;
  }
}
