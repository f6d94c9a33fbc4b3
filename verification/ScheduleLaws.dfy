// What every schedule guarantees, and why it depends on the graph alone.
module ScheduleLaws {
  import opened Ordering
  import opened Digraph
  import opened FlowModel
  import opened Waves
  import Scope
  import ScopeLists

  // Without a cycle the waves are non-empty and every node id is in exactly one of them.
  lemma WavesPartition(table: map<string, Node>, edges: set<(string, string)>, waves: seq<seq<string>>)
    requires EdgesWithin(table.Keys, edges) && !HasCycle(edges)
    requires IsSchedule(table, edges, waves)
    ensures forall w :: 0 <= w < |waves| ==> waves[w] != [] && StrictlySorted(waves[w])
    ensures forall n :: n in table <==> exists w :: 0 <= w < |waves| && n in waves[w]
    ensures forall n, v, w :: 0 <= v < |waves| && 0 <= w < |waves| && n in waves[v] && n in waves[w] ==> v == w
  {
    var order := KahnOrder(table.Keys, edges);
    var waveOf :| Placed(table, edges, order, waveOf) && Lists(waves, waveOf);
    KahnIsMaximal(table.Keys, edges);
    CompleteIffAcyclic(table.Keys, edges, order);
    forall n ensures n in waveOf <==> n in table {
      assert n in waveOf <==> n in Elements(order);
      assert n in order ==> n in table;
    }
    hide KahnOrder, Placed, TopoPrefix, HasCycle, Ready;
    ListsPartition(table.Keys, waves, waveOf);
  }

  lemma ListsPartition(nodes: set<string>, waves: seq<seq<string>>, waveOf: map<string, nat>)
    requires Lists(waves, waveOf) && forall n :: n in waveOf <==> n in nodes
    ensures forall w :: 0 <= w < |waves| ==> waves[w] != [] && StrictlySorted(waves[w])
    ensures forall n :: n in nodes <==> exists w :: 0 <= w < |waves| && n in waves[w]
    ensures forall n, v, w :: 0 <= v < |waves| && 0 <= w < |waves| && n in waves[v] && n in waves[w] ==> v == w
  {
    hide StrictlySorted;
    forall n, v, w | 0 <= v < |waves| && 0 <= w < |waves| && n in waves[v] && n in waves[w] ensures v == w {
      assert waveOf[n] == v;
      assert waveOf[n] == w;
    }
    forall n | n in nodes ensures exists w :: 0 <= w < |waves| && n in waves[w] {
      assert n in waves[waveOf[n]];
    }
  }

  // Every edge leads to a strictly later wave.
  lemma EdgesGoForward(
    table: map<string, Node>, edges: set<(string, string)>, waves: seq<seq<string>>, a: string, b: string, v: nat, w: nat)
    requires IsSchedule(table, edges, waves) && (a, b) in edges
    requires v < |waves| && w < |waves| && a in waves[v] && b in waves[w]
    ensures v < w
  {
    var order := KahnOrder(table.Keys, edges);
    var waveOf :| Placed(table, edges, order, waveOf) && Lists(waves, waveOf);
    assert b in Elements(order);
    var i :| 0 <= i < |order| && order[i] == b;
    assert FirstFit(table, edges, order, waveOf, i);
  }

  // Of two members of a wave the one placed later has no conflict with the earlier.
  lemma WaveIsConflictFree(
    table: map<string, Node>, edges: set<(string, string)>, waves: seq<seq<string>>, w: nat, i: nat, j: nat)
    requires IsSchedule(table, edges, waves) && w < |waves|
    requires var order := KahnOrder(table.Keys, edges);
      j < i < |order| && order[i] in waves[w] && order[j] in waves[w]
    ensures var order := KahnOrder(table.Keys, edges);
      order[i] in table && order[j] in table && !NodesConflict(table, order[i], order[j])
  {
    var order := KahnOrder(table.Keys, edges);
    var waveOf :| Placed(table, edges, order, waveOf) && Lists(waves, waveOf);
    assert FirstFit(table, edges, order, waveOf, i);
    hide NodesConflict, KahnOrder;
  }

  // No path is in the write scope of two nodes that may run at the same time, if no entry of theirs
  // leaks or slips.
  lemma WaveWritesAreDisjoint(
    table: map<string, Node>, edges: set<(string, string)>, waves: seq<seq<string>>, w: nat, a: string, b: string,
    path: string)
    requires IsSchedule(table, edges, waves)
    requires w < |waves| && a in waves[w] && b in waves[w] && a != b && a in table && b in table
    requires ScopeLists.Harmless(table[a].allowedPaths) && ScopeLists.Harmless(table[b].allowedPaths)
    ensures !(Scope.MatchesAny(path, table[a].allowedPaths) && Scope.MatchesAny(path, table[b].allowedPaths))
  {
    hide IsSchedule, KahnOrder, ScopeLists.Harmless, Scope.MatchesAny;
    var i := PlacedAt(table, edges, waves, w, a);
    var j := PlacedAt(table, edges, waves, w, b);
    if j < i {
      WaveIsConflictFree(table, edges, waves, w, i, j);
      DisjointWrites(table, a, b, path);
    } else {
      WaveIsConflictFree(table, edges, waves, w, j, i);
      DisjointWrites(table, b, a, path);
    }
  }

  lemma DisjointWrites(table: map<string, Node>, a: string, b: string, path: string)
    requires a in table && b in table && !NodesConflict(table, a, b)
    requires ScopeLists.Harmless(table[a].allowedPaths) && ScopeLists.Harmless(table[b].allowedPaths)
    ensures !(Scope.MatchesAny(path, table[a].allowedPaths) && Scope.MatchesAny(path, table[b].allowedPaths))
  {
    hide Scope.ListsConflict, Scope.MatchesAny, ScopeLists.NoSlips, Scope.NoLeaks;
    ScopeLists.NoConflictMeansDisjoint(table[a].allowedPaths, table[b].allowedPaths, path);
  }

  lemma PlacedAt(
    table: map<string, Node>, edges: set<(string, string)>, waves: seq<seq<string>>, w: nat, n: string) returns (i: nat)
    requires IsSchedule(table, edges, waves) && w < |waves| && n in waves[w]
    ensures i < |KahnOrder(table.Keys, edges)| && KahnOrder(table.Keys, edges)[i] == n
  {
    var order := KahnOrder(table.Keys, edges);
    var waveOf :| Placed(table, edges, order, waveOf) && Lists(waves, waveOf);
    hide KahnOrder, FirstFit;
    assert n in Elements(order);
    i :| 0 <= i < |order| && order[i] == n;
  }

  lemma {:induction false} PlacementUnique(
    table: map<string, Node>, edges: set<(string, string)>, order: seq<string>,
    one: map<string, nat>, two: map<string, nat>, i: nat)
    requires TopoPrefix(table.Keys, edges, order) && i < |order|
    requires Placed(table, edges, order, one) && Placed(table, edges, order, two)
    ensures order[i] in one && order[i] in two && one[order[i]] == two[order[i]]
    decreases i, 1
  {
    assert FirstFit(table, edges, order, one, i) && FirstFit(table, edges, order, two, i);
    PlacementNotEarlier(table, edges, order, one, two, i);
    PlacementNotEarlier(table, edges, order, two, one, i);
  }

  lemma {:induction false} PlacementNotEarlier(
    table: map<string, Node>, edges: set<(string, string)>, order: seq<string>,
    one: map<string, nat>, two: map<string, nat>, i: nat)
    requires TopoPrefix(table.Keys, edges, order) && i < |order|
    requires Placed(table, edges, order, one) && Placed(table, edges, order, two)
    ensures order[i] in one && order[i] in two && two[order[i]] <= one[order[i]]
    decreases i, 0
  {
    var id := order[i];
    assert FirstFit(table, edges, order, one, i) && FirstFit(table, edges, order, two, i);
    if one[id] < two[id] {
      assert Excluded(table, edges, order, two, i, one[id]);
      if p :| (p, id) in edges && p in two && one[id] <= two[p] {
        assert p in order[..i];
        var k :| 0 <= k < i && order[k] == p;
        PlacementUnique(table, edges, order, one, two, k);
        assert false;
      } else {
        var j :| 0 <= j < i && two[order[j]] == one[id] && NodesConflict(table, id, order[j]);
        PlacementUnique(table, edges, order, one, two, j);
        assert false;
      }
    }
  }

  lemma ListsUnique(one: seq<seq<string>>, two: seq<seq<string>>, waveOf: map<string, nat>)
    requires Lists(one, waveOf) && Lists(two, waveOf)
    ensures one == two
  {
    ListsLength(one, two, waveOf);
    ListsLength(two, one, waveOf);
    forall w | 0 <= w < |one| ensures one[w] == two[w] {
      forall n ensures n in Elements(one[w]) <==> n in Elements(two[w]) {
        assert n in one[w] ==> n in waveOf && waveOf[n] == w;
        assert n in two[w] ==> n in waveOf && waveOf[n] == w;
        assert n in waveOf && waveOf[n] == w ==> n in one[w] && n in two[w];
      }
      SortedUnique(one[w], two[w]);
    }
  }

  lemma ListsLength(one: seq<seq<string>>, two: seq<seq<string>>, waveOf: map<string, nat>)
    requires Lists(one, waveOf) && Lists(two, waveOf)
    ensures |one| <= |two|
  {
    if one != [] {
      var last := |one| - 1;
      var n := one[last][0];
      assert n in one[last];
      assert waveOf[n] == last < |two|;
    }
  }

  // A table and an edge set have one schedule only.
  lemma ScheduleUnique(
    table: map<string, Node>, edges: set<(string, string)>, one: seq<seq<string>>, two: seq<seq<string>>)
    requires IsSchedule(table, edges, one) && IsSchedule(table, edges, two)
    ensures one == two
  {
    var order := KahnOrder(table.Keys, edges);
    KahnIsMaximal(table.Keys, edges);
    var placed1 :| Placed(table, edges, order, placed1) && Lists(one, placed1);
    var placed2 :| Placed(table, edges, order, placed2) && Lists(two, placed2);
    forall n | n in placed1 ensures placed1[n] == placed2[n] {
      assert n in Elements(order);
      var i :| 0 <= i < |order| && order[i] == n;
      PlacementUnique(table, edges, order, placed1, placed2, i);
    }
    assert placed1 == placed2;
    ListsUnique(one, two, placed1);
  }

  // Two flows that keep the same nodes and connect them the same way get the same waves or the
  // same reported cycle node, whatever order their edges come in, however often an edge is
  // repeated, and in whatever order the maps are walked.
  method ScheduleBoth(first: Flow, second: Flow) returns (one: ScheduleResult, two: ScheduleResult)
    requires NodeTable(first.nodes) == NodeTable(second.nodes)
    requires EdgeSet(first.edges) == EdgeSet(second.edges)
    requires NoDangling(first) && NoDangling(second)
    ensures one == two
  {
    one := ScheduleWaves(first);
    two := ScheduleWaves(second);
    if one.Scheduled? && two.Scheduled? {
      ScheduleUnique(NodeTable(first.nodes), EdgeSet(first.edges), one.waves, two.waves);
    } else if one.Cycle? && two.Cycle? {
      LeastUnique(Residual(NodeIds(first), EdgeSet(first.edges)), one.node, two.node);
    }
  }

  // The node a cycle error names lies on a cycle exactly when some node on a cycle has a smaller id
  // than all nodes merely behind one.
  lemma NamedNodeOnCycle(nodes: set<string>, edges: set<(string, string)>, n: string)
    requires EdgesWithin(nodes, edges) && IsLeast(n, Residual(nodes, edges))
    ensures OnCycle(edges, n) <==> exists c :: OnCycle(edges, c) && BeforeAllBehind(nodes, edges, c)
  {
    ResidualIsBehindCycles(nodes, edges);
    if OnCycle(edges, n) {
      forall d | d in Residual(nodes, edges) && !OnCycle(edges, d) ensures Less(n, d) {
      }
      assert BeforeAllBehind(nodes, edges, n);
    }
    if c :| OnCycle(edges, c) && BeforeAllBehind(nodes, edges, c) {
      CycleWithin(nodes, edges, c);
      ReachesItself(edges, c);
      assert c in Residual(nodes, edges);
      if n != c && Less(c, n) {
        LessAsymmetric(c, n);
      }
    }
  }

  ghost predicate BeforeAllBehind(nodes: set<string>, edges: set<(string, string)>, c: string) {
    forall d :: d in Residual(nodes, edges) && !OnCycle(edges, d) ==> Less(c, d)
  }

  lemma ReachesItself(edges: set<(string, string)>, c: string)
    ensures Reaches(edges, c, c)
  {
    assert IsPath(edges, [c]);
  }

  // A flow whose cycle error names a node that only lies behind the cycle.
  method CycleErrorNamesAnother() returns (result: ScheduleResult)
    ensures result == Cycle("a") && !OnCycle({("b", "b"), ("b", "a")}, "a")
  {
    var flow := Flow(
      [Node("a", "mission", "", {}, [], 0), Node("b", "mission", "", {}, [], 0)],
      [Edge("b", "b", "default"), Edge("b", "a", "default")]);
    result := ScheduleWaves(flow);
    AnotherIsNamed(flow, result);
  }

  lemma AnotherIsNamed(flow: Flow, result: ScheduleResult)
    requires |flow.nodes| == 2 && flow.nodes[0].id == "a" && flow.nodes[1].id == "b"
    requires flow.edges == [Edge("b", "b", "default"), Edge("b", "a", "default")]
    requires result.Dangling? <==> !NoDangling(flow)
    requires !result.Dangling? ==> (result.Cycle? <==> HasCycle(EdgeSet(flow.edges)))
    requires result.Cycle? ==> IsLeast(result.node, Residual(NodeIds(flow), EdgeSet(flow.edges)))
    ensures result == Cycle("a") && !OnCycle({("b", "b"), ("b", "a")}, "a")
  {
    var edges := {("b", "b"), ("b", "a")};
    assert EdgeSet(flow.edges) == edges by {
      assert flow.edges[0] in flow.edges && flow.edges[1] in flow.edges;
    }
    assert NodeIds(flow) == {"a", "b"} by {
      TableIds(flow.nodes);
      assert flow.nodes[0].id == "a" && flow.nodes[1].id == "b";
    }
    assert NoDangling(flow);
    LoopAndTail(edges);
    ResidualIsBehindCycles(NodeIds(flow), edges);
    hide NodeIds, EdgeSet, Residual, Reaches, OnCycle, HasCycle, NoDangling;
    assert "a" in Residual(NodeIds(flow), edges);
  }

  lemma LoopAndTail(edges: set<(string, string)>)
    requires edges == {("b", "b"), ("b", "a")}
    ensures HasCycle(edges) && OnCycle(edges, "b") && Reaches(edges, "b", "a") && !OnCycle(edges, "a")
    ensures EdgesWithin({"a", "b"}, edges) && Less("a", "b") && !Less("b", "a")
  {
    assert IsCycleThrough(edges, "b", ["b", "b"]);
    assert OnCycle(edges, "b");
    assert IsPath(edges, ["b", "a"]);
    assert Less("a", "b");
    forall p ensures !IsCycleThrough(edges, "a", p) {
      assert |p| >= 2 && p[0] == "a" ==> (p[0], p[0 + 1]) !in edges;
    }
  }

  // ---- two nodes of a wave may write the same path through an entry that slips ----

  method WaveSharesAPath() returns (flow: Flow, result: ScheduleResult)
    ensures result.Scheduled? && IsSchedule(NodeTable(flow.nodes), EdgeSet(flow.edges), result.waves)
    ensures |result.waves| > 0 && "a" in result.waves[0] && "b" in result.waves[0]
    ensures flow.edges == [] && flow.nodes == [NodeIn("a", ["z", "d /"]), NodeIn("b", ["d /"])]
    ensures Scope.NoLeaks(["d /"]) && Scope.NoLeaks(["z", "d /"])
    ensures Scope.MatchesAny("d /x", ["z", "d /"]) && Scope.MatchesAny("d /x", ["d /"])
  {
    var a, b := NodeIn("a", ["z", "d /"]), NodeIn("b", ["d /"]);
    flow := Flow([a, b], []);
    result := ScheduleWaves(flow);
    LettersInOrder();
    hide Scope.ListsConflict, Scope.MatchesAny, Scope.NoLeaks, IsSchedule, HasCycle, NoDangling;
    ScopeLists.SlippingLists();
    TwoNodes(flow, a, b, result);
  }

  function NodeIn(id: string, allowedPaths: seq<string>): Node {
    Node(id, "mission", "", {}, allowedPaths, 0)
  }

  lemma LettersInOrder()
    ensures Less("a", "b")
  {
  }

  // Without edges, the second of two nodes joins the first if it has no conflict with it.
  lemma TwoNodes(flow: Flow, a: Node, b: Node, result: ScheduleResult)
    requires flow.nodes == [a, b] && flow.edges == [] && Less(a.id, b.id)
    requires !Scope.ListsConflict(b.allowedPaths, a.allowedPaths)
    requires result.Dangling? <==> !NoDangling(flow)
    requires !result.Dangling? ==> (result.Cycle? <==> HasCycle(EdgeSet(flow.edges)))
    requires result.Scheduled? ==> IsSchedule(NodeTable(flow.nodes), EdgeSet(flow.edges), result.waves)
    ensures result.Scheduled? && |result.waves| > 0 && a.id in result.waves[0] && b.id in result.waves[0]
  {
    hide Scope.ListsConflict;
    var table, edges := NodeTable(flow.nodes), EdgeSet(flow.edges);
    LessAsymmetric(a.id, b.id);
    TableOfTwo(a, b);
    assert edges == {};
    NoEdgesNoCycle(edges);
    assert NoDangling(flow);
    KahnOfTwo(table.Keys, a.id, b.id);
    hide NodeTable, EdgeSet, KahnOrder, HasCycle, NoDangling;
    BothFirst(table, a.id, b.id, result.waves);
  }

  lemma TableOfTwo(a: Node, b: Node)
    requires a.id != b.id
    ensures NodeTable([a, b]) == map[a.id := a, b.id := b]
  {
    var nodes := [a, b];
    assert nodes[..1] == [a] && nodes[..1][..0] == [];
    assert NodeTable([a]) == map[a.id := a];
  }

  lemma NoEdgesNoCycle(edges: set<(string, string)>)
    requires edges == {}
    ensures !HasCycle(edges)
  {
    forall a, p ensures !IsCycleThrough(edges, a, p) {
      assert |p| >= 2 ==> (p[0], p[0 + 1]) !in edges;
    }
  }

  lemma KahnOfTwo(nodes: set<string>, x: string, y: string)
    requires nodes == {x, y} && x != y && Less(x, y) && !Less(y, x)
    ensures KahnOrder(nodes, {}) == [x, y]
  {
    hide Less;
    var none: set<(string, string)> := {};
    var done: seq<string> := [];
    assert Elements(done) == {} && Elements(done + [x]) == {x} && Elements([x, y]) == {x, y};
    assert Ready(nodes, none, {}) == {x, y} && Least({x, y}) == x;
    assert Ready(nodes, none, {x}) == {y} && Least({y}) == y;
    assert Ready(nodes, none, {x, y}) == {};
    assert done + [x] == [x] && [x] + [y] == [x, y];
    assert KahnFrom(nodes, none, [x, y]) == [x, y];
    assert KahnFrom(nodes, none, [x]) == KahnFrom(nodes, none, [x, y]);
    assert KahnFrom(nodes, none, done) == KahnFrom(nodes, none, [x]);
  }

  lemma BothFirst(table: map<string, Node>, x: string, y: string, waves: seq<seq<string>>)
    requires x in table && y in table && !NodesConflict(table, y, x)
    requires KahnOrder(table.Keys, {}) == [x, y] && IsSchedule(table, {}, waves)
    ensures |waves| > 0 && x in waves[0] && y in waves[0]
  {
    hide KahnOrder, NodesConflict;
    var order := [x, y];
    var waveOf :| Placed(table, {}, order, waveOf) && Lists(waves, waveOf);
    assert order[0] == x && order[1] == y;
    assert FirstFit(table, {}, order, waveOf, 0) && FirstFit(table, {}, order, waveOf, 1);
    assert !Excluded(table, {}, order, waveOf, 0, 0);
    assert waveOf[x] == 0;
    assert !Excluded(table, {}, order, waveOf, 1, 0);
    assert waveOf[y] == 0;
  }
}
