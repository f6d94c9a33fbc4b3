// The wave scheduler: Kahn's algorithm over deduplicated edges, then greedy placement of the
// order into waves whose members' write scopes do not conflict.
module Waves {
  import opened Ordering
  import opened Digraph
  import opened FlowModel
  import Scope

  datatype ScheduleResult =
    | Scheduled(waves: seq<seq<string>>)
    | Dangling(src: string, dst: string)
    | Cycle(node: string)

  // ---- what a schedule is ----

  // The i-th node of the order sits in the first wave behind its predecessors that held no
  // earlier node in conflict with it.
  ghost predicate FirstFit(
    table: map<string, Node>, edges: set<(string, string)>, order: seq<string>, waveOf: map<string, nat>, i: nat)
    requires i < |order|
  {
    && (forall j :: 0 <= j <= i ==> order[j] in table && order[j] in waveOf)
    && (forall p :: (p, order[i]) in edges ==> p in waveOf && waveOf[p] < waveOf[order[i]])
    && (forall j :: 0 <= j < i && waveOf[order[j]] == waveOf[order[i]] ==> !NodesConflict(table, order[i], order[j]))
    && (forall v: nat :: v < waveOf[order[i]] ==> Excluded(table, edges, order, waveOf, i, v))
  }

  // Wave v is no place for the i-th node.
  ghost predicate Excluded(
    table: map<string, Node>, edges: set<(string, string)>, order: seq<string>, waveOf: map<string, nat>, i: nat, v: nat)
    requires i < |order|
    requires forall j :: 0 <= j <= i ==> order[j] in table && order[j] in waveOf
  {
    || (exists p :: (p, order[i]) in edges && p in waveOf && v <= waveOf[p])
    || (exists j :: 0 <= j < i && waveOf[order[j]] == v && NodesConflict(table, order[i], order[j]))
  }

  ghost predicate Placed(
    table: map<string, Node>, edges: set<(string, string)>, order: seq<string>, waveOf: map<string, nat>)
  {
    waveOf.Keys == Elements(order) && forall i: nat :: i < |order| ==> FirstFit(table, edges, order, waveOf, i)
  }

  // The waves list exactly the placed nodes, each wave sorted and none empty.
  ghost predicate Lists(waves: seq<seq<string>>, waveOf: map<string, nat>) {
    && (forall w :: 0 <= w < |waves| ==> waves[w] != [] && StrictlySorted(waves[w]))
    && (forall w, n :: 0 <= w < |waves| ==> (n in waves[w] <==> n in waveOf && waveOf[n] == w))
    && (forall n :: n in waveOf ==> waveOf[n] < |waves|)
  }

  ghost predicate IsSchedule(table: map<string, Node>, edges: set<(string, string)>, waves: seq<seq<string>>) {
    exists waveOf :: Placed(table, edges, KahnOrder(table.Keys, edges), waveOf) && Lists(waves, waveOf)
  }

  // ---- the algorithm ----

  ghost predicate Outgoing(nodes: set<string>, edges: set<(string, string)>, successors: map<string, set<string>>) {
    successors.Keys == nodes && forall n, m :: n in nodes ==> (m in successors[n] <==> (n, m) in edges)
  }

  ghost predicate Incoming(
    nodes: set<string>, edges: set<(string, string)>, predecessors: map<string, set<string>>,
    indegree: map<string, int>)
  {
    && predecessors.Keys == nodes && indegree.Keys == nodes
    && (forall n, m :: n in nodes ==> (m in predecessors[n] <==> (m, n) in edges))
    && (forall n :: n in nodes ==> indegree[n] == |predecessors[n]|)
  }

  ghost predicate Adjacency(
    nodes: set<string>, edges: set<(string, string)>,
    successors: map<string, set<string>>, predecessors: map<string, set<string>>, indegree: map<string, int>)
  {
    EdgesWithin(nodes, edges) && Outgoing(nodes, edges, successors) && Incoming(nodes, edges, predecessors, indegree)
  }

  method BuildTable(nodes: seq<Node>) returns (table: map<string, Node>)
    ensures table == NodeTable(nodes)
  {
    table := map[];
    for k := 0 to |nodes|
      invariant table == NodeTable(nodes[..k])
    {
      assert nodes[..k + 1][..k] == nodes[..k];
      if nodes[k].id !in table {
        table := table[nodes[k].id := nodes[k]];
      }
    }
    assert nodes[..|nodes|] == nodes;
  }

  // The adjacency maps describe the first k edges, all of whose ends are known.
  ghost predicate Built(
    flow: Flow, ids: set<string>, k: nat,
    successors: map<string, set<string>>, predecessors: map<string, set<string>>, indegree: map<string, int>)
  {
    && k <= |flow.edges|
    && (forall j :: 0 <= j < k ==> flow.edges[j].src in ids && flow.edges[j].dst in ids)
    && Adjacency(ids, EdgeSet(flow.edges[..k]), successors, predecessors, indegree)
  }

  method AddEdge(
    flow: Flow, ids: set<string>, k: nat,
    successors0: map<string, set<string>>, predecessors0: map<string, set<string>>, indegree0: map<string, int>)
    returns (successors: map<string, set<string>>, predecessors: map<string, set<string>>, indegree: map<string, int>)
    requires k < |flow.edges| && Built(flow, ids, k, successors0, predecessors0, indegree0)
    requires flow.edges[k].src in ids && flow.edges[k].dst in ids
    ensures Built(flow, ids, k + 1, successors, predecessors, indegree)
  {
    hide EdgeSet;
    var src, dst := flow.edges[k].src, flow.edges[k].dst;
    ghost var edges := EdgeSet(flow.edges[..k]);
    EdgeSetExtends(flow.edges, k);
    successors, predecessors, indegree := successors0, predecessors0, indegree0;
    if dst in successors[src] {
      assert edges + {(src, dst)} == edges;
      return;
    }
    AdjacencyAdds(ids, edges, successors, predecessors, indegree, src, dst);
    successors := successors[src := successors[src] + {dst}];
    predecessors := predecessors[dst := predecessors[dst] + {src}];
    indegree := indegree[dst := indegree[dst] + 1];
  }

  method IsolatedNodes(nodes: set<string>)
    returns (successors: map<string, set<string>>, predecessors: map<string, set<string>>, indegree: map<string, int>)
    ensures forall flow :: Built(flow, nodes, 0, successors, predecessors, indegree)
  {
    successors := map id | id in nodes :: {};
    predecessors := map id | id in nodes :: {};
    indegree := map id | id in nodes :: 0;
    forall flow: Flow ensures Built(flow, nodes, 0, successors, predecessors, indegree) {
      assert flow.edges[..0] == [];
      NoEdges();
    }
  }

  method BuildGraph(flow: Flow, table: map<string, Node>)
    returns (bad: int, successors: map<string, set<string>>, predecessors: map<string, set<string>>,
             indegree: map<string, int>)
    requires table.Keys == NodeIds(flow)
    ensures bad >= 0 ==> DanglingAt(flow, bad) && forall k :: k < bad ==> !DanglingAt(flow, k)
    ensures bad < 0 ==> NoDangling(flow)
    ensures bad < 0 ==> Adjacency(table.Keys, EdgeSet(flow.edges), successors, predecessors, indegree)
  {
    hide EdgeSet, NodeIds, Built, Adjacency, DanglingAt, NoDangling;
    bad := -1;
    successors, predecessors, indegree := IsolatedNodes(table.Keys);
    for k := 0 to |flow.edges|
      invariant bad == -1 && Built(flow, table.Keys, k, successors, predecessors, indegree)
    {
      BuiltEnds(flow, table.Keys, k, successors, predecessors, indegree);
      if flow.edges[k].src !in table || flow.edges[k].dst !in table {
        bad := k;
        return;
      }
      successors, predecessors, indegree := AddEdge(flow, table.Keys, k, successors, predecessors, indegree);
    }
    BuiltEnds(flow, table.Keys, |flow.edges|, successors, predecessors, indegree);
  }

  lemma BuiltEnds(
    flow: Flow, ids: set<string>, k: nat,
    successors: map<string, set<string>>, predecessors: map<string, set<string>>, indegree: map<string, int>)
    requires ids == NodeIds(flow) && Built(flow, ids, k, successors, predecessors, indegree)
    ensures k <= |flow.edges| && forall j :: j < k ==> !DanglingAt(flow, j)
    ensures k == |flow.edges| ==>
      NoDangling(flow) && Adjacency(ids, EdgeSet(flow.edges), successors, predecessors, indegree)
    ensures k < |flow.edges| ==> (DanglingAt(flow, k) <==> flow.edges[k].src !in ids || flow.edges[k].dst !in ids)
  {
    assert k == |flow.edges| ==> flow.edges[..k] == flow.edges;
  }

  lemma AdjacencyAdds(
    nodes: set<string>, edges: set<(string, string)>,
    successors: map<string, set<string>>, predecessors: map<string, set<string>>, indegree: map<string, int>,
    src: string, dst: string)
    requires Adjacency(nodes, edges, successors, predecessors, indegree)
    requires src in nodes && dst in nodes && (src, dst) !in edges
    ensures Adjacency(nodes, edges + {(src, dst)},
      successors[src := successors[src] + {dst}],
      predecessors[dst := predecessors[dst] + {src}],
      indegree[dst := indegree[dst] + 1])
  {
    assert src in successors && dst in predecessors && dst in indegree;
    hide Outgoing, Incoming;
    OutgoingAdds(nodes, edges, successors, src, dst);
    IncomingAdds(nodes, edges, predecessors, indegree, src, dst);
  }

  lemma OutgoingAdds(
    nodes: set<string>, edges: set<(string, string)>, successors: map<string, set<string>>, src: string, dst: string)
    requires Outgoing(nodes, edges, successors) && src in nodes
    ensures Outgoing(nodes, edges + {(src, dst)}, successors[src := successors[src] + {dst}])
  {
  }

  lemma IncomingAdds(
    nodes: set<string>, edges: set<(string, string)>, predecessors: map<string, set<string>>,
    indegree: map<string, int>, src: string, dst: string)
    requires Incoming(nodes, edges, predecessors, indegree) && dst in nodes && (src, dst) !in edges
    ensures Incoming(
      nodes, edges + {(src, dst)}, predecessors[dst := predecessors[dst] + {src}], indegree[dst := indegree[dst] + 1])
  {
    assert src !in predecessors[dst];
  }

  lemma NoEdges()
    ensures EdgeSet([]) == {}
  {
  }

  lemma EdgeSetExtends(edges: seq<Edge>, k: nat)
    requires k < |edges|
    ensures EdgeSet(edges[..k + 1]) == EdgeSet(edges[..k]) + {(edges[k].src, edges[k].dst)}
  {
    var now, old' := EdgeSet(edges[..k + 1]), EdgeSet(edges[..k]);
    assert edges[..k + 1] == edges[..k] + [edges[k]];
    forall p | p in now ensures p in old' + {(edges[k].src, edges[k].dst)} {
      var e :| e in edges[..k + 1] && p == (e.src, e.dst);
      if e != edges[k] {
        assert e in edges[..k];
      }
    }
    forall p | p in old' + {(edges[k].src, edges[k].dst)} ensures p in now {
      if p in old' {
        var e :| e in edges[..k] && p == (e.src, e.dst);
        assert e in edges[..k + 1];
      } else {
        assert edges[k] in edges[..k + 1];
      }
    }
  }

  // The counters agree with the order taken so far.
  ghost predicate Counted(
    nodes: set<string>, edges: set<(string, string)>, done: set<string>, indegree: map<string, int>)
  {
    indegree.Keys == nodes && forall n :: n in nodes ==> indegree[n] == |Waiting(nodes, edges, done, n)|
  }

  method InitialReady(nodes: set<string>, ghost edges: set<(string, string)>, indegree: map<string, int>)
    returns (ready: seq<string>)
    requires EdgesWithin(nodes, edges) && Counted(nodes, edges, {}, indegree)
    ensures Distinct(ready) && Elements(ready) == Ready(nodes, edges, {})
  {
    ready := [];
    var left := nodes;
    while left != {}
      invariant left <= nodes && Distinct(ready)
      invariant Elements(ready) == Ready(nodes, edges, {}) - left
    {
      var id :| id in left;
      left := left - {id};
      ReadyIsNoneWaiting(nodes, edges, {}, id);
      if indegree[id] == 0 {
        assert id !in Elements(ready);
        ElementsAppend(ready, id);
        ready := ready + [id];
      }
    }
  }

  // Takes id: lowers its successors' counters and makes those that reach zero ready.
  method Release(
    nodes: set<string>, ghost edges: set<(string, string)>, ghost done: set<string>,
    id: string, successorIds: seq<string>, indegree0: map<string, int>, ready0: seq<string>)
    returns (indegree: map<string, int>, ready: seq<string>)
    requires EdgesWithin(nodes, edges) && Counted(nodes, edges, done, indegree0)
    requires id in Ready(nodes, edges, done)
    requires forall n, a :: n in done && (a, n) in edges ==> a in done
    requires Distinct(successorIds) && forall n :: n in successorIds <==> (id, n) in edges
    requires Distinct(ready0) && Elements(ready0) == Ready(nodes, edges, done) - {id}
    ensures Counted(nodes, edges, done + {id}, indegree)
    ensures Distinct(ready) && Elements(ready) == Ready(nodes, edges, done + {id})
  {
    indegree, ready := indegree0, ready0;
    for k := 0 to |successorIds|
      invariant indegree.Keys == nodes
      invariant forall n :: n in nodes ==> indegree[n] == indegree0[n] - (if n in successorIds[..k] then 1 else 0)
      invariant Distinct(ready)
      invariant forall n :: n in ready <==>
        n in ready0 || (n in nodes && n in successorIds[..k] && indegree0[n] == 1)
    {
      var n := successorIds[k];
      assert n in successorIds && n !in successorIds[..k];
      indegree := indegree[n := indegree[n] - 1];
      assert successorIds[..k + 1] == successorIds[..k] + [n];
      if indegree[n] == 0 {
        assert n !in ready by {
          assert n !in Elements(ready0);
        }
        ready := ready + [n];
      }
    }
    assert successorIds[..|successorIds|] == successorIds;
    Released(nodes, edges, done, id, indegree0, indegree, ready0, ready);
  }

  lemma Released(
    nodes: set<string>, edges: set<(string, string)>, done: set<string>, id: string,
    indegree0: map<string, int>, indegree: map<string, int>, ready0: seq<string>, ready: seq<string>)
    requires EdgesWithin(nodes, edges) && Counted(nodes, edges, done, indegree0)
    requires id in Ready(nodes, edges, done)
    requires forall n, a :: n in done && (a, n) in edges ==> a in done
    requires Elements(ready0) == Ready(nodes, edges, done) - {id}
    requires indegree.Keys == nodes
    requires forall n :: n in nodes ==> indegree[n] == indegree0[n] - (if (id, n) in edges then 1 else 0)
    requires forall n :: n in ready <==> n in ready0 || (n in nodes && (id, n) in edges && indegree0[n] == 1)
    ensures Counted(nodes, edges, done + {id}, indegree)
    ensures Elements(ready) == Ready(nodes, edges, done + {id})
  {
    forall n | n in nodes ensures indegree[n] == |Waiting(nodes, edges, done + {id}, n)| {
      WaitingStep(nodes, edges, done, id, n);
    }
    forall n ensures n in ready <==> n in Ready(nodes, edges, done + {id}) {
      assert n in ready0 <==> n in Elements(ready0);
      if n in nodes && n !in done && n != id {
        ReadyIsNoneWaiting(nodes, edges, done, n);
        ReadyIsNoneWaiting(nodes, edges, done + {id}, n);
        WaitingStep(nodes, edges, done, id, n);
      }
    }
  }

  // sort.Strings on the ready list, then its head.
  method TakeLeast(ready0: seq<string>) returns (id: string, ready: seq<string>)
    requires Distinct(ready0) && ready0 != []
    ensures IsLeast(id, Elements(ready0))
    ensures Distinct(ready) && Elements(ready) == Elements(ready0) - {id}
  {
    SortSorts(ready0);
    var sorted := SortStrings(ready0);
    id, ready := sorted[0], sorted[1..];
    SortedHeadIsLeast(sorted);
    StrictIsDistinct(sorted);
    forall x ensures x in Elements(ready) <==> x in Elements(ready0) - {id} {
      SortedTailMembers(sorted, x);
    }
  }

  method RunKahn(
    nodes: set<string>, ghost edges: set<(string, string)>, successors: map<string, set<string>>,
    indegree0: map<string, int>)
    returns (order: seq<string>, indegree: map<string, int>)
    requires EdgesWithin(nodes, edges) && Counted(nodes, edges, {}, indegree0)
    requires successors.Keys == nodes && forall n, m :: n in nodes ==> (m in successors[n] <==> (n, m) in edges)
    ensures order == KahnOrder(nodes, edges)
    ensures Counted(nodes, edges, Elements(order), indegree)
  {
    order, indegree := [], indegree0;
    assert Elements(order) == {};
    var ready := InitialReady(nodes, edges, indegree);
    while ready != []
      invariant TopoPrefix(nodes, edges, order) && Elements(order) <= nodes
      invariant KahnFrom(nodes, edges, order) == KahnOrder(nodes, edges)
      invariant Counted(nodes, edges, Elements(order), indegree)
      invariant Distinct(ready) && Elements(ready) == Ready(nodes, edges, Elements(order))
      decreases |nodes - Elements(order)|
    {
      NoElements(ready);
      var id;
      id, ready := TakeLeast(ready);
      KahnStep(nodes, edges, order, id);
      var successorIds := SortedSet(successors[id]);
      StrictIsDistinct(successorIds);
      indegree, ready := Release(nodes, edges, Elements(order), id, successorIds, indegree, ready);
      order := order + [id];
    }
    NoElements(ready);
  }

  lemma KahnStep(nodes: set<string>, edges: set<(string, string)>, order: seq<string>, id: string)
    requires TopoPrefix(nodes, edges, order) && Elements(order) <= nodes
    requires IsLeast(id, Ready(nodes, edges, Elements(order)))
    ensures TopoPrefix(nodes, edges, order + [id])
    ensures Elements(order + [id]) == Elements(order) + {id} && id in nodes
    ensures KahnFrom(nodes, edges, order + [id]) == KahnFrom(nodes, edges, order)
    ensures |nodes - Elements(order + [id])| < |nodes - Elements(order)|
    ensures forall n, a :: n in Elements(order) && (a, n) in edges ==> a in Elements(order)
  {
    var ready := Ready(nodes, edges, Elements(order));
    LeastUnique(ready, id, Least(ready));
    TopoExtends(nodes, edges, order, id);
    DoneIsClosed(nodes, edges, order);
    StrictSubset(nodes - Elements(order + [id]), nodes - Elements(order));
  }

  lemma ElementsAppend<T>(s: seq<T>, x: T)
    ensures Elements(s + [x]) == Elements(s) + {x}
  {
  }

  lemma StrictIsDistinct(s: seq<string>)
    requires StrictlySorted(s)
    ensures Distinct(s)
  {
    forall i, j | 0 <= i < j < |s| ensures s[i] != s[j] {
      LessAsymmetric(s[i], s[j]);
    }
  }

  lemma DoneIsClosed(nodes: set<string>, edges: set<(string, string)>, order: seq<string>)
    requires TopoPrefix(nodes, edges, order)
    ensures forall n, a :: n in Elements(order) && (a, n) in edges ==> a in Elements(order)
  {
    forall n, a | n in Elements(order) && (a, n) in edges ensures a in Elements(order) {
      var i :| 0 <= i < |order| && order[i] == n;
      assert a in order[..i];
    }
  }

  method SortedSet(s: set<string>) returns (r: seq<string>)
    ensures StrictlySorted(r) && forall n :: n in r <==> n in s
  {
    r := [];
    var left := s;
    while left != {}
      invariant left <= s && Distinct(r)
      invariant forall n :: n in r <==> n in s - left
    {
      var n :| n in left;
      left := left - {n};
      assert n !in r;
      r := r + [n];
    }
    SortSorts(r);
    assert forall n :: n in r <==> n in Elements(r);
    r := SortStrings(r);
    assert forall n :: n in r <==> n in Elements(r);
  }

  // ---- greedy placement ----

  // Placing one more node changes nothing for the nodes before it.
  lemma FirstFitStable(
    table: map<string, Node>, edges: set<(string, string)>, order: seq<string>, waveOf: map<string, nat>,
    i: nat, n: nat, wave: nat)
    requires i < n < |order| && Distinct(order) && waveOf.Keys == Elements(order[..n])
    requires FirstFit(table, edges, order, waveOf, i)
    ensures FirstFit(table, edges, order, waveOf[order[n] := wave], i)
  {
    var after := waveOf[order[n] := wave];
    assert order[n] !in waveOf by {
      assert order[n] !in order[..n];
    }
    assert forall x :: x in waveOf ==> after[x] == waveOf[x];
    forall v: nat | v < after[order[i]] ensures Excluded(table, edges, order, after, i, v) {
      assert Excluded(table, edges, order, waveOf, i, v);
      if p :| (p, order[i]) in edges && p in waveOf && v <= waveOf[p] {
        assert v <= after[p];
      } else {
        var j :| 0 <= j < i && waveOf[order[j]] == v && NodesConflict(table, order[i], order[j]);
        assert after[order[j]] == v;
      }
    }
  }

  method MinWave(predecessors: set<string>, waveOf: map<string, nat>) returns (minWave: nat)
    requires predecessors <= waveOf.Keys
    ensures forall p :: p in predecessors ==> waveOf[p] < minWave
    ensures minWave == 0 || exists p :: p in predecessors && waveOf[p] + 1 == minWave
  {
    minWave := 0;
    var left := predecessors;
    while left != {}
      invariant left <= predecessors
      invariant forall p :: p in predecessors - left ==> waveOf[p] < minWave
      invariant minWave == 0 || exists p :: p in predecessors && waveOf[p] + 1 == minWave
    {
      var p :| p in left;
      left := left - {p};
      if waveOf[p] + 1 > minWave {
        minWave := waveOf[p] + 1;
      }
    }
  }

  // Some node already placed in wave v conflicts with id.
  ghost predicate Clashes(table: map<string, Node>, waveOf: map<string, nat>, id: string, v: nat) {
    exists n :: n in waveOf && waveOf[n] == v && n in table && id in table && NodesConflict(table, id, n)
  }

  method WaveConflicts(table: map<string, Node>, id: string, members: seq<string>) returns (conflict: bool)
    requires id in table && forall n :: n in members ==> n in table
    ensures conflict <==> exists n :: n in members && NodesConflict(table, id, n)
  {
    conflict := false;
    for k := 0 to |members|
      invariant !conflict && forall j :: 0 <= j < k ==> !NodesConflict(table, id, members[j])
    {
      if Scope.ListsConflict(table[id].allowedPaths, table[members[k]].allowedPaths) {
        assert NodesConflict(table, id, members[k]);
        return true;
      }
    }
  }

  // The waves under construction: not sorted yet.
  ghost predicate Holds(waves: seq<seq<string>>, waveOf: map<string, nat>) {
    && (forall w :: 0 <= w < |waves| ==> waves[w] != [] && Distinct(waves[w]))
    && (forall w, n :: 0 <= w < |waves| ==> (n in waves[w] <==> n in waveOf && waveOf[n] == w))
    && (forall n :: n in waveOf ==> waveOf[n] < |waves|)
  }

  lemma HoldsMembers(waves: seq<seq<string>>, waveOf: map<string, nat>, wave: nat)
    requires Holds(waves, waveOf)
    ensures forall n :: n in waveOf && waveOf[n] == wave ==> wave < |waves|
    ensures wave < |waves| ==> forall n :: n in waves[wave] <==> n in waveOf && waveOf[n] == wave
  {
  }

  lemma HoldsAdds(waves: seq<seq<string>>, waveOf: map<string, nat>, id: string, wave: nat)
    requires Holds(waves, waveOf) && id !in waveOf && wave <= |waves|
    ensures var grown := if wave == |waves| then waves + [[]] else waves;
      Holds(grown[wave := grown[wave] + [id]], waveOf[id := wave])
  {
    var grown := if wave == |waves| then waves + [[]] else waves;
    var after := grown[wave := grown[wave] + [id]];
    assert forall v :: 0 <= v < |after| && v != wave ==> after[v] == waves[v];
    forall n ensures n in after[wave] <==> n in waveOf[id := wave] && waveOf[id := wave][n] == wave {
    }
  }

  // Finds the wave for id, opening a new one at the end when every wave is excluded.
  method FindWave(table: map<string, Node>, id: string, minWave: nat, waves0: seq<seq<string>>, waveOf: map<string, nat>)
    returns (wave: nat, waves: seq<seq<string>>)
    requires id in table && id !in waveOf && Holds(waves0, waveOf)
    requires forall n :: n in waveOf ==> n in table
    requires minWave <= |waves0|
    ensures minWave <= wave && Holds(waves, waveOf[id := wave])
    ensures !Clashes(table, waveOf, id, wave)
    ensures forall v :: minWave <= v < wave ==> Clashes(table, waveOf, id, v)
  {
    hide Holds;
    wave, waves := minWave, waves0;
    while true
      invariant minWave <= wave <= |waves0| && waves == waves0
      invariant forall v :: minWave <= v < wave ==> Clashes(table, waveOf, id, v)
      decreases |waves0| - wave
    {
      HoldsMembers(waves, waveOf, wave);
      if wave == |waves| {
        waves := waves + [[]];
      }
      var conflict := WaveConflicts(table, id, waves[wave]);
      if !conflict {
        HoldsAdds(waves0, waveOf, id, wave);
        waves := waves[wave := waves[wave] + [id]];
        return;
      }
      wave := wave + 1;
    }
  }

  method PlaceWaves(
    table: map<string, Node>, ghost edges: set<(string, string)>, order: seq<string>,
    predecessors: map<string, set<string>>)
    returns (waves: seq<seq<string>>)
    requires TopoPrefix(table.Keys, edges, order) && predecessors.Keys == table.Keys
    requires forall n, m :: n in table ==> (m in predecessors[n] <==> (m, n) in edges)
    ensures exists waveOf :: Placed(table, edges, order, waveOf) && Lists(waves, waveOf)
  {
    waves := [];
    var waveOf: map<string, nat> := map[];
    PlacedNone(table, edges, order);
    hide TopoPrefix, PlacedUpTo, Clashes, Holds, Lists, Elements;
    for i := 0 to |order|
      invariant PlacedUpTo(table, edges, order, waveOf, i) && Holds(waves, waveOf)
    {
      var id := order[i];
      BeforePlacing(table, edges, order, waveOf, i);
      HoldsInRange(waves, waveOf);
      var minWave := MinWave(predecessors[id], waveOf);
      var wave;
      wave, waves := FindWave(table, id, minWave, waves, waveOf);
      PlacedUpToNext(table, edges, order, waveOf, i, minWave, wave);
      waveOf := waveOf[id := wave];
    }
    PlacedAll(table, edges, order, waveOf);
    waves := SortWaves(waves, waveOf);
  }

  // The first i nodes of the order have been placed.
  ghost predicate PlacedUpTo(
    table: map<string, Node>, edges: set<(string, string)>, order: seq<string>, waveOf: map<string, nat>, i: nat)
    requires i <= |order|
  {
    waveOf.Keys == Elements(order[..i]) && forall k: nat :: k < i ==> FirstFit(table, edges, order, waveOf, k)
  }

  lemma PlacedNone(table: map<string, Node>, edges: set<(string, string)>, order: seq<string>)
    ensures PlacedUpTo(table, edges, order, map[], 0) && Holds([], map[])
  {
    NoElements(order[..0]);
  }

  lemma PlacedAll(
    table: map<string, Node>, edges: set<(string, string)>, order: seq<string>, waveOf: map<string, nat>)
    requires PlacedUpTo(table, edges, order, waveOf, |order|)
    ensures Placed(table, edges, order, waveOf)
  {
    hide FirstFit;
    assert order[..|order|] == order;
  }

  lemma HoldsInRange(waves: seq<seq<string>>, waveOf: map<string, nat>)
    requires Holds(waves, waveOf)
    ensures forall n :: n in waveOf ==> waveOf[n] < |waves|
  {
  }

  // The next node is new, and its predecessors have been placed.
  lemma BeforePlacing(
    table: map<string, Node>, edges: set<(string, string)>, order: seq<string>, waveOf: map<string, nat>, i: nat)
    requires TopoPrefix(table.Keys, edges, order) && i < |order| && PlacedUpTo(table, edges, order, waveOf, i)
    ensures order[i] in table && order[i] !in waveOf
    ensures forall p :: (p, order[i]) in edges ==> p in waveOf
    ensures forall n :: n in waveOf ==> n in table
  {
    hide FirstFit;
    assert forall n :: n in waveOf ==> n in order[..i];
    assert order[i] !in order[..i];
    forall p | (p, order[i]) in edges ensures p in waveOf {
      assert p in order[..i];
    }
  }

  lemma PlacedUpToNext(
    table: map<string, Node>, edges: set<(string, string)>, order: seq<string>, waveOf: map<string, nat>,
    i: nat, minWave: nat, wave: nat)
    requires TopoPrefix(table.Keys, edges, order) && i < |order|
    requires PlacedUpTo(table, edges, order, waveOf, i) && minWave <= wave
    requires forall p :: (p, order[i]) in edges ==> p in waveOf && waveOf[p] < minWave
    requires minWave == 0 || exists p :: (p, order[i]) in edges && waveOf[p] + 1 == minWave
    requires !Clashes(table, waveOf, order[i], wave)
    requires forall v :: minWave <= v < wave ==> Clashes(table, waveOf, order[i], v)
    ensures PlacedUpTo(table, edges, order, waveOf[order[i] := wave], i + 1)
  {
    assert Distinct(order);
    hide FirstFit, Clashes, NodesConflict, TopoPrefix, Distinct;
    PlacedNext(table, edges, order, waveOf, i, minWave, wave);
    BeforePlacing(table, edges, order, waveOf, i);
    assert order[..i + 1] == order[..i] + [order[i]];
    ElementsConcat(order[..i], [order[i]]);
    ElementsSingle(order[i]);
    var after := waveOf[order[i] := wave];
    forall k: nat | k < i ensures FirstFit(table, edges, order, after, k) {
      FirstFitStable(table, edges, order, waveOf, k, i, wave);
    }
  }

  lemma PlacedNext(
    table: map<string, Node>, edges: set<(string, string)>, order: seq<string>, waveOf: map<string, nat>,
    i: nat, minWave: nat, wave: nat)
    requires TopoPrefix(table.Keys, edges, order) && i < |order|
    requires waveOf.Keys == Elements(order[..i]) && minWave <= wave
    requires forall p :: (p, order[i]) in edges ==> p in waveOf && waveOf[p] < minWave
    requires minWave == 0 || exists p :: (p, order[i]) in edges && waveOf[p] + 1 == minWave
    requires !Clashes(table, waveOf, order[i], wave)
    requires forall v :: minWave <= v < wave ==> Clashes(table, waveOf, order[i], v)
    ensures FirstFit(table, edges, order, waveOf[order[i] := wave], i)
  {
    hide NodesConflict;
    var after := waveOf[order[i] := wave];
    assert order[i] !in waveOf by {
      assert order[i] !in order[..i];
    }
    forall j | 0 <= j < i ensures order[j] in waveOf && after[order[j]] == waveOf[order[j]] {
      assert order[..i][j] == order[j];
    }
    forall v: nat | v < wave ensures Excluded(table, edges, order, after, i, v) {
      if v < minWave {
        var p :| (p, order[i]) in edges && waveOf[p] + 1 == minWave;
        assert v <= after[p];
      } else {
        assert Clashes(table, waveOf, order[i], v);
        var n :| n in waveOf && waveOf[n] == v && NodesConflict(table, order[i], n);
        var j :| 0 <= j < i && order[..i][j] == n;
        assert after[order[j]] == v;
      }
    }
  }

  method SortWaves(waves0: seq<seq<string>>, ghost waveOf: map<string, nat>) returns (waves: seq<seq<string>>)
    requires Holds(waves0, waveOf)
    ensures Lists(waves, waveOf)
  {
    waves := waves0;
    for w := 0 to |waves0|
      invariant |waves| == |waves0|
      invariant forall v :: w <= v < |waves| ==> waves[v] == waves0[v]
      invariant forall v :: 0 <= v < w ==> waves[v] != [] && StrictlySorted(waves[v])
      invariant forall v, n :: 0 <= v < |waves| ==> (n in waves[v] <==> n in waves0[v])
    {
      SortSorts(waves[w]);
      ghost var members := waves[w];
      waves := waves[w := SortStrings(waves[w])];
      forall n ensures n in waves[w] <==> n in members {
        assert n in waves[w] <==> n in Elements(waves[w]);
        assert n in members <==> n in Elements(members);
      }
      NoElements(members);
      NoElements(waves[w]);
    }
  }

  // The nodes whose counter never reached zero.
  method ResidualOf(nodes: set<string>, ghost edges: set<(string, string)>, indegree: map<string, int>)
    returns (residual: set<string>)
    requires EdgesWithin(nodes, edges)
    requires Counted(nodes, edges, Elements(KahnOrder(nodes, edges)), indegree)
    ensures residual == Residual(nodes, edges)
  {
    hide Residual, Counted, KahnOrder, Waiting;
    CountsTellResidual(nodes, edges, indegree);
    residual := {};
    var left := nodes;
    while left != {}
      invariant left <= nodes && residual == Residual(nodes, edges) - left
    {
      var id :| id in left;
      left := left - {id};
      if indegree[id] > 0 {
        residual := residual + {id};
      }
    }
  }

  // The least of them.
  method LeastResidual(nodes: set<string>, ghost edges: set<(string, string)>, indegree: map<string, int>)
    returns (node: string)
    requires EdgesWithin(nodes, edges)
    requires Counted(nodes, edges, Elements(KahnOrder(nodes, edges)), indegree)
    requires Residual(nodes, edges) != {}
    ensures IsLeast(node, Residual(nodes, edges))
  {
    var residual := ResidualOf(nodes, edges, indegree);
    hide Residual, Counted, KahnOrder;
    var sorted := SortedSet(residual);
    assert Elements(sorted) == residual;
    NoElements(sorted);
    SortedHeadIsLeast(sorted);
    node := sorted[0];
  }

  lemma CountsTellResidual(nodes: set<string>, edges: set<(string, string)>, indegree: map<string, int>)
    requires EdgesWithin(nodes, edges)
    requires Counted(nodes, edges, Elements(KahnOrder(nodes, edges)), indegree)
    ensures indegree.Keys == nodes && Residual(nodes, edges) <= nodes
    ensures forall id :: id in nodes ==> (indegree[id] > 0 <==> id in Residual(nodes, edges))
  {
    forall id | id in nodes ensures indegree[id] > 0 <==> id in Residual(nodes, edges) {
      CountTellsResidual(nodes, edges, id);
    }
  }

  // A counter is positive at the end exactly for a residual node.
  lemma CountTellsResidual(nodes: set<string>, edges: set<(string, string)>, id: string)
    requires EdgesWithin(nodes, edges) && id in nodes
    ensures id in Residual(nodes, edges) <==>
      |Waiting(nodes, edges, Elements(KahnOrder(nodes, edges)), id)| > 0
  {
    var order := KahnOrder(nodes, edges);
    KahnIsMaximal(nodes, edges);
    if id in order {
      DoneIsClosed(nodes, edges, order);
      assert id in Elements(order);
      assert Waiting(nodes, edges, Elements(order), id) == {};
    } else {
      ReadyIsNoneWaiting(nodes, edges, Elements(order), id);
    }
  }

  method ScheduleWaves(flow: Flow) returns (result: ScheduleResult)
    ensures result.Dangling? <==> !NoDangling(flow)
    ensures result.Dangling? ==> exists k ::
      && DanglingAt(flow, k) && (forall j :: j < k ==> !DanglingAt(flow, j))
      && flow.edges[k].src == result.src && flow.edges[k].dst == result.dst
    ensures !result.Dangling? ==> (result.Cycle? <==> HasCycle(EdgeSet(flow.edges)))
    ensures result.Cycle? ==> IsLeast(result.node, Residual(NodeIds(flow), EdgeSet(flow.edges)))
    ensures result.Scheduled? ==> IsSchedule(NodeTable(flow.nodes), EdgeSet(flow.edges), result.waves)
  {
    var table := BuildTable(flow.nodes);
    assert table.Keys == NodeIds(flow);
    var bad, successors, predecessors, indegree := BuildGraph(flow, table);
    if bad >= 0 {
      return Dangling(flow.edges[bad].src, flow.edges[bad].dst);
    }
    ghost var edges := EdgeSet(flow.edges);
    StartsCounted(table.Keys, edges, successors, predecessors, indegree);
    var order;
    order, indegree := RunKahn(table.Keys, edges, successors, indegree);
    KahnIsMaximal(table.Keys, edges);
    ResidualIsBehindCycles(table.Keys, edges);
    OrderIsComplete(table.Keys, edges);
    if |order| != |table| {
      var node := LeastResidual(table.Keys, edges, indegree);
      return Cycle(node);
    }
    var waves := PlaceWaves(table, edges, order, predecessors);
    return Scheduled(waves);
  }

  lemma StartsCounted(
    nodes: set<string>, edges: set<(string, string)>,
    successors: map<string, set<string>>, predecessors: map<string, set<string>>, indegree: map<string, int>)
    requires EdgesWithin(nodes, edges) && Adjacency(nodes, edges, successors, predecessors, indegree)
    ensures Counted(nodes, edges, {}, indegree)
  {
    forall n | n in nodes ensures indegree[n] == |Waiting(nodes, edges, {}, n)| {
      assert predecessors[n] == Waiting(nodes, edges, {}, n);
    }
  }

  // The scheduler's length test is the test for an empty residual.
  lemma OrderIsComplete(nodes: set<string>, edges: set<(string, string)>)
    ensures |KahnOrder(nodes, edges)| == |nodes| <==> Residual(nodes, edges) == {}
  {
    var order := KahnOrder(nodes, edges);
    KahnIsMaximal(nodes, edges);
    DistinctLength(order);
    if Residual(nodes, edges) != {} {
      StrictSubset(Elements(order), nodes);
    } else {
      assert nodes == Elements(order) by {
      forall n ensures n in nodes <==> n in Elements(order) {
        assert n in nodes ==> n !in Residual(nodes, edges);
      }
      }
    }
  }
}
