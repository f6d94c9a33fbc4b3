// The declarative flow graph and the vocabulary its scheduler, lint and engine share.
module FlowModel {
  import opened Ordering
  import opened Digraph
  import Scope

  // withKeys stands for the keys of the node's free-form "with" object; its values only reach
  // the executor.
  datatype Node = Node(
    id: string,
    uses: string,
    lane: string,
    withKeys: set<string>,
    allowedPaths: seq<string>,
    maxVisits: int)

  datatype Edge = Edge(src: string, dst: string, when: string)

  datatype Flow = Flow(nodes: seq<Node>, edges: seq<Edge>)

  // Later nodes with an id already taken are dropped.
  function NodeTable(nodes: seq<Node>): map<string, Node> {
    if nodes == [] then map[]
    else
      var rest := NodeTable(nodes[..|nodes| - 1]);
      var last := nodes[|nodes| - 1];
      if last.id in rest then rest else rest[last.id := last]
  }

  ghost function NodeIds(flow: Flow): set<string> {
    NodeTable(flow.nodes).Keys
  }

  // Edges without their conditions and without repeats.
  ghost function EdgeSet(edges: seq<Edge>): set<(string, string)> {
    set e | e in edges :: (e.src, e.dst)
  }

  ghost predicate DanglingAt(flow: Flow, k: int) {
    0 <= k < |flow.edges|
    && (flow.edges[k].src !in NodeIds(flow) || flow.edges[k].dst !in NodeIds(flow))
  }

  ghost predicate NoDangling(flow: Flow) {
    forall k :: !DanglingAt(flow, k)
  }

  lemma {:induction false} TableIds(nodes: seq<Node>)
    ensures forall id :: id in NodeTable(nodes) <==> exists k :: 0 <= k < |nodes| && nodes[k].id == id
    ensures forall id :: id in NodeTable(nodes) ==> NodeTable(nodes)[id].id == id
  {
    if nodes != [] {
      var init, last := nodes[..|nodes| - 1], nodes[|nodes| - 1];
      TableIds(init);
      forall id ensures id in NodeTable(nodes) <==> exists k :: 0 <= k < |nodes| && nodes[k].id == id {
        if id in NodeTable(nodes) {
          if id in NodeTable(init) {
            var k :| 0 <= k < |init| && init[k].id == id;
            assert nodes[k].id == id;
          } else {
            assert nodes[|nodes| - 1].id == id;
          }
        }
        if k :| 0 <= k < |nodes| && nodes[k].id == id {
          if k < |init| {
            assert init[k].id == id;
          }
        }
      }
    }
  }

  // The k-th node is the first with its id.
  ghost predicate FirstOfId(nodes: seq<Node>, k: nat)
    requires k < |nodes|
  {
    forall j :: 0 <= j < k ==> nodes[j].id != nodes[k].id
  }

  ghost predicate KeptFrom(nodes: seq<Node>, id: string, node: Node) {
    exists k: nat :: k < |nodes| && nodes[k] == node && node.id == id && FirstOfId(nodes, k)
  }

  lemma {:induction false} TableKeepsFirst(nodes: seq<Node>)
    ensures forall id :: id in NodeTable(nodes) ==> KeptFrom(nodes, id, NodeTable(nodes)[id])
  {
    if nodes != [] {
      var n := |nodes| - 1;
      var init, last := nodes[..n], nodes[n];
      TableKeepsFirst(init);
      TableIds(init);
      forall id | id in NodeTable(nodes) ensures KeptFrom(nodes, id, NodeTable(nodes)[id]) {
        if id in NodeTable(init) {
          var k: nat :| k < n && init[k] == NodeTable(init)[id] && init[k].id == id && FirstOfId(init, k);
          assert nodes[k] == init[k] && forall j :: 0 <= j < k ==> nodes[j] == init[j];
          assert FirstOfId(nodes, k);
        } else {
          assert forall j :: 0 <= j < n ==> nodes[j] == init[j];
          assert FirstOfId(nodes, n);
        }
      }
    }
  }

  // Two nodes may not share a wave.
  predicate NodesConflict(table: map<string, Node>, a: string, b: string)
    requires a in table && b in table
  {
    Scope.ListsConflict(table[a].allowedPaths, table[b].allowedPaths)
  }

  // ---- Kahn's order ----

  // The predecessors of n that are not taken yet.
  ghost function Waiting(nodes: set<string>, edges: set<(string, string)>, done: set<string>, n: string): set<string> {
    set a | a in nodes && (a, n) in edges && a !in done
  }

  // Repeatedly take the least node all of whose predecessors are taken.
  ghost function KahnFrom(nodes: set<string>, edges: set<(string, string)>, done: seq<string>): seq<string>
    requires Elements(done) <= nodes
    decreases |nodes - Elements(done)|
  {
    var ready := Ready(nodes, edges, Elements(done));
    if ready == {} then done
    else
      var next := Least(ready);
      ReadyIsNew(nodes, edges, done, next);
      TopoProgress(nodes, done, next);
      KahnFrom(nodes, edges, done + [next])
  }

  ghost function KahnOrder(nodes: set<string>, edges: set<(string, string)>): seq<string> {
    assert Elements<string>([]) == {};
    KahnFrom(nodes, edges, [])
  }

  lemma {:induction false} KahnFromIsMaximal(nodes: set<string>, edges: set<(string, string)>, done: seq<string>)
    requires TopoPrefix(nodes, edges, done) && Elements(done) <= nodes
    ensures TopoPrefix(nodes, edges, KahnFrom(nodes, edges, done))
    ensures Ready(nodes, edges, Elements(KahnFrom(nodes, edges, done))) == {}
    decreases |nodes - Elements(done)|
  {
    var ready := Ready(nodes, edges, Elements(done));
    if ready != {} {
      var next := Least(ready);
      TopoExtends(nodes, edges, done, next);
      ReadyIsNew(nodes, edges, done, next);
      TopoProgress(nodes, done, next);
      KahnFromIsMaximal(nodes, edges, done + [next]);
    }
  }

  lemma TopoExtends(nodes: set<string>, edges: set<(string, string)>, done: seq<string>, next: string)
    requires TopoPrefix(nodes, edges, done) && next in Ready(nodes, edges, Elements(done))
    ensures TopoPrefix(nodes, edges, done + [next])
    ensures Elements(done + [next]) == Elements(done) + {next}
  {
    var longer := done + [next];
    forall i, a | 0 <= i < |longer| && (a, longer[i]) in edges ensures a in longer[..i] {
      if i < |done| {
        assert a in done[..i];
        assert longer[..i] == done[..i];
      } else {
        assert a in Elements(done);
        assert longer[..i] == done;
      }
    }
  }

  lemma KahnIsMaximal(nodes: set<string>, edges: set<(string, string)>)
    ensures TopoPrefix(nodes, edges, KahnOrder(nodes, edges))
    ensures Ready(nodes, edges, Elements(KahnOrder(nodes, edges))) == {}
  {
    assert Elements<string>([]) == {};
    KahnFromIsMaximal(nodes, edges, []);
  }

  // A listing of all the nodes in which predecessors come first.
  ghost predicate TopoOrder(nodes: set<string>, edges: set<(string, string)>, order: seq<string>) {
    TopoPrefix(nodes, edges, order) && Elements(order) == nodes
  }

  lemma {:induction false} KahnFromExtends(nodes: set<string>, edges: set<(string, string)>, done: seq<string>)
    requires Elements(done) <= nodes
    ensures done <= KahnFrom(nodes, edges, done)
    decreases |nodes - Elements(done)|
  {
    var ready := Ready(nodes, edges, Elements(done));
    if ready != {} {
      var next := Least(ready);
      ReadyIsNew(nodes, edges, done, next);
      TopoProgress(nodes, done, next);
      KahnFromExtends(nodes, edges, done + [next]);
    }
  }

  // At the first position where another topological order differs, Kahn's has the smaller id.
  lemma {:induction false} KahnFromIsLeast(
    nodes: set<string>, edges: set<(string, string)>, done: seq<string>, other: seq<string>)
    requires TopoOrder(nodes, edges, other) && done <= other && Elements(done) <= nodes
    ensures var kahn := KahnFrom(nodes, edges, done);
      kahn == other
      || exists i :: 0 <= i < |kahn| && i < |other| && kahn[..i] == other[..i] && Less(kahn[i], other[i])
    decreases |nodes - Elements(done)|
  {
    hide Elements;
    var kahn := KahnFrom(nodes, edges, done);
    var k := |done|;
    if k == |other| {
      assert done == other;
      NothingLeft(nodes, edges);
    } else {
      NextIsReady(nodes, edges, done, other);
      var next := Least(Ready(nodes, edges, Elements(done)));
      ReadyIsNew(nodes, edges, done, next);
      TopoProgress(nodes, done, next);
      if other[k] == next {
        assert done + [next] <= other;
        KahnFromIsLeast(nodes, edges, done + [next], other);
      } else {
        KahnFromExtends(nodes, edges, done + [next]);
        assert kahn[..k] == (done + [next])[..k] == done == other[..k];
        assert kahn[k] == (done + [next])[k];
      }
    }
  }

  lemma NextIsReady(nodes: set<string>, edges: set<(string, string)>, done: seq<string>, other: seq<string>)
    requires TopoOrder(nodes, edges, other) && done < other
    ensures other[|done|] in Ready(nodes, edges, Elements(done))
  {
    var k := |done|;
    assert done == other[..k];
    assert other[k] in Elements(other);
    forall a | (a, other[k]) in edges ensures a in Elements(done) {
      assert a in other[..k];
    }
  }

  lemma NothingLeft(nodes: set<string>, edges: set<(string, string)>)
    ensures Ready(nodes, edges, nodes) == {}
  {
  }

  lemma ReadyIsNew(nodes: set<string>, edges: set<(string, string)>, done: seq<string>, next: string)
    requires next in Ready(nodes, edges, Elements(done))
    ensures next in nodes && next !in done
  {
  }

  lemma TopoProgress(nodes: set<string>, done: seq<string>, next: string)
    requires Elements(done) <= nodes && next in nodes && next !in done
    ensures Elements(done + [next]) == Elements(done) + {next}
    ensures |nodes - Elements(done + [next])| < |nodes - Elements(done)|
  {
    ElementsConcat(done, [next]);
    ElementsSingle(next);
    var before, after := nodes - Elements(done), nodes - Elements(done + [next]);
    assert next in before && next !in after;
    StrictSubset(after, before);
  }

  // Kahn's order is the lexicographically least topological order.
  lemma KahnIsLexicographicallyLeast(nodes: set<string>, edges: set<(string, string)>, other: seq<string>)
    requires TopoOrder(nodes, edges, other)
    ensures var kahn := KahnOrder(nodes, edges);
      kahn == other
      || exists i :: 0 <= i < |kahn| && i < |other| && kahn[..i] == other[..i] && Less(kahn[i], other[i])
  {
    assert Elements<string>([]) == {};
    KahnFromIsLeast(nodes, edges, [], other);
  }

  // What Kahn's order leaves over.
  ghost function Residual(nodes: set<string>, edges: set<(string, string)>): set<string> {
    nodes - Elements(KahnOrder(nodes, edges))
  }

  // The residual is what lies on or behind a directed cycle, and is empty without one.
  lemma ResidualIsBehindCycles(nodes: set<string>, edges: set<(string, string)>)
    requires EdgesWithin(nodes, edges)
    ensures forall n :: n in Residual(nodes, edges) <==>
      n in nodes && exists c :: OnCycle(edges, c) && Reaches(edges, c, n)
    ensures Residual(nodes, edges) != {} <==> HasCycle(edges)
  {
    var order := KahnOrder(nodes, edges);
    KahnIsMaximal(nodes, edges);
    ResidualExact(nodes, edges, order);
    CompleteIffAcyclic(nodes, edges, order);
    forall n | n in nodes ensures n in Residual(nodes, edges) <==> n !in order {
    }
  }

  lemma WaitingStep(nodes: set<string>, edges: set<(string, string)>, done: set<string>, id: string, n: string)
    requires id in nodes && id !in done
    ensures |Waiting(nodes, edges, done + {id}, n)|
      == |Waiting(nodes, edges, done, n)| - (if (id, n) in edges then 1 else 0)
  {
    var before, after := Waiting(nodes, edges, done, n), Waiting(nodes, edges, done + {id}, n);
    assert after == before - {id};
  }

  lemma ReadyIsNoneWaiting(nodes: set<string>, edges: set<(string, string)>, done: set<string>, n: string)
    requires EdgesWithin(nodes, edges) && n in nodes && n !in done
    ensures n in Ready(nodes, edges, done) <==> |Waiting(nodes, edges, done, n)| == 0
  {
    if n !in Ready(nodes, edges, done) {
      var a :| (a, n) in edges && a !in done;
      assert a in Waiting(nodes, edges, done, n);
    }
  }
}
