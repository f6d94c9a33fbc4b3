// Directed graphs as edge sets: paths, cycles, and what repeatedly taking a node whose
// predecessors are all taken leaves behind. The flow scheduler, the flow lint and the program
// queue are all proved against these definitions.
module Digraph {
  import opened Ordering

  ghost predicate IsPath<T(!new)>(edges: set<(T, T)>, p: seq<T>) {
    && |p| >= 1
    && forall i :: 0 <= i < |p| - 1 ==> (p[i], p[i + 1]) in edges
  }

  // There is a walk, possibly of length zero, from a to b.
  ghost predicate Reaches<T(!new)>(edges: set<(T, T)>, a: T, b: T) {
    exists p :: IsPath(edges, p) && p[0] == a && p[|p| - 1] == b
  }

  ghost predicate IsCycleThrough<T(!new)>(edges: set<(T, T)>, a: T, p: seq<T>) {
    IsPath(edges, p) && |p| >= 2 && p[0] == a && p[|p| - 1] == a
  }

  // a lies on a directed cycle; a self-loop counts.
  ghost predicate OnCycle<T(!new)>(edges: set<(T, T)>, a: T) {
    exists p :: IsCycleThrough(edges, a, p)
  }

  ghost predicate HasCycle<T(!new)>(edges: set<(T, T)>) {
    exists a :: OnCycle(edges, a)
  }

  ghost predicate EdgesWithin<T>(nodes: set<T>, edges: set<(T, T)>) {
    forall e :: e in edges ==> e.0 in nodes && e.1 in nodes
  }

  // Every node of the list comes after all of its predecessors.
  ghost predicate TopoPrefix<T(!new)>(nodes: set<T>, edges: set<(T, T)>, order: seq<T>) {
    && Distinct(order)
    && (forall i :: 0 <= i < |order| ==> order[i] in nodes)
    && (forall i, a :: 0 <= i < |order| && (a, order[i]) in edges ==> a in order[..i])
  }

  // The nodes that may come next.
  ghost function Ready<T(!new)>(nodes: set<T>, edges: set<(T, T)>, done: set<T>): set<T> {
    set n | n in nodes && n !in done && forall a :: (a, n) in edges ==> a in done
  }

  lemma {:induction false} TopoIndex<T(!new)>(nodes: set<T>, edges: set<(T, T)>, order: seq<T>, p: seq<T>, last: nat)
    returns (first: nat)
    requires TopoPrefix(nodes, edges, order) && IsPath(edges, p)
    requires last < |order| && order[last] == p[|p| - 1]
    ensures first < |order| && order[first] == p[0] && first + |p| - 1 <= last
    decreases |p|
  {
    if |p| == 1 {
      first := last;
    } else {
      var q := p[..|p| - 1];
      assert (p[|p| - 2], p[|p| - 1]) in edges;
      assert p[|p| - 2] in order[..last];
      var k :| 0 <= k < last && order[k] == p[|p| - 2];
      first := TopoIndex(nodes, edges, order, q, k);
    }
  }

  lemma CycleNeverOrdered<T(!new)>(nodes: set<T>, edges: set<(T, T)>, order: seq<T>, c: T, n: T)
    requires TopoPrefix(nodes, edges, order)
    requires OnCycle(edges, c) && Reaches(edges, c, n)
    ensures n !in order
  {
    if n in order {
      var p :| IsPath(edges, p) && p[0] == c && p[|p| - 1] == n;
      var last :| 0 <= last < |order| && order[last] == n;
      var at := TopoIndex(nodes, edges, order, p, last);
      var q :| IsCycleThrough(edges, c, q);
      var before := TopoIndex(nodes, edges, order, q, at);
      assert false;
    }
  }

  // Walking backwards from a node that cannot be ordered.
  lemma {:induction false} Backwalk<T(!new)>(nodes: set<T>, edges: set<(T, T)>, done: set<T>, n: T, k: nat)
    returns (p: seq<T>)
    requires EdgesWithin(nodes, edges)
    requires Ready(nodes, edges, done) == {}
    requires n in nodes && n !in done
    ensures |p| == k + 1 && IsPath(edges, p) && p[k] == n
    ensures forall i :: 0 <= i < |p| ==> p[i] in nodes && p[i] !in done
  {
    if k == 0 {
      p := [n];
    } else {
      var q := Backwalk(nodes, edges, done, n, k - 1);
      assert q[0] !in Ready(nodes, edges, done);
      var a :| (a, q[0]) in edges && a !in done;
      p := [a] + q;
      forall i | 0 <= i < |p| - 1 ensures (p[i], p[i + 1]) in edges {
        if i > 0 {
          assert (q[i - 1], q[i]) in edges;
        }
      }
    }
  }

  lemma {:induction false} Pigeonhole<T(!new)>(s: set<T>, p: seq<T>)
    requires |p| > |s|
    requires forall i :: 0 <= i < |p| ==> p[i] in s
    ensures exists i, j :: 0 <= i < j < |p| && p[i] == p[j]
    decreases |p|
  {
    var x := p[|p| - 1];
    var q := p[..|p| - 1];
    if x in q {
      var i :| 0 <= i < |q| && q[i] == x;
      assert p[i] == p[|p| - 1];
    } else {
      forall i | 0 <= i < |q| ensures q[i] in s - {x} {
        assert q[i] in q;
      }
      Pigeonhole(s - {x}, q);
      var i, j :| 0 <= i < j < |q| && q[i] == q[j];
      assert p[i] == p[j];
    }
  }

  lemma StuckIsBehindCycle<T(!new)>(nodes: set<T>, edges: set<(T, T)>, done: set<T>, n: T)
    requires EdgesWithin(nodes, edges)
    requires Ready(nodes, edges, done) == {}
    requires n in nodes && n !in done
    ensures exists c :: c in nodes && OnCycle(edges, c) && Reaches(edges, c, n)
  {
    var p := Backwalk(nodes, edges, done, n, |nodes|);
    Pigeonhole(nodes, p);
    var i, j :| 0 <= i < j < |p| && p[i] == p[j];
    var cycle := p[i..j + 1];
    assert IsCycleThrough(edges, p[i], cycle);
    var tail := p[i..];
    assert IsPath(edges, tail) && tail[0] == p[i] && tail[|tail| - 1] == n;
    assert OnCycle(edges, p[i]) && Reaches(edges, p[i], n);
  }

  // What elimination leaves over is exactly what lies on or downstream of a cycle.
  lemma ResidualExact<T(!new)>(nodes: set<T>, edges: set<(T, T)>, order: seq<T>)
    requires EdgesWithin(nodes, edges)
    requires TopoPrefix(nodes, edges, order)
    requires Ready(nodes, edges, Elements(order)) == {}
    ensures forall n :: n in nodes ==>
      (n !in order <==> exists c :: OnCycle(edges, c) && Reaches(edges, c, n))
  {
    forall n | n in nodes
      ensures n !in order <==> exists c :: OnCycle(edges, c) && Reaches(edges, c, n)
    {
      if n !in order {
        StuckIsBehindCycle(nodes, edges, Elements(order), n);
      } else {
        forall c | OnCycle(edges, c) && Reaches(edges, c, n) ensures false {
          CycleNeverOrdered(nodes, edges, order, c, n);
        }
      }
    }
  }

  lemma CycleWithin<T(!new)>(nodes: set<T>, edges: set<(T, T)>, c: T)
    requires EdgesWithin(nodes, edges) && OnCycle(edges, c)
    ensures c in nodes && Reaches(edges, c, c)
  {
    var p :| IsCycleThrough(edges, c, p);
    assert (p[0], p[1]) in edges;
    assert IsPath(edges, p) && p[0] == c && p[|p| - 1] == c;
  }

  // Elimination orders every node exactly when there is no cycle.
  lemma CompleteIffAcyclic<T(!new)>(nodes: set<T>, edges: set<(T, T)>, order: seq<T>)
    requires EdgesWithin(nodes, edges)
    requires TopoPrefix(nodes, edges, order)
    requires Ready(nodes, edges, Elements(order)) == {}
    ensures (forall n :: n in nodes ==> n in order) <==> !HasCycle(edges)
  {
    ResidualExact(nodes, edges, order);
    if HasCycle(edges) {
      var c :| OnCycle(edges, c);
      CycleWithin(nodes, edges, c);
    }
  }

  lemma {:induction false} DistinctLength<T>(s: seq<T>)
    requires Distinct(s)
    ensures |Elements(s)| == |s|
  {
    if s != [] {
      var q := s[..|s| - 1];
      DistinctLength(q);
      assert s[|s| - 1] !in q;
      assert Elements(s) == Elements(q) + {s[|s| - 1]};
    } else {
      assert Elements(s) == {};
    }
  }

  lemma StrictSubset<T>(a: set<T>, b: set<T>)
    requires a < b
    ensures |a| < |b|
  {
    var x :| x in b && x !in a;
    assert a <= b - {x};
    SubsetSize(a, b - {x});
  }

  lemma {:induction false} SubsetSize<T>(a: set<T>, b: set<T>)
    requires a <= b
    ensures |a| <= |b|
    decreases |a|
  {
    if a != {} {
      var x :| x in a;
      SubsetSize(a - {x}, b - {x});
    }
  }

  // A topological prefix covers the nodes exactly when it is as long as there are nodes.
  lemma PrefixCovers<T(!new)>(nodes: set<T>, edges: set<(T, T)>, order: seq<T>)
    requires TopoPrefix(nodes, edges, order)
    ensures |order| <= |nodes|
    ensures (forall n :: n in nodes ==> n in order) <==> |order| == |nodes|
  {
    DistinctLength(order);
    SubsetSize(Elements(order), nodes);
    if Elements(order) < nodes {
      StrictSubset(Elements(order), nodes);
      var n :| n in nodes && n !in Elements(order);
    } else {
      assert Elements(order) == nodes;
    }
  }

  // Without a cycle, a path visits no node twice.
  lemma AcyclicPathFits<T(!new)>(nodes: set<T>, edges: set<(T, T)>, p: seq<T>)
    requires IsPath(edges, p) && forall i :: 0 <= i < |p| ==> p[i] in nodes
    requires !HasCycle(edges)
    ensures |p| <= |nodes|
  {
    if |p| > |nodes| {
      Pigeonhole(nodes, p);
      var i, j :| 0 <= i < j < |p| && p[i] == p[j];
      var loop := p[i..j + 1];
      forall k | 0 <= k < |loop| - 1 ensures (loop[k], loop[k + 1]) in edges {
        assert (p[i + k], p[i + k + 1]) in edges;
      }
      assert IsCycleThrough(edges, p[i], loop);
      assert OnCycle(edges, p[i]);
    }
  }
}
