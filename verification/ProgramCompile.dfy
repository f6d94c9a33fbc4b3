// The compile-time dependency check: a three-colour depth-first search over the missions' After
// lists, and what a program without a dependency finding means for the executor.
module ProgramCompile {
  import opened Ordering
  import opened Digraph
  import opened ProgramQueue

  const WHITE := 0
  const GREY := 1
  const BLACK := 2

  ghost function Positions(after: seq<seq<int>>): set<int> {
    set i {:trigger after[i]} | 0 <= i < |after|
  }

  // From an in-range dependency to the mission that names it.
  ghost function AfterEdges(after: seq<seq<int>>): set<(int, int)> {
    set i, d | 0 <= i < |after| && d in after[i] && 0 <= d < |after| :: (d, i)
  }

  // The colours agree with the missions left behind for good and those on the way to the current
  // one: finished lists the black ones after their dependencies, trail the grey ones, each named
  // by the next.
  ghost predicate Coloured(after: seq<seq<int>>, colours: seq<int>, trail: seq<int>, finished: seq<int>) {
    && |colours| == |after|
    && (forall i :: 0 <= i < |colours| ==> colours[i] == WHITE || colours[i] == GREY || colours[i] == BLACK)
    && (forall i :: 0 <= i < |colours| ==> (colours[i] == GREY <==> i in trail))
    && (forall i :: 0 <= i < |colours| ==> (colours[i] == BLACK <==> i in finished))
    && (forall i :: i in trail ==> 0 <= i < |after|)
    && TopoPrefix(Positions(after), AfterEdges(after), finished)
  }

  ghost function Whites(colours: seq<int>): set<int> {
    set i | 0 <= i < |colours| && colours[i] == WHITE
  }

  lemma TrailClosesCycle(after: seq<seq<int>>, trail: seq<int>, index: int)
    requires IsPath(AfterEdges(after), [index] + trail) && index in trail
    ensures HasCycle(AfterEdges(after))
  {
    var j :| 0 <= j < |trail| && trail[j] == index;
    var whole := [index] + trail;
    var cycle := whole[..j + 2];
    assert cycle[|cycle| - 1] == trail[j];
    assert IsCycleThrough(AfterEdges(after), index, cycle);
    assert OnCycle(AfterEdges(after), index);
  }

  method Visit(after: seq<seq<int>>, state: array<int>, index: nat, ghost trail: seq<int>, ghost finished0: seq<int>)
    returns (found: bool, ghost finished: seq<int>)
    requires index < |after| && Coloured(after, state[..], trail, finished0)
    requires IsPath(AfterEdges(after), [index] + trail)
    modifies state
    ensures found ==> HasCycle(AfterEdges(after))
    ensures !found ==> Coloured(after, state[..], trail, finished) && index in finished
    ensures !found ==> forall i :: i in finished0 ==> i in finished
    ensures !found ==> Whites(state[..]) <= old(Whites(state[..]))
    decreases |Whites(state[..])|
  {
    finished := finished0;
    if state[index] == GREY {
      TrailClosesCycle(after, trail, index);
      return true, finished;
    }
    if state[index] == BLACK {
      return false, finished;
    }
    ghost var before := state[..];
    Whitens(after, before, trail, finished, index);
    state[index] := GREY;
    assert state[..] == before[index := GREY];
    for k := 0 to |after[index]|
      invariant Coloured(after, state[..], [index] + trail, finished)
      invariant |Whites(state[..])| < |Whites(before)| && Whites(state[..]) <= Whites(before)
      invariant forall d :: d in after[index][..k] && 0 <= d < |after| ==> d in finished
      invariant forall i :: i in finished0 ==> i in finished
    {
      var dependency := after[index][k];
      assert after[index][..k + 1] == after[index][..k] + [dependency];
      if 0 <= dependency < |after| {
        assert dependency in after[index];
        StepsOn(after, [index] + trail, index, dependency);
        ghost var colours := state[..];
        var cyclic;
        cyclic, finished := Visit(after, state, dependency, [index] + trail, finished);
        if cyclic {
          return true, finished;
        }
        SubsetSize(Whites(state[..]), Whites(colours));
      }
    }
    assert after[index][..|after[index]|] == after[index];
    ghost var grey := state[..];
    Blackens(after, grey, trail, finished, index);
    state[index] := BLACK;
    assert state[..] == grey[index := BLACK];
    finished := finished + [index];
    return false, finished;
  }

  lemma Whitens(after: seq<seq<int>>, colours: seq<int>, trail: seq<int>, finished: seq<int>, index: nat)
    requires Coloured(after, colours, trail, finished) && index < |after| && colours[index] == WHITE
    ensures Coloured(after, colours[index := GREY], [index] + trail, finished)
    ensures Whites(colours[index := GREY]) < Whites(colours)
    ensures |Whites(colours[index := GREY])| < |Whites(colours)|
  {
    var next := colours[index := GREY];
    assert Whites(next) == Whites(colours) - {index};
    StrictSubset(Whites(next), Whites(colours));
  }

  lemma StepsOn(after: seq<seq<int>>, trail: seq<int>, index: nat, dependency: nat)
    requires trail != [] && trail[0] == index && IsPath(AfterEdges(after), trail)
    requires index < |after| && dependency in after[index] && dependency < |after|
    ensures IsPath(AfterEdges(after), [dependency] + trail)
  {
    var longer := [dependency] + trail;
    assert (dependency, index) in AfterEdges(after);
    forall i | 0 <= i < |longer| - 1 ensures (longer[i], longer[i + 1]) in AfterEdges(after) {
      if i > 0 {
        assert (trail[i - 1], trail[i]) in AfterEdges(after);
      }
    }
  }

  lemma Blackens(after: seq<seq<int>>, colours: seq<int>, trail: seq<int>, finished: seq<int>, index: nat)
    requires Coloured(after, colours, [index] + trail, finished) && index < |after| && index !in trail
    requires forall d :: d in after[index] && 0 <= d < |after| ==> d in finished
    ensures Coloured(after, colours[index := BLACK], trail, finished + [index])
    ensures Whites(colours[index := BLACK]) <= Whites(colours)
  {
    var edges := AfterEdges(after);
    var longer := finished + [index];
    assert index in [index] + trail;
    assert colours[index] == GREY;
    forall k, a | 0 <= k < |longer| && (a, longer[k]) in edges ensures a in longer[..k] {
      if k < |finished| {
        assert a in finished[..k];
        assert longer[..k] == finished[..k];
      } else {
        assert longer[..k] == finished;
      }
    }
    assert forall i :: i in longer <==> i in finished || i == index;
    assert forall i :: i in [index] + trail <==> i in trail || i == index;
  }

  // hasProgramCycle is exact for the in-range dependencies.
  method HasProgramCycle(after: seq<seq<int>>) returns (cycle: bool)
    ensures cycle <==> HasCycle(AfterEdges(after))
  {
    var state := new int[|after|](_ => WHITE);
    ghost var finished: seq<int> := [];
    for index := 0 to |after|
      invariant Coloured(after, state[..], [], finished)
      invariant forall i :: 0 <= i < index ==> i in finished
    {
      assert [index] + [] == [index];
      assert IsPath(AfterEdges(after), [index] + []);
      cycle, finished := Visit(after, state, index, [], finished);
      if cycle {
        return;
      }
    }
    AllFinished(after, finished);
    return false;
  }

  lemma AllFinished(after: seq<seq<int>>, finished: seq<int>)
    requires TopoPrefix(Positions(after), AfterEdges(after), finished)
    requires forall i :: 0 <= i < |after| ==> i in finished
    ensures !HasCycle(AfterEdges(after))
  {
    CompleteIffAcyclic(Positions(after), AfterEdges(after), finished);
  }

  // The dependency findings of compileProgram: one per unusable entry and one for a cycle.
  datatype Lint = BadDependency(mission: nat, dependency: int) | DependencyCycle

  predicate Usable(after: seq<seq<int>>, index: nat, dependency: int) {
    0 <= dependency < |after| && dependency != index
  }

  method CompileDependencies(after: seq<seq<int>>) returns (lints: set<Lint>)
    ensures forall i: nat, d :: BadDependency(i, d) in lints <==> i < |after| && d in after[i] && !Usable(after, i, d)
    ensures DependencyCycle in lints <==> HasCycle(AfterEdges(after))
  {
    lints := set i: nat, d | i < |after| && d in after[i] && !Usable(after, i, d) :: BadDependency(i, d);
    var cycle := HasProgramCycle(after);
    if cycle {
      lints := lints + {DependencyCycle};
    }
  }

  // The queue of a compiled program: mission i carries index i.
  function QueueOf(after: seq<seq<int>>): seq<Mission> {
    seq(|after|, i requires 0 <= i < |after| => Mission(i, after[i]))
  }

  lemma QueueIsValid(after: seq<seq<int>>)
    requires after != []
    ensures ValidQueue(QueueOf(after)) <==> forall i, d :: 0 <= i < |after| && d in after[i] ==> Usable(after, i, d)
    ensures ValidQueue(QueueOf(after)) ==> DependencyEdges(QueueOf(after)) == AfterEdges(after)
  {
    var queue := QueueOf(after);
    forall i ensures i in Indexes(queue) <==> 0 <= i < |after| {
      if 0 <= i < |after| {
        assert queue[i] in queue;
      }
    }
    forall k | 0 <= k < |after|
      ensures Resolves(queue[k], Indexes(queue)) <==> forall d :: d in after[k] ==> Usable(after, k, d) {
    }
    assert forall m :: m in queue ==> m.index >= 0;
    if ValidQueue(queue) {
      forall e ensures e in DependencyEdges(queue) <==> e in AfterEdges(after) {
        if e in DependencyEdges(queue) {
          var m, d :| m in queue && d in m.after && e == (d, m.index);
          assert d in after[m.index] && Usable(after, m.index, d);
        }
        if e in AfterEdges(after) {
          assert queue[e.1] in queue && e.0 in queue[e.1].after;
        }
      }
    }
  }

  // A program compiles without a dependency finding exactly when its queue runs to the end: it is
  // then neither refused nor left without progress.
  method CompileThenRun(after: seq<seq<int>>, run: Executor, cancelled: nat -> bool)
    returns (lints: set<Lint>, result: ProgramResult)
    requires after != [] && NeverPending(run)
    ensures lints == {} <==> result.Done?
  {
    lints := CompileDependencies(after);
    QueueIsValid(after);
    var final, log, delivered;
    result, final, log, delivered := ExecuteProgramWithDelivery(QueueOf(after), run, cancelled, false, false);
    LintsMean(after, lints);
  }

  lemma LintsMean(after: seq<seq<int>>, lints: set<Lint>)
    requires forall i: nat, d :: BadDependency(i, d) in lints <==> i < |after| && d in after[i] && !Usable(after, i, d)
    ensures lints == {} <==>
      DependencyCycle !in lints && forall i, d :: 0 <= i < |after| && d in after[i] ==> Usable(after, i, d)
  {
    if lints != {} {
      var lint :| lint in lints;
      if lint.BadDependency? {
        assert BadDependency(lint.mission, lint.dependency) in lints;
      }
    } else {
      forall i, d | 0 <= i < |after| && d in after[i] ensures Usable(after, i, d) {
        assert BadDependency(i, d) !in lints;
      }
    }
  }
}
