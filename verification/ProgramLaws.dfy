// What holds of every program the executor has taken to rest.
module ProgramLaws {
  import opened Ordering
  import opened Digraph
  import opened StableSorting
  import opened ProgramQueue

  // A mission runs at most once.
  lemma RunsOnce(
    missions: seq<Mission>, final: map<int, MissionState>, order: seq<int>, log: seq<int>, i: int)
    requires AtRest(missions, final, order, log)
    ensures multiset(log)[i] <= 1
  {
    if i in log {
      var k :| 0 <= k < |log| && log[k] == i;
      DistinctOnce(log, k);
    }
  }

  // A mission runs after all its dependencies ran without being escalated or blocked.
  lemma RunsOnceAfterDependencies(
    missions: seq<Mission>, final: map<int, MissionState>, order: seq<int>, log: seq<int>, m: Mission, d: int)
    requires AtRest(missions, final, order, log) && m in missions && d in m.after && m.index in log
    ensures multiset(log)[m.index] == 1
    ensures exists j, k :: 0 <= j < k < |log| && log[j] == d && log[k] == m.index
    ensures d in final && !Bad(final[d].status) && final[d].status != Pending && final[m.index].audit.Audit?
  {
    var edges := DependencyEdges(missions);
    assert (d, m.index) in edges;
    var k :| 0 <= k < |log| && log[k] == m.index;
    assert RanAfter(edges, final, log, k);
    assert d in log[..k] && RanWell(final, d);
    var j :| 0 <= j < k && log[j] == d;
    assert log[j] == d && log[k] == m.index;
    assert d in log && d in order;
    DistinctOnce(log, k);
  }

  lemma {:induction false} DistinctOnce(log: seq<int>, k: nat)
    requires Distinct(log) && k < |log|
    ensures multiset(log)[log[k]] == 1
  {
    assert log == log[..k] + [log[k]] + log[k + 1..];
    assert log[k] !in log[..k] && log[k] !in log[k + 1..];
  }

  lemma {:induction false} BehindBad(
    missions: seq<Mission>, final: map<int, MissionState>, order: seq<int>, log: seq<int>, p: seq<int>)
    requires AtRest(missions, final, order, log)
    requires IsPath(DependencyEdges(missions), p) && |p| >= 2
    requires p[0] in final && Bad(final[p[0]].status)
    ensures p[|p| - 1] !in log
    ensures p[|p| - 1] in order ==> p[|p| - 1] in final && final[p[|p| - 1]] == MissionState(Escalated, NoAudit)
    decreases |p|
  {
    var last, prev := p[|p| - 1], p[|p| - 2];
    assert (prev, last) in DependencyEdges(missions);
    LogNeeds(missions, final, order, log, prev, last);
    if |p| > 2 {
      BehindBad(missions, final, order, log, p[..|p| - 1]);
    }
  }

  lemma LogNeeds(missions: seq<Mission>, final: map<int, MissionState>, order: seq<int>, log: seq<int>, d: int, n: int)
    requires AtRest(missions, final, order, log) && (d, n) in DependencyEdges(missions)
    ensures n in log ==> d in log && RanWell(final, d)
  {
    if n in log {
      var k :| 0 <= k < |log| && log[k] == n;
      assert RanAfter(DependencyEdges(missions), final, log, k);
      assert d in log[..k];
    }
  }

  // Every descendant of an escalated or blocked mission is left unrun and, once settled, escalated.
  lemma DescendantsAreEscalated(
    missions: seq<Mission>, final: map<int, MissionState>, order: seq<int>, log: seq<int>, d: int, n: int)
    requires AtRest(missions, final, order, log)
    requires d in final && Bad(final[d].status) && Reaches(DependencyEdges(missions), d, n) && d != n
    ensures n !in log
    ensures n in order ==> n in final && final[n] == MissionState(Escalated, NoAudit)
  {
    var p :| IsPath(DependencyEdges(missions), p) && p[0] == d && p[|p| - 1] == n;
    BehindBad(missions, final, order, log, p);
  }

  // Without a dependency cycle a queue at rest has settled every mission.
  lemma EverythingSettles(missions: seq<Mission>, final: map<int, MissionState>, order: seq<int>, log: seq<int>, m: Mission)
    requires ValidQueue(missions) && AtRest(missions, final, order, log) && m in missions
    requires !HasCycle(DependencyEdges(missions))
    ensures m.index in order && m.index in final && final[m.index].status != Pending
  {
    QueueGraph(missions);
    CompleteIffAcyclic(Indexes(missions), DependencyEdges(missions), order);
    assert m.index in Indexes(missions);
    assert m.index in Elements(order);
  }

  // Missions on or behind a dependency cycle never run.
  lemma CyclesNeverRun(
    missions: seq<Mission>, final: map<int, MissionState>, order: seq<int>, log: seq<int>, c: int, n: int)
    requires AtRest(missions, final, order, log)
    requires OnCycle(DependencyEdges(missions), c) && Reaches(DependencyEdges(missions), c, n)
    ensures n !in log
  {
    CycleNeverOrdered(Indexes(missions), DependencyEdges(missions), order, c, n);
  }

  // Delivery follows only when every mission ran, was applied and verified.
  lemma DeliveryMeansAllApplied(
    missions: seq<Mission>, final: map<int, MissionState>, order: seq<int>, log: seq<int>, m: Mission)
    requires AtRest(missions, final, order, log) && m in missions
    requires ReadyToDeliver(StatesOf(SortMissions(missions), final))
    ensures m.index in log && m.index in final && final[m.index] == MissionState(Applied, Audit("pass"))
  {
    SortedQueue(missions);
    var sorted := SortMissions(missions);
    assert m in sorted;
    var k :| 0 <= k < |sorted| && sorted[k] == m;
    var states := StatesOf(sorted, final);
    assert |states| == |sorted|;
    assert states[k].status == Applied && states[k].audit == Audit("pass");
    assert m.index in Indexes(missions);
  }

  // ---- what the states say ----

  // The state of an executed mission is what its execution returned: an error escalates it, so does an
  // outcome without a status, any other outcome has its own. The audit is that of the execution.
  lemma StateAsReturned(
    missions: seq<Mission>, run: Executor, cancelled: nat -> bool, final: map<int, MissionState>, order: seq<int>,
    log: seq<int>, asked: seq<int>, k: nat)
    requires RestsFaithfully(missions, run, cancelled, final, order, log, asked) && k < |log|
    ensures log[k] in final
    ensures AsReturned(run(k, log[k]), final[log[k]])
  {
    hide AtRest;
    LogAsReturned(run, cancelled, DependencyEdges(missions), final, order, log, asked);
  }

  // A settled mission was its turn exactly when no dependency of it ended escalated or blocked; the n-th
  // whose turn it was ran exactly when the context was not done by then. Unrun, it is escalated.
  lemma TurnsExactly(
    missions: seq<Mission>, run: Executor, cancelled: nat -> bool, final: map<int, MissionState>, order: seq<int>,
    log: seq<int>, asked: seq<int>, m: Mission)
    requires RestsFaithfully(missions, run, cancelled, final, order, log, asked)
    requires ValidQueue(missions) && m in missions && m.index in order
    ensures m.index in asked <==>
      forall d :: d in m.after ==> d in final && final[d].status != Escalated && final[d].status != Blocked
    ensures forall n: nat :: n < |asked| && asked[n] == m.index ==> (m.index in log <==> !cancelled(n))
    ensures m.index in log ==> m.index in asked
    ensures m.index !in log ==> m.index in final && final[m.index] == MissionState(Escalated, NoAudit)
  {
    var edges := DependencyEdges(missions);
    forall d ensures (d, m.index) in edges <==> d in m.after {
      EdgesInto(missions, m, d);
    }
    hide DependencyEdges, Settled, ValidQueue;
    assert forall d :: d in m.after ==> d in order;
  }

  lemma EdgesInto(missions: seq<Mission>, m: Mission, d: int)
    requires ValidQueue(missions) && m in missions
    ensures (d, m.index) in DependencyEdges(missions) <==> d in m.after
  {
    if (d, m.index) in DependencyEdges(missions) {
      var n :| n in missions && d in n.after && n.index == m.index;
      var i :| 0 <= i < |missions| && missions[i] == m;
      var j :| 0 <= j < |missions| && missions[j] == n;
      assert i == j;
    }
  }

  // Nothing behind a mission that returned an error runs, and what is settled of it is escalated.
  lemma NothingRunsBehindAnError(
    missions: seq<Mission>, run: Executor, cancelled: nat -> bool, final: map<int, MissionState>, order: seq<int>,
    log: seq<int>, asked: seq<int>, k: nat, n: int)
    requires RestsFaithfully(missions, run, cancelled, final, order, log, asked)
    requires k < |log| && run(k, log[k]).Errored?
    requires Reaches(DependencyEdges(missions), log[k], n) && n != log[k]
    ensures n !in log
    ensures n in order ==> n in final && final[n] == MissionState(Escalated, NoAudit)
  {
    StateAsReturned(missions, run, cancelled, final, order, log, asked, k);
    DescendantsAreEscalated(missions, final, order, log, log[k], n);
  }

  // The states come by ascending mission index, and delivery asks for nothing but applied and passed
  // ones.
  lemma StatesByIndex(missions: seq<Mission>, final: map<int, MissionState>)
    requires ValidQueue(missions) && forall m :: m in missions ==> m.index in final
    ensures var sorted, states := SortMissions(missions), StatesOf(SortMissions(missions), final);
      && |states| == |sorted| == |missions| && (forall m :: m in sorted <==> m in missions)
      && (forall i, j :: 0 <= i < j < |sorted| ==> sorted[i].index < sorted[j].index)
      && (forall k :: 0 <= k < |states| ==> sorted[k].index in final && states[k] == final[sorted[k].index])
      && (ReadyToDeliver(states) <==>
            forall m :: m in missions ==> final[m.index] == MissionState(Applied, Audit("pass")))
  {
    SortedQueue(missions);
    SortedIndexes(missions);
    hide Sort, SortMissions, ValidQueue;
    var sorted, states := SortMissions(missions), StatesOf(SortMissions(missions), final);
    forall k | 0 <= k < |states| ensures sorted[k].index in final && states[k] == final[sorted[k].index] {
      assert sorted[k] in sorted;
    }
    NotEmpty(missions);
    if ReadyToDeliver(states) {
      forall m | m in missions ensures final[m.index] == MissionState(Applied, Audit("pass")) {
        var k :| 0 <= k < |sorted| && sorted[k] == m;
        assert states[k] == MissionState(states[k].status, states[k].audit);
      }
    }
  }

  lemma NotEmpty(missions: seq<Mission>)
    requires ValidQueue(missions)
    ensures missions != []
  {
  }

  lemma SortedIndexes(missions: seq<Mission>)
    requires ValidQueue(missions)
    ensures var sorted := SortMissions(missions);
      forall i, j :: 0 <= i < j < |sorted| ==> sorted[i].index < sorted[j].index
  {
    assert StrictWeak(Earlier);
    assert Untied(missions, Earlier) by {
      assert DistinctIndexes(missions);
    }
    SortStrictly(missions, Earlier);
    hide Sort, StrictWeak;
  }
}
