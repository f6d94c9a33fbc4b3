// The program executor: runs a queue of missions in passes until every mission is settled, and
// delivers once when all of them were applied and verified.
module ProgramQueue {
  import opened Ordering
  import opened Digraph
  import opened StableSorting

  datatype Mission = Mission(index: int, after: seq<int>)

  datatype Status = Pending | Applied | Escalated | Blocked | Unset | Other(name: string)

  // What the mission executor hands back: an error, or an outcome.
  datatype Execution = Errored(verdict: string) | Ended(status: Status, verdict: string)

  // audit holds the verdict of a mission that was executed.
  datatype Audit = NoAudit | Audit(verdict: string)

  datatype MissionState = MissionState(status: Status, audit: Audit)

  // The n-th call of the executor, on a mission's index.
  type Executor = (nat, int) -> Execution

  ghost predicate NeverPending(run: Executor) {
    forall n, i :: run(n, i).Ended? ==> run(n, i).status != Pending
  }

  predicate Bad(status: Status) {
    status == Escalated || status == Blocked
  }

  // ---- the queue as a graph ----

  ghost function Indexes(missions: seq<Mission>): set<int> {
    set m | m in missions :: m.index
  }

  ghost function DependencyEdges(missions: seq<Mission>): set<(int, int)> {
    set m, d | m in missions && d in m.after :: (d, m.index)
  }

  ghost predicate DistinctIndexes(missions: seq<Mission>) {
    forall i, j :: 0 <= i < j < |missions| ==> missions[i].index != missions[j].index
  }

  ghost predicate ValidQueue(missions: seq<Mission>) {
    && missions != []
    && DistinctIndexes(missions)
    && (forall m :: m in missions ==> m.index >= 0)
    && KnownDependencies(missions, Indexes(missions))
  }

  method CheckIndexes(missions: seq<Mission>) returns (ok: bool, seen: set<int>)
    ensures ok <==> DistinctIndexes(missions) && forall m :: m in missions ==> m.index >= 0
    ensures ok ==> seen == Indexes(missions)
  {
    seen := {};
    for k := 0 to |missions|
      invariant seen == Indexes(missions[..k])
      invariant DistinctIndexes(missions[..k]) && forall j :: 0 <= j < k ==> missions[j].index >= 0
    {
      IndexesStep(missions, k);
      if missions[k].index < 0 || missions[k].index in seen {
        assert missions[k] in missions;
        if missions[k].index in seen {
          ghost var m :| m in missions[..k] && m.index == missions[k].index;
          ghost var j :| 0 <= j < k && missions[j] == m;
        }
        return false, seen;
      }
      seen := seen + {missions[k].index};
    }
    assert missions[..|missions|] == missions;
    ok := true;
  }

  ghost predicate Resolves(m: Mission, seen: set<int>) {
    forall d :: d in m.after ==> d != m.index && d in seen
  }

  ghost predicate KnownDependencies(missions: seq<Mission>, seen: set<int>) {
    forall k :: 0 <= k < |missions| ==> Resolves(missions[k], seen)
  }

  method CheckDependencies(missions: seq<Mission>, seen: set<int>) returns (ok: bool)
    ensures ok <==> KnownDependencies(missions, seen)
  {
    for k := 0 to |missions|
      invariant forall j :: 0 <= j < k ==> Resolves(missions[j], seen)
    {
      var mission := missions[k];
      for i := 0 to |mission.after|
        invariant forall d :: d in mission.after[..i] ==> d != mission.index && d in seen
      {
        var dependency := mission.after[i];
        assert mission.after[..i + 1] == mission.after[..i] + [dependency];
        if dependency == mission.index || dependency !in seen {
          assert dependency in mission.after;
          assert !Resolves(mission, seen);
          return false;
        }
      }
      assert mission.after[..|mission.after|] == mission.after;
    }
    return true;
  }

  method ValidateProgramQueue(missions: seq<Mission>) returns (ok: bool)
    ensures ok <==> ValidQueue(missions)
  {
    hide DistinctIndexes, Indexes;
    if missions == [] {
      return false;
    }
    var seen;
    ok, seen := CheckIndexes(missions);
    if ok {
      ok := CheckDependencies(missions, seen);
    }
  }

  lemma IndexesStep(missions: seq<Mission>, k: nat)
    requires k < |missions|
    ensures Indexes(missions[..k + 1]) == Indexes(missions[..k]) + {missions[k].index}
  {
    assert missions[..k + 1] == missions[..k] + [missions[k]];
    assert missions[k] in missions[..k + 1];
    assert forall m :: m in missions[..k] ==> m in missions[..k + 1];
  }

  // ---- sorting by index ----

  predicate Earlier(a: Mission, b: Mission) {
    a.index < b.index
  }

  function SortMissions(missions: seq<Mission>): seq<Mission> {
    Sort(missions, Earlier)
  }

  lemma SortedQueue(missions: seq<Mission>)
    ensures |SortMissions(missions)| == |missions|
    ensures forall m :: m in SortMissions(missions) <==> m in missions
    ensures InOrder(SortMissions(missions), Earlier)
  {
    SortIsOrdered(missions, Earlier);
    hide Sort, InOrder;
    var sorted := SortMissions(missions);
    assert |multiset(sorted)| == |multiset(missions)|;
    forall m ensures m in sorted <==> m in missions {
      assert m in multiset(sorted) <==> m in multiset(missions);
    }
  }

  // ---- what the executor keeps true ----

  // order lists the settled missions as they settled, log the executed ones.
  ghost predicate SettledInv(
    nodes: set<int>, edges: set<(int, int)>, states: map<int, MissionState>, order: seq<int>)
  {
    && states.Keys == nodes
    && TopoPrefix(nodes, edges, order)
    && (forall i :: i in nodes ==> (states[i].status == Pending <==> i !in order))
  }

  // What was settled without running is escalated; what ran did so after all its dependencies ran
  // well.
  ghost predicate LogInv(
    edges: set<(int, int)>, states: map<int, MissionState>, order: seq<int>, log: seq<int>)
  {
    && Distinct(log)
    && (forall i :: i in log ==> i in order && i in states && states[i].audit.Audit?)
    && (forall i :: i in order && i !in log ==> i in states && states[i] == MissionState(Escalated, NoAudit))
    && (forall k: nat :: k < |log| ==> RanAfter(edges, states, log, k))
  }

  // All dependencies of the k-th executed mission were executed before it and went well.
  ghost predicate RanAfter(edges: set<(int, int)>, states: map<int, MissionState>, log: seq<int>, k: nat)
    requires k < |log|
  {
    forall d :: (d, log[k]) in edges ==> d in log[..k] && RanWell(states, d)
  }

  ghost predicate RanWell(states: map<int, MissionState>, i: int) {
    i in states && !Bad(states[i].status)
  }

  ghost predicate QueueInv(
    nodes: set<int>, edges: set<(int, int)>, states: map<int, MissionState>, order: seq<int>, log: seq<int>)
  {
    SettledInv(nodes, edges, states, order) && LogInv(edges, states, order, log)
  }

  lemma SettleStep(
    nodes: set<int>, edges: set<(int, int)>, states: map<int, MissionState>, order: seq<int>, log: seq<int>,
    i: int, state: MissionState, ran: bool)
    requires EdgesWithin(nodes, edges) && QueueInv(nodes, edges, states, order, log)
    requires i in nodes && i !in order && state.status != Pending
    requires forall d :: (d, i) in edges ==> d in states && states[d].status != Pending
    requires ran ==> state.audit.Audit? && forall d :: (d, i) in edges ==> RanWell(states, d)
    requires !ran ==> state == MissionState(Escalated, NoAudit)
    ensures QueueInv(nodes, edges, states[i := state], order + [i], if ran then log + [i] else log)
    ensures |order + [i]| == |order| + 1
  {
    hide LogInv;
    var order' := order + [i];
    assert forall d :: (d, i) in edges ==> d in order;
    forall k, a | 0 <= k < |order'| && (a, order'[k]) in edges ensures a in order'[..k] {
      if k < |order| {
        assert a in order[..k];
        assert order'[..k] == order[..k];
      } else {
        assert order'[..k] == order;
      }
    }
    LogStep(edges, states, order, log, i, state, ran);
  }

  lemma LogStep(
    edges: set<(int, int)>, states: map<int, MissionState>, order: seq<int>, log: seq<int>, i: int, state: MissionState,
    ran: bool)
    requires LogInv(edges, states, order, log) && i !in order
    requires ran ==> state.audit.Audit? && forall d :: (d, i) in edges ==> d in order && RanWell(states, d)
    requires !ran ==> state == MissionState(Escalated, NoAudit)
    ensures LogInv(edges, states[i := state], order + [i], if ran then log + [i] else log)
  {
    var states', order' := states[i := state], order + [i];
    var log' := if ran then log + [i] else log;
    assert i !in log;
    assert Distinct(log');
    forall j | j in log' ensures j in order' && j in states' && states'[j].audit.Audit? {
      assert j in log || (ran && j == i);
    }
    forall j | j in order' && j !in log' ensures j in states' && states'[j] == MissionState(Escalated, NoAudit) {
      assert j in order || j == i;
    }
    forall k: nat | k < |log'| ensures RanAfter(edges, states', log', k) {
      forall d | (d, log'[k]) in edges ensures d in log'[..k] && RanWell(states', d) {
        if k < |log| {
          assert RanAfter(edges, states, log, k);
          assert log'[..k] == log[..k] && d in log;
        } else {
          assert log'[..k] == log;
          assert d in order && RanWell(states, d);
        }
      }
    }
  }

  // The k-th executed mission is in the state its execution gave it. asked are the missions the
  // context was asked about, in order: those settled with no dependency gone wrong. The n-th of them
  // ran unless the context was done by then.
  ghost predicate Faithful(
    run: Executor, cancelled: nat -> bool, edges: set<(int, int)>, states: map<int, MissionState>,
    order: seq<int>, log: seq<int>, asked: seq<int>)
  {
    && (forall k: nat :: k < |log| ==> log[k] in states && states[log[k]] == Settled(run(k, log[k])))
    && Distinct(asked) && (forall i :: i in asked ==> i in order) && (forall i :: i in log ==> i in asked)
    && (forall n: nat :: n < |asked| ==> (asked[n] in log <==> !cancelled(n)))
    && (forall i, d :: i in order && (d, i) in edges ==> d in order)
    && (forall i :: i in order ==> (Excused(edges, states, i) <==> i !in asked))
  }

  ghost predicate Excused(edges: set<(int, int)>, states: map<int, MissionState>, i: int) {
    exists d :: (d, i) in edges && d in states && Bad(states[d].status)
  }

  lemma ExcusedStays(edges: set<(int, int)>, states: map<int, MissionState>, i: int, state: MissionState, j: int)
    requires (i, j) !in edges
    ensures Excused(edges, states[i := state], j) <==> Excused(edges, states, j)
  {
    var states' := states[i := state];
    if Excused(edges, states, j) {
      var d :| (d, j) in edges && d in states && Bad(states[d].status);
      assert d in states' && states'[d] == states[d];
    }
  }

  lemma FaithfulStep(
    run: Executor, cancelled: nat -> bool, edges: set<(int, int)>, states: map<int, MissionState>,
    order: seq<int>, log: seq<int>, asked: seq<int>, i: int, state: MissionState, asks: bool, ran: bool)
    requires Faithful(run, cancelled, edges, states, order, log, asked)
    requires i !in order && forall d :: (d, i) in edges ==> d in order
    requires asks <==> !Excused(edges, states, i)
    requires ran <==> asks && !cancelled(|asked|)
    requires ran ==> state == Settled(run(|log|, i))
    ensures Faithful(
      run, cancelled, edges, states[i := state], order + [i], if ran then log + [i] else log,
      if asks then asked + [i] else asked)
  {
    hide Settled, Excused;
    var states', order' := states[i := state], order + [i];
    var log' := if ran then log + [i] else log;
    var asked' := if asks then asked + [i] else asked;
    assert i !in log && i !in asked;
    forall k: nat | k < |log'| ensures log'[k] in states' && states'[log'[k]] == Settled(run(k, log'[k])) {
      if k < |log| {
        assert log[k] in log && log[k] != i;
      }
    }
    forall n: nat | n < |asked'| ensures asked'[n] in log' <==> !cancelled(n) {
      if n < |asked| {
        assert asked[n] in asked;
      }
    }
    forall j | j in order' ensures Excused(edges, states', j) <==> j !in asked' {
      assert (i, j) !in edges;
      ExcusedStays(edges, states, i, state, j);
    }
  }

  lemma StartQueue(nodes: set<int>, edges: set<(int, int)>, states: map<int, MissionState>)
    requires states.Keys == nodes && forall i :: i in nodes ==> states[i] == MissionState(Pending, NoAudit)
    ensures QueueInv(nodes, edges, states, [], [])
  {
  }

  // ---- the executor ----

  method Dependencies(mission: Mission, states: map<int, MissionState>) returns (pending: bool, escalated: bool)
    requires forall d :: d in mission.after ==> d in states
    ensures pending <==> exists d :: d in mission.after && states[d].status == Pending
    ensures escalated <==> exists d :: d in mission.after && Bad(states[d].status)
  {
    pending, escalated := false, false;
    for k := 0 to |mission.after|
      invariant pending <==> exists d :: d in mission.after[..k] && states[d].status == Pending
      invariant escalated <==> exists d :: d in mission.after[..k] && Bad(states[d].status)
    {
      var dependency := mission.after[k];
      assert mission.after[..k + 1] == mission.after[..k] + [dependency];
      match states[dependency].status
      case Pending => pending := true;
      case Escalated => escalated := true;
      case Blocked => escalated := true;
      case _ =>
    }
    assert mission.after[..|mission.after|] == mission.after;
  }

  function Settled(execution: Execution): MissionState {
    match execution
    case Errored(verdict) => MissionState(Escalated, Audit(verdict))
    case Ended(status, verdict) => MissionState(if status == Unset then Escalated else status, Audit(verdict))
  }

  // What a mission comes to when its execution returns that: an error escalates it, so does an outcome
  // without a status, any other outcome has its own. The verdict is kept.
  predicate AsReturned(execution: Execution, state: MissionState) {
    match execution
    case Errored(verdict) => state == MissionState(Escalated, Audit(verdict))
    case Ended(Unset, verdict) => state == MissionState(Escalated, Audit(verdict))
    case Ended(status, verdict) => state == MissionState(status, Audit(verdict))
  }

  lemma SettledAsReturned(execution: Execution)
    ensures AsReturned(execution, Settled(execution))
  {
  }

  lemma SettledNotPending(execution: Execution)
    ensures execution.Ended? && execution.status == Pending <==> Settled(execution).status == Pending
    ensures Settled(execution).audit.Audit?
  {
  }

  // cancelled(n) tells whether the context is done when it is asked for the n-th time.
  method RunPass(
    ordered: seq<Mission>, ghost nodes: set<int>, ghost edges: set<(int, int)>, run: Executor, cancelled: nat -> bool,
    states0: map<int, MissionState>, remaining0: int, log0: seq<int>, asked0: seq<int>, ghost order0: seq<int>)
    returns (states: map<int, MissionState>, remaining: int, progress: bool, log: seq<int>, asked: seq<int>,
             ghost order: seq<int>)
    requires EdgesWithin(nodes, edges) && QueueInv(nodes, edges, states0, order0, log0) && NeverPending(run)
    requires forall m :: m in ordered ==> m.index in nodes && forall d :: d in m.after <==> (d, m.index) in edges
    requires forall i :: i in nodes ==> exists m :: m in ordered && m.index == i
    requires remaining0 == |nodes| - |order0| && Faithful(run, cancelled, edges, states0, order0, log0, asked0)
    ensures Faithful(run, cancelled, edges, states, order, log, asked)
    ensures QueueInv(nodes, edges, states, order, log) && remaining == |nodes| - |order|
    ensures progress ==> |order| > |order0|
    ensures !progress ==> remaining == remaining0 && Ready(nodes, edges, Elements(order)) == {}
    ensures forall i :: i in order0 ==> i in order
    ensures forall m :: m in ordered && (forall d :: d in m.after ==> d in order0) ==> m.index in order
  {
    hide LogInv, Faithful, Settled;
    states, remaining, log, asked, order := states0, remaining0, log0, asked0, order0;
    progress := false;
    for k := 0 to |ordered|
      invariant QueueInv(nodes, edges, states, order, log) && remaining == |nodes| - |order|
      invariant Faithful(run, cancelled, edges, states, order, log, asked)
      invariant forall i :: i in order0 ==> i in order
      invariant Served(ordered[..k], order0, order)
      invariant progress ==> |order| > |order0|
      invariant !progress ==>
        remaining == remaining0 && order == order0 && states == states0 && PassedOver(edges, states, ordered[..k])
    {
      var mission := ordered[k];
      assert mission in ordered;
      ghost var atStart := order;
      assert ordered[..k + 1] == ordered[..k] + [mission];
      if states[mission.index].status == Pending {
        assert forall d :: d in mission.after ==> d in states;
        var pending, escalated := Dependencies(mission, states);
        if !pending {
          var state, ran := MissionState(Escalated, NoAudit), false;
          if !escalated {
            if !cancelled(|asked|) {
              state, ran := Settled(run(|log|, mission.index)), true;
            }
          }
          SettledNotPending(run(|log|, mission.index));
          SettleStep(nodes, edges, states, order, log, mission.index, state, ran);
          FaithfulStep(run, cancelled, edges, states, order, log, asked, mission.index, state, !escalated, ran);
          states := states[mission.index := state];
          order := order + [mission.index];
          if !escalated {
            asked := asked + [mission.index];
          }
          if ran {
            log := log + [mission.index];
          }
          remaining := remaining - 1;
          progress := true;
        }
      }
      ServedNext(ordered, k, order0, atStart, order);
    }
    assert ordered[..|ordered|] == ordered;
    if !progress {
      NoneReady(nodes, edges, states, order, ordered);
    }
  }

  // Every mission whose dependencies had all been settled is settled now.
  ghost predicate Served(missions: seq<Mission>, before: seq<int>, now: seq<int>) {
    forall m :: m in missions && (forall d :: d in m.after ==> d in before) ==> m.index in now
  }

  lemma ServedNext(ordered: seq<Mission>, k: nat, before: seq<int>, reached: seq<int>, now: seq<int>)
    requires k < |ordered| && Served(ordered[..k], before, reached)
    requires forall i :: i in reached ==> i in now
    requires (forall d :: d in ordered[k].after ==> d in before) ==> ordered[k].index in now
    ensures Served(ordered[..k + 1], before, now)
  {
    assert ordered[..k + 1] == ordered[..k] + [ordered[k]];
  }

  // Every mission passed over is settled or waits for a pending dependency.
  ghost predicate PassedOver(edges: set<(int, int)>, states: map<int, MissionState>, missions: seq<Mission>) {
    forall m :: m in missions ==> m.index in states && (states[m.index].status == Pending ==> Waits(edges, states, m.index))
  }

  ghost predicate Waits(edges: set<(int, int)>, states: map<int, MissionState>, i: int) {
    exists d :: (d, i) in edges && d in states && states[d].status == Pending
  }

  lemma NoneReady(
    nodes: set<int>, edges: set<(int, int)>, states: map<int, MissionState>, order: seq<int>, ordered: seq<Mission>)
    requires states.Keys == nodes && forall i :: i in nodes ==> (states[i].status == Pending <==> i !in order)
    requires PassedOver(edges, states, ordered)
    requires forall i :: i in nodes ==> exists m :: m in ordered && m.index == i
    ensures Ready(nodes, edges, Elements(order)) == {}
  {
    forall i | i in nodes && i !in Elements(order) ensures i !in Ready(nodes, edges, Elements(order)) {
      var m :| m in ordered && m.index == i;
      assert Waits(edges, states, i);
      var d :| (d, i) in edges && d in states && states[d].status == Pending;
      assert d !in Elements(order);
    }
  }

  datatype ProgramResult =
    | Invalid
    | NoProgress
    | Done(states: seq<MissionState>)

  predicate ReadyToDeliver(states: seq<MissionState>) {
    states != [] && forall k :: 0 <= k < |states| ==> states[k].status == Applied && states[k].audit == Audit("pass")
  }

  // The states in index order, as the caller receives them.
  function StatesOf(ordered: seq<Mission>, final: map<int, MissionState>): seq<MissionState> {
    seq(|ordered|, k requires 0 <= k < |ordered| =>
      if ordered[k].index in final then final[ordered[k].index] else MissionState(Pending, NoAudit))
  }

  // The queue came to rest: nothing pending could settle any more.
  ghost predicate AtRest(missions: seq<Mission>, final: map<int, MissionState>, order: seq<int>, log: seq<int>) {
    && QueueInv(Indexes(missions), DependencyEdges(missions), final, order, log)
    && Ready(Indexes(missions), DependencyEdges(missions), Elements(order)) == {}
  }

  // And what every mission came to is what its execution, or the lack of one, makes it.
  ghost predicate RestsFaithfully(
    missions: seq<Mission>, run: Executor, cancelled: nat -> bool, final: map<int, MissionState>, order: seq<int>,
    log: seq<int>, asked: seq<int>)
  {
    && AtRest(missions, final, order, log)
    && Faithful(run, cancelled, DependencyEdges(missions), final, order, log, asked)
  }

  // final gives each mission's last state; log the missions handed to the executor, in order.
  method ExecuteProgramWithDelivery(
    missions: seq<Mission>, run: Executor, cancelled: nat -> bool, deliverAtEnd: bool, canDeliver: bool)
    returns (result: ProgramResult, final: map<int, MissionState>, log: seq<int>, delivered: bool)
    requires NeverPending(run)
    ensures result.Invalid? <==> !ValidQueue(missions)
    ensures result.Invalid? ==> log == []
    ensures !result.Invalid? ==> (result.NoProgress? <==> HasCycle(DependencyEdges(missions)))
    ensures !result.Invalid? ==>
      forall k: nat :: k < |log| ==> log[k] in final && AsReturned(run(k, log[k]), final[log[k]])
    ensures !result.Invalid? ==> exists order, asked ::
      RestsFaithfully(missions, run, cancelled, final, order, log, asked)
    ensures result.Done? ==> result.states == StatesOf(SortMissions(missions), final)
    ensures delivered <==> result.Done? && deliverAtEnd && canDeliver && ReadyToDeliver(result.states)
  {
    hide QueueInv, DependencyEdges, Indexes, ValidQueue, HasCycle, NeverPending, Faithful, AsReturned;
    delivered, final, log := false, map[], [];
    var valid := ValidateProgramQueue(missions);
    if !valid {
      return Invalid, final, log, delivered;
    }
    var ordered := SortMissions(missions);
    ghost var nodes, edges := Indexes(missions), DependencyEdges(missions);
    SortedQueue(missions);
    QueueGraph(missions);
    final := PendingStates(ordered);
    ghost var order: seq<int> := [];
    StartQueue(nodes, edges, final);
    NothingRan(run, cancelled, edges, final);
    var remaining := |ordered|;
    var asked: seq<int> := [];
    while remaining > 0
      invariant QueueInv(nodes, edges, final, order, log) && remaining == |nodes| - |order|
      invariant Faithful(run, cancelled, edges, final, order, log, asked)
      decreases remaining
    {
      var progress;
      final, remaining, progress, log, asked, order :=
        RunPass(ordered, nodes, edges, run, cancelled, final, remaining, log, asked, order);
      if !progress {
        Stuck(missions, final, order, log);
        LogAsReturned(run, cancelled, edges, final, order, log, asked);
        assert RestsFaithfully(missions, run, cancelled, final, order, log, asked);
        return NoProgress, final, log, delivered;
      }
    }
    AllSettled(missions, final, order, log);
    LogAsReturned(run, cancelled, edges, final, order, log, asked);
    assert RestsFaithfully(missions, run, cancelled, final, order, log, asked);
    var states := Collect(ordered, final);
    result := Done(states);
    delivered := deliverAtEnd && canDeliver && ReadyToDeliver(states);
  }

  lemma NothingRan(run: Executor, cancelled: nat -> bool, edges: set<(int, int)>, states: map<int, MissionState>)
    ensures Faithful(run, cancelled, edges, states, [], [], [])
  {
  }

  lemma LogAsReturned(
    run: Executor, cancelled: nat -> bool, edges: set<(int, int)>, states: map<int, MissionState>, order: seq<int>,
    log: seq<int>, asked: seq<int>)
    requires Faithful(run, cancelled, edges, states, order, log, asked)
    ensures forall k: nat :: k < |log| ==> log[k] in states && AsReturned(run(k, log[k]), states[log[k]])
  {
    hide Excused, Settled, AsReturned;
    forall k: nat | k < |log| ensures log[k] in states && AsReturned(run(k, log[k]), states[log[k]]) {
      SettledAsReturned(run(k, log[k]));
    }
  }

  lemma Stuck(missions: seq<Mission>, final: map<int, MissionState>, order: seq<int>, log: seq<int>)
    requires ValidQueue(missions) && AtRest(missions, final, order, log)
    requires |order| < |Indexes(missions)|
    ensures HasCycle(DependencyEdges(missions))
  {
    QueueGraph(missions);
    PrefixCovers(Indexes(missions), DependencyEdges(missions), order);
    CompleteIffAcyclic(Indexes(missions), DependencyEdges(missions), order);
  }

  lemma AllSettled(missions: seq<Mission>, final: map<int, MissionState>, order: seq<int>, log: seq<int>)
    requires ValidQueue(missions)
    requires QueueInv(Indexes(missions), DependencyEdges(missions), final, order, log)
    requires |order| >= |Indexes(missions)|
    ensures AtRest(missions, final, order, log) && !HasCycle(DependencyEdges(missions))
    ensures forall m :: m in SortMissions(missions) ==> m.index in final
  {
    SortedQueue(missions);
    QueueGraph(missions);
    PrefixCovers(Indexes(missions), DependencyEdges(missions), order);
    CompleteIffAcyclic(Indexes(missions), DependencyEdges(missions), order);
  }

  method PendingStates(ordered: seq<Mission>) returns (states: map<int, MissionState>)
    ensures states.Keys == Indexes(ordered)
    ensures forall i :: i in states ==> states[i] == MissionState(Pending, NoAudit)
  {
    states := map[];
    for k := 0 to |ordered|
      invariant states.Keys == Indexes(ordered[..k])
      invariant forall i :: i in states ==> states[i] == MissionState(Pending, NoAudit)
    {
      IndexesStep(ordered, k);
      states := states[ordered[k].index := MissionState(Pending, NoAudit)];
    }
    assert ordered[..|ordered|] == ordered;
  }

  method Collect(ordered: seq<Mission>, final: map<int, MissionState>) returns (states: seq<MissionState>)
    requires forall m :: m in ordered ==> m.index in final
    ensures states == StatesOf(ordered, final)
  {
    states := [];
    for k := 0 to |ordered|
      invariant |states| == k
      invariant forall j :: 0 <= j < k ==> ordered[j].index in final && states[j] == final[ordered[j].index]
    {
      assert ordered[k] in ordered;
      states := states + [final[ordered[k].index]];
    }
  }

  lemma QueueGraph(missions: seq<Mission>)
    requires ValidQueue(missions)
    ensures EdgesWithin(Indexes(missions), DependencyEdges(missions))
    ensures |Indexes(missions)| == |missions|
    ensures Indexes(SortMissions(missions)) == Indexes(missions)
    ensures forall m :: m in missions ==>
      m.index in Indexes(missions) && forall d :: d in m.after <==> (d, m.index) in DependencyEdges(missions)
    ensures forall i :: i in Indexes(missions) ==> exists m :: m in missions && m.index == i
  {
    IndexCount(missions);
    SortedQueue(missions);
    forall m, d | m in missions && (d, m.index) in DependencyEdges(missions) ensures d in m.after {
      var n :| n in missions && d in n.after && n.index == m.index;
      var j :| 0 <= j < |missions| && missions[j] == n;
      var k :| 0 <= k < |missions| && missions[k] == m;
      assert j == k;
    }
  }

  lemma {:induction false} IndexCount(missions: seq<Mission>)
    requires DistinctIndexes(missions)
    ensures |Indexes(missions)| == |missions|
  {
    if missions != [] {
      var k := |missions| - 1;
      IndexCount(missions[..k]);
      IndexesStep(missions, k);
      assert missions[..k + 1] == missions;
      assert missions[k].index !in Indexes(missions[..k]);
    } else {
      assert Indexes(missions) == {};
    }
  }
}
