// The flow engine: one barrier per wave for acyclic flows, a bounded walk for cyclic ones.
// The node executor is a parameter; what it returns for a node is unconstrained.
module FlowEngine {
  import opened Ordering
  import opened Digraph
  import opened FlowModel
  import Scope
  import ScopeLists
  import Text
  import FlowLint
  import Waves
  import ScheduleLaws

  datatype NodeResult = NodeResult(status: string, verdict: string, policy: string)

  // Failed covers an unresolved reference and an executor error. A node whose lane cannot be
  // routed is never handed to the executor but counts as finished with a bare blocked status.
  datatype Outcome = Failed | RouteBlocked | Finished(result: NodeResult)

  type Executor = (string, map<string, NodeResult>) -> Outcome

  const MAX_WAVE_WIDTH := 4

  function ResultOf(outcome: Outcome): NodeResult
    requires !outcome.Failed?
  {
    if outcome.Finished? then outcome.result else NodeResult("blocked", "", "")
  }

  predicate PolicyStops(result: NodeResult) {
    result.policy == "blocked" || result.policy == "escalate" || result.policy == "require_approval"
  }

  function PolicyForVerify(status: string, verdict: string): string {
    if status != "ok" then "blocked" else if verdict == "pass" then "pass" else "require_approval"
  }

  function Incoming(edges: seq<Edge>, id: string): seq<Edge> {
    if edges == [] then []
    else if edges[0].dst == id then [edges[0]] + Incoming(edges[1..], id)
    else Incoming(edges[1..], id)
  }

  predicate Satisfies(condition: FlowLint.Condition, result: NodeResult) {
    || condition.Default?
    || (condition.Verdict? && result.verdict == condition.value)
    || (condition.Policy? && result.policy == condition.value)
  }

  // The first incoming edge from a node with a result decides when it matches; one that cannot be
  // parsed ends the search.
  predicate EdgeDecision(incoming: seq<Edge>, results: map<string, NodeResult>) {
    if incoming == [] then false
    else if incoming[0].src !in results then EdgeDecision(incoming[1..], results)
    else
      var condition := FlowLint.ParseCondition(incoming[0].when);
      if condition.Invalid? then false
      else Satisfies(condition, results[incoming[0].src]) || EdgeDecision(incoming[1..], results)
  }

  predicate Enabled(edges: seq<Edge>, id: string, results: map<string, NodeResult>) {
    Incoming(edges, id) == [] || EdgeDecision(Incoming(edges, id), results)
  }

  // Edge e leads from a node with a result that satisfies its condition.
  predicate Matches(e: Edge, results: map<string, NodeResult>) {
    e.src in results && Satisfies(FlowLint.ParseCondition(e.when), results[e.src])
  }

  lemma {:induction false} IncomingEdges(edges: seq<Edge>, id: string)
    ensures forall e :: e in Incoming(edges, id) <==> e in edges && e.dst == id
  {
    if edges != [] {
      IncomingEdges(edges[1..], id);
    }
  }

  ghost predicate SomeMatches(edges: seq<Edge>, results: map<string, NodeResult>) {
    exists e :: e in edges && Matches(e, results)
  }

  ghost predicate AllParse(edges: seq<Edge>) {
    forall e :: e in edges ==> !FlowLint.ParseCondition(e.when).Invalid?
  }

  lemma {:induction false} DecisionMatches(incoming: seq<Edge>, results: map<string, NodeResult>)
    ensures EdgeDecision(incoming, results) ==> SomeMatches(incoming, results)
    ensures SomeMatches(incoming, results) && AllParse(incoming) ==> EdgeDecision(incoming, results)
  {
    hide FlowLint.ParseCondition, Satisfies;
    if incoming != [] {
      var head, rest := incoming[0], incoming[1..];
      DecisionMatches(rest, results);
      assert incoming == [head] + rest;
      assert AllParse(incoming) ==> AllParse(rest);
      if SomeMatches(rest, results) {
        var e :| e in rest && Matches(e, results);
        assert e in incoming;
      }
      if Matches(head, results) {
        assert head in incoming && SomeMatches(incoming, results);
      }
    }
  }

  // A node with incoming edges is enabled only through a matching one; with parseable conditions
  // that is also enough.
  lemma EnabledMeans(edges: seq<Edge>, id: string, results: map<string, NodeResult>)
    ensures Enabled(edges, id, results) ==>
      (forall e :: e in edges ==> e.dst != id) || exists e :: e in edges && e.dst == id && Matches(e, results)
    ensures (
        && (forall e :: e in edges ==> !FlowLint.ParseCondition(e.when).Invalid?)
        && (exists e :: e in edges && e.dst == id && Matches(e, results))) ==> Enabled(edges, id, results)
    ensures (forall e :: e in edges ==> e.dst != id) ==> Enabled(edges, id, results)
  {
    hide FlowLint.ParseCondition, Satisfies;
    var incoming := Incoming(edges, id);
    IncomingEdges(edges, id);
    DecisionMatches(incoming, results);
    if incoming != [] {
      assert incoming[0] in incoming;
    }
  }

  // ---- waves ----

  function ActiveIn(edges: seq<Edge>, wave: seq<string>, results: map<string, NodeResult>): seq<string> {
    if wave == [] then []
    else if Enabled(edges, wave[0], results) then [wave[0]] + ActiveIn(edges, wave[1..], results)
    else ActiveIn(edges, wave[1..], results)
  }

  lemma {:induction false} ActiveMembers(edges: seq<Edge>, wave: seq<string>, results: map<string, NodeResult>)
    requires StrictlySorted(wave)
    ensures forall n :: n in ActiveIn(edges, wave, results) <==> n in wave && Enabled(edges, n, results)
    ensures StrictlySorted(ActiveIn(edges, wave, results)) && |ActiveIn(edges, wave, results)| <= |wave|
  {
    hide Enabled;
    if wave != [] {
      ActiveMembers(edges, wave[1..], results);
      assert wave == [wave[0]] + wave[1..];
      var rest := ActiveIn(edges, wave[1..], results);
      forall y | y in rest ensures Less(wave[0], y) {
        assert y in wave[1..];
      }
      StrictlySortedCons(wave[0], rest);
    }
  }

  datatype Status = Blocked | Ok | Cancelled | NodeFailed | Escalated | ExceededVisits

  datatype TraceEvent = TraceEvent(nodeId: string, wave: nat, executed: bool)

  // launched[w] are the nodes started in wave w and before[w] the results they could read.
  datatype Walk = Walk(launched: seq<seq<string>>, before: seq<map<string, NodeResult>>)

  // The node finished without asking to stop.
  predicate Clean(run: Executor, n: string, before: map<string, NodeResult>) {
    !run(n, before).Failed? && !PolicyStops(ResultOf(run(n, before)))
  }

  // So did the first k nodes of the wave.
  ghost predicate CleanUpTo(run: Executor, active: seq<string>, k: int, before: map<string, NodeResult>)
    requires 0 <= k <= |active|
  {
    forall j :: 0 <= j < k ==> Clean(run, active[j], before)
  }

  // Every node of the wave did.
  ghost predicate Passed(run: Executor, active: seq<string>, before: map<string, NodeResult>) {
    forall n :: n in active ==> Clean(run, n, before)
  }

  ghost predicate After(
    run: Executor, active: seq<string>, before: map<string, NodeResult>, after: map<string, NodeResult>)
    requires Passed(run, active, before)
  {
    && after.Keys == before.Keys + Elements(active)
    && (forall n :: n in before && n !in active ==> after[n] == before[n])
    && (forall n :: n in active ==> after[n] == ResultOf(run(n, before)))
  }

  // The waves start one after the other, each from the results of all before it.
  ghost predicate IsWalk(edges: seq<Edge>, waves: seq<seq<string>>, run: Executor, walk: Walk) {
    && |walk.launched| == |walk.before| <= |waves|
    && (walk.before != [] ==> walk.before[0] == map[])
    && (forall w :: 0 <= w < |walk.launched| ==> walk.launched[w] == ActiveIn(edges, waves[w], walk.before[w]))
    && (forall w :: 0 <= w < |walk.launched| - 1 ==>
          Passed(run, walk.launched[w], walk.before[w])
          && After(run, walk.launched[w], walk.before[w], walk.before[w + 1]))
  }

  ghost predicate LastPassed(run: Executor, walk: Walk)
    requires |walk.launched| == |walk.before|
  {
    walk.launched != [] ==> Passed(run, walk.launched[|walk.launched| - 1], walk.before[|walk.launched| - 1])
  }

  // The nodes done so far have their results, and nothing else changed.
  ghost predicate Recorded(
    run: Executor, done: seq<string>, before: map<string, NodeResult>, results: map<string, NodeResult>)
  {
    && results.Keys == before.Keys + Elements(done)
    && (forall n :: n in before && n !in done ==> results[n] == before[n])
    && (forall n :: n in done ==> !run(n, before).Failed? && results[n] == ResultOf(run(n, before)))
  }

  // The outcomes of a wave have been collected: upTo of them are recorded, all of them only when
  // each finished cleanly, else those up to the first that did not.
  ghost predicate Collected(
    run: Executor, active: seq<string>, before: map<string, NodeResult>, status: Status,
    results: map<string, NodeResult>, upTo: nat)
  {
    && upTo <= |active| && Recorded(run, active[..upTo], before, results)
    && match status
       case Ok => upTo == |active| && Passed(run, active, before) && After(run, active, before, results)
       case NodeFailed => upTo < |active| && run(active[upTo], before).Failed? && CleanUpTo(run, active, upTo, before)
       case Escalated =>
         && upTo > 0 && !run(active[upTo - 1], before).Failed? && PolicyStops(ResultOf(run(active[upTo - 1], before)))
         && CleanUpTo(run, active, upTo - 1, before)
       case _ => false
  }

  // One barrier: collects the outcomes in id order until one fails or asks to stop; upTo of them
  // are recorded.
  method CollectWave(run: Executor, active: seq<string>, before: map<string, NodeResult>)
    returns (status: Status, results: map<string, NodeResult>, upTo: nat)
    requires StrictlySorted(active)
    ensures Collected(run, active, before, status, results, upTo)
  {
    results, upTo := before, 0;
    NoneRecorded(run, active, before);
    hide *;
    while upTo < |active|
      invariant upTo <= |active| && CleanUpTo(run, active, upTo, before)
      invariant Recorded(run, active[..upTo], before, results)
    {
      var n := active[upTo];
      var outcome := run(n, before);
      if outcome.Failed? {
        CollectedFailed(run, active, before, results, upTo);
        return NodeFailed, results, upTo;
      }
      var result := ResultOf(outcome);
      RecordNext(run, active, before, results, upTo);
      if PolicyStops(result) {
        CollectedEscalated(run, active, before, results[n := result], upTo + 1);
        return Escalated, results[n := result], upTo + 1;
      }
      CleanNext(run, active, upTo, before);
      results := results[n := result];
      upTo := upTo + 1;
    }
    AllRecorded(run, active, before, results);
    status := Ok;
  }

  lemma CleanNext(run: Executor, active: seq<string>, k: nat, before: map<string, NodeResult>)
    requires k < |active| && CleanUpTo(run, active, k, before) && !run(active[k], before).Failed?
    ensures !PolicyStops(ResultOf(run(active[k], before))) ==> CleanUpTo(run, active, k + 1, before)
  {
    hide PolicyStops;
  }

  lemma NoneRecorded(run: Executor, active: seq<string>, before: map<string, NodeResult>)
    ensures Recorded(run, active[..0], before, before) && CleanUpTo(run, active, 0, before)
  {
    NoElements(active[..0]);
  }

  lemma AllRecorded(run: Executor, active: seq<string>, before: map<string, NodeResult>, results: map<string, NodeResult>)
    requires Recorded(run, active[..|active|], before, results)
    requires CleanUpTo(run, active, |active|, before)
    ensures Collected(run, active, before, Ok, results, |active|)
  {
    hide PolicyStops;
    assert active[..|active|] == active;
  }

  lemma CollectedFailed(
    run: Executor, active: seq<string>, before: map<string, NodeResult>, results: map<string, NodeResult>, k: nat)
    requires k < |active| && Recorded(run, active[..k], before, results) && CleanUpTo(run, active, k, before)
    requires run(active[k], before).Failed?
    ensures Collected(run, active, before, NodeFailed, results, k)
  {
    hide PolicyStops, Recorded, CleanUpTo;
  }

  lemma CollectedEscalated(
    run: Executor, active: seq<string>, before: map<string, NodeResult>, results: map<string, NodeResult>, k: nat)
    requires 0 < k <= |active| && Recorded(run, active[..k], before, results) && CleanUpTo(run, active, k - 1, before)
    requires !run(active[k - 1], before).Failed? && PolicyStops(ResultOf(run(active[k - 1], before)))
    ensures Collected(run, active, before, Escalated, results, k)
  {
    hide PolicyStops, Recorded, CleanUpTo;
  }

  lemma RecordNext(
    run: Executor, active: seq<string>, before: map<string, NodeResult>, results: map<string, NodeResult>, k: nat)
    requires k < |active| && Recorded(run, active[..k], before, results) && !run(active[k], before).Failed?
    ensures Recorded(run, active[..k + 1], before, results[active[k] := ResultOf(run(active[k], before))])
  {
    assert active[..k + 1] == active[..k] + [active[k]];
    ElementsConcat(active[..k], [active[k]]);
    ElementsSingle(active[k]);
  }

  // What the trace says about one wave: skipped nodes, and the executed ones that were recorded.
  function WaveTrace(wave: seq<string>, active: seq<string>, recorded: seq<string>, w: nat): seq<TraceEvent> {
    if wave == [] then []
    else
      var rest := WaveTrace(wave[1..], active, recorded, w);
      if wave[0] !in active then [TraceEvent(wave[0], w, false)] + rest
      else if wave[0] in recorded then [TraceEvent(wave[0], w, true)] + rest
      else rest
  }

  lemma {:induction false} WaveTraceMembers(wave: seq<string>, active: seq<string>, recorded: seq<string>, w: nat)
    ensures forall e :: e in WaveTrace(wave, active, recorded, w) <==>
      e.wave == w && e.nodeId in wave && (if e.executed then e.nodeId in active && e.nodeId in recorded else e.nodeId !in active)
  {
    if wave != [] {
      WaveTraceMembers(wave[1..], active, recorded, w);
      assert wave == [wave[0]] + wave[1..];
    }
  }

  // The k-th node of the last wave is the first in it that did not finish cleanly.
  ghost predicate StoppedAt(run: Executor, walk: Walk, k: nat) {
    var last := |walk.launched| - 1;
    && |walk.launched| == |walk.before| && 0 <= last && k < |walk.launched[last]|
    && CleanUpTo(run, walk.launched[last], k, walk.before[last])
    && !Clean(run, walk.launched[last][k], walk.before[last])
  }

  // That node failed, or asked to stop, as the status says.
  ghost predicate StoppedBy(run: Executor, walk: Walk, status: Status) {
    exists k: nat :: StoppedAt(run, walk, k)
      && (status == NodeFailed <==> run(walk.launched[|walk.launched| - 1][k], walk.before[|walk.launched| - 1]).Failed?)
  }

  // The first k waves are traced in full.
  ghost predicate TracedTo(waves: seq<seq<string>>, walk: Walk, traces: seq<seq<TraceEvent>>, k: int) {
    && 0 <= k == |traces| <= |walk.launched| && |walk.launched| <= |waves|
    && forall w :: 0 <= w < k ==> traces[w] == WaveTrace(waves[w], walk.launched[w], walk.launched[w], w)
  }

  // The last wave stopped at its recorded-th active node, the first that asked to; the earlier waves
  // are traced in full.
  ghost predicate EscalatedAt(
    waves: seq<seq<string>>, run: Executor, walk: Walk, traces: seq<seq<TraceEvent>>, recorded: nat)
  {
    var last := |walk.launched| - 1;
    && |walk.launched| == |walk.before| <= |waves|
    && 0 <= last && |traces| == last + 1 && 0 < recorded <= |walk.launched[last]|
    && TracedTo(waves, walk, traces[..last], last)
    && traces[last] == WaveTrace(waves[last], walk.launched[last], walk.launched[last][..recorded], last)
    && StoppedAt(run, walk, recorded - 1)
    && !run(walk.launched[last][recorded - 1], walk.before[last]).Failed?
    && PolicyStops(ResultOf(run(walk.launched[last][recorded - 1], walk.before[last])))
  }

  lemma NotPassed(run: Executor, active: seq<string>, before: map<string, NodeResult>, n: string)
    requires n in active && (run(n, before).Failed? || PolicyStops(ResultOf(run(n, before))))
    ensures !Passed(run, active, before) && !Clean(run, n, before)
  {
  }

  // The first w waves passed.
  ghost predicate WavesSoFar(
    edges: seq<Edge>, waves: seq<seq<string>>, run: Executor, cancelled: nat -> bool, walk: Walk,
    traces: seq<seq<TraceEvent>>, results: map<string, NodeResult>, w: nat)
  {
    && |walk.launched| == |walk.before| == w && IsWalk(edges, waves, run, walk) && LastPassed(run, walk)
    && (w == 0 ==> results == map[])
    && (w > 0 ==> After(run, walk.launched[w - 1], walk.before[w - 1], results))
    && TracedTo(waves, walk, traces, w)
    && forall v :: 0 <= v < w ==> !cancelled(v)
  }

  // How the waves ended.
  ghost predicate WavesEnd(
    edges: seq<Edge>, waves: seq<seq<string>>, run: Executor, cancelled: nat -> bool, status: Status, walk: Walk,
    traces: seq<seq<TraceEvent>>, recorded: nat)
  {
    var begun := |walk.launched|;
    && IsWalk(edges, waves, run, walk)
    && (forall w :: 0 <= w < begun ==> !cancelled(w))
    && match status
       case Ok => begun == |waves| && LastPassed(run, walk) && TracedTo(waves, walk, traces, begun)
       case Cancelled =>
         begun < |waves| && cancelled(begun) && LastPassed(run, walk) && TracedTo(waves, walk, traces, begun)
       case NodeFailed =>
         begun > 0 && !LastPassed(run, walk) && StoppedBy(run, walk, status) && TracedTo(waves, walk, traces, begun - 1)
       case Escalated =>
         begun > 0 && !LastPassed(run, walk) && StoppedBy(run, walk, status)
         && EscalatedAt(waves, run, walk, traces, recorded)
       case _ => false
  }

  lemma NextWave(
    edges: seq<Edge>, waves: seq<seq<string>>, run: Executor, cancelled: nat -> bool, walk: Walk,
    traces: seq<seq<TraceEvent>>, results: map<string, NodeResult>, w: nat,
    status: Status, after: map<string, NodeResult>, recorded: nat)
    requires w < |waves| && WavesSoFar(edges, waves, run, cancelled, walk, traces, results, w) && !cancelled(w)
    requires Collected(run, ActiveIn(edges, waves[w], results), results, status, after, recorded)
    ensures
      var active := ActiveIn(edges, waves[w], results);
      var walk' := Walk(walk.launched + [active], walk.before + [results]);
      var traces' := traces + [WaveTrace(waves[w], active, active[..recorded], w)];
      && (status == Ok ==> WavesSoFar(edges, waves, run, cancelled, walk', traces', after, w + 1))
      && (status == NodeFailed ==> WavesEnd(edges, waves, run, cancelled, status, walk', traces, recorded))
      && (status == Escalated ==> WavesEnd(edges, waves, run, cancelled, status, walk', traces', recorded))
  {
    hide ActiveIn, PolicyStops, After, WaveTrace, Recorded, Clean;
    var active := ActiveIn(edges, waves[w], results);
    WalkExtends(edges, waves, run, walk, active, results);
    var walk' := Walk(walk.launched + [active], walk.before + [results]);
    hide IsWalk, Passed;
    assert walk'.launched[w] == active && walk'.before[w] == results;
    if status == NodeFailed {
      NotPassed(run, active, results, active[recorded]);
      assert StoppedAt(run, walk', recorded);
    } else if status == Escalated {
      NotPassed(run, active, results, active[recorded - 1]);
      assert StoppedAt(run, walk', recorded - 1);
    } else {
      assert active[..|active|] == active;
    }
  }

  // cancelled(w) tells whether the context is done when wave w is about to start.
  method RunWaves(edges: seq<Edge>, waves: seq<seq<string>>, run: Executor, cancelled: nat -> bool)
    returns (status: Status, walk: Walk, traces: seq<seq<TraceEvent>>, lastRecorded: nat)
    requires forall w :: 0 <= w < |waves| ==> StrictlySorted(waves[w])
    ensures WavesEnd(edges, waves, run, cancelled, status, walk, traces, lastRecorded)
  {
    hide ActiveIn, StrictlySorted, WaveTrace, PolicyStops, Clean, Passed, Collected, IsWalk;
    walk, traces, lastRecorded := Walk([], []), [], 0;
    var results := map[];
    NoWaves(edges, waves, run, cancelled);
    for w := 0 to |waves|
      invariant WavesSoFar(edges, waves, run, cancelled, walk, traces, results, w)
    {
      if cancelled(w) {
        status := Cancelled;
        return;
      }
      var active := ActiveIn(edges, waves[w], results);
      ActiveMembers(edges, waves[w], results);
      var after;
      status, after, lastRecorded := CollectWave(run, active, results);
      CollectedStatus(run, active, results, status, after, lastRecorded);
      NextWave(edges, waves, run, cancelled, walk, traces, results, w, status, after, lastRecorded);
      hide WavesEnd, WavesSoFar;
      walk := Walk(walk.launched + [active], walk.before + [results]);
      if status == NodeFailed {
        return;
      }
      traces := traces + [WaveTrace(waves[w], active, active[..lastRecorded], w)];
      if status == Escalated {
        return;
      }
      results := after;
    }
    status := Ok;
  }

  lemma NoWaves(edges: seq<Edge>, waves: seq<seq<string>>, run: Executor, cancelled: nat -> bool)
    ensures WavesSoFar(edges, waves, run, cancelled, Walk([], []), [], map[], 0)
  {
  }

  lemma CollectedStatus(
    run: Executor, active: seq<string>, before: map<string, NodeResult>, status: Status,
    results: map<string, NodeResult>, upTo: nat)
    requires Collected(run, active, before, status, results, upTo)
    ensures upTo <= |active| && (status == Ok || status == NodeFailed || status == Escalated)
  {
    hide Recorded, Passed, After, PolicyStops;
  }

  // An escalated flow leaves out of its trace exactly the nodes of the last wave that ran with an
  // id behind the first one that asked to stop.
  lemma EscalatedTraceOmits(
    edges: seq<Edge>, waves: seq<seq<string>>, run: Executor, walk: Walk, traces: seq<seq<TraceEvent>>, recorded: nat,
    k: nat, n: string)
    requires IsWalk(edges, waves, run, walk) && EscalatedAt(waves, run, walk, traces, recorded)
    requires forall w :: 0 <= w < |waves| ==> StrictlySorted(waves[w])
    requires StoppedAt(run, walk, k) && Launched(walk, |walk.launched| - 1, n)
    ensures TraceEvent(n, |walk.launched| - 1, true) in traces[|traces| - 1] <==>
      n == walk.launched[|walk.launched| - 1][k] || Less(n, walk.launched[|walk.launched| - 1][k])
  {
    hide ActiveIn, WaveTrace, PolicyStops, FlowLint.ParseCondition, Less;
    var last := |walk.launched| - 1;
    var active := walk.launched[last];
    StopIsUnique(run, walk, k, recorded - 1);
    ActiveMembers(edges, waves[last], walk.before[last]);
    WaveTraceMembers(waves[last], active, active[..recorded], last);
    SortedPrefix(active, recorded, n);
  }

  lemma StopIsUnique(run: Executor, walk: Walk, j: nat, k: nat)
    requires StoppedAt(run, walk, j) && StoppedAt(run, walk, k)
    ensures j == k
  {
    hide Clean;
  }

  // One such flow: "a" asks to stop, "b" beside it has run all the same and is missing.
  method EscalatedTraceLacks() returns (status: Status, walk: Walk, traces: seq<seq<TraceEvent>>)
    ensures status == Escalated && Launched(walk, 0, "a") && Launched(walk, 0, "b")
    ensures |traces| == 1 && TraceEvent("a", 0, true) in traces[0] && TraceEvent("b", 0, true) !in traces[0]
  {
    var run: Executor := (n, before) => Finished(NodeResult("ok", "", if n == "a" then "blocked" else ""));
    var recorded;
    SortedPair();
    status, walk, traces, recorded := RunWaves([], [["a", "b"]], run, w => false);
    TwoRootsStop(run, walk, traces, recorded, status);
  }

  lemma TwoRootsStop(run: Executor, walk: Walk, traces: seq<seq<TraceEvent>>, recorded: nat, status: Status)
    requires forall n, before :: run(n, before) == Finished(NodeResult("ok", "", if n == "a" then "blocked" else ""))
    requires WavesEnd([], [["a", "b"]], run, w => false, status, walk, traces, recorded)
    ensures status == Escalated && Launched(walk, 0, "a") && Launched(walk, 0, "b")
    ensures |traces| == 1 && TraceEvent("a", 0, true) in traces[0] && TraceEvent("b", 0, true) !in traces[0]
  {
    hide WaveTrace, PolicyStops, FlowLint.ParseCondition, Less, After, Clean, ActiveIn, StrictlySorted;
    var waves := [["a", "b"]];
    assert |walk.launched| == 1;
    assert walk.launched[0] == ActiveIn([], waves[0], walk.before[0]);
    RootsRun(waves[0], walk.before[0]);
    assert walk.launched[0][0] == "a" && walk.launched[0][1] == "b";
    AskedToStop(run, walk.before[0]);
    assert !Passed(run, walk.launched[0], walk.before[0]);
    assert status == Escalated;
    assert StoppedAt(run, walk, 0);
    SortedPair();
    EscalatedTraceOmits([], waves, run, walk, traces, recorded, 0, "a");
    EscalatedTraceOmits([], waves, run, walk, traces, recorded, 0, "b");
  }

  lemma AskedToStop(run: Executor, before: map<string, NodeResult>)
    requires run("a", before) == Finished(NodeResult("ok", "", "blocked"))
    ensures !Clean(run, "a", before)
  {
  }

  lemma SortedPair()
    ensures StrictlySorted(["a", "b"]) && !Less("b", "a")
  {
    assert Less("a", "b");
  }

  lemma {:induction false} RootsRun(wave: seq<string>, results: map<string, NodeResult>)
    ensures ActiveIn([], wave, results) == wave
  {
    if wave != [] {
      RootsRun(wave[1..], results);
    }
  }

  lemma SortedPrefix(s: seq<string>, k: nat, n: string)
    requires StrictlySorted(s) && 0 < k <= |s| && n in s
    ensures n in s[..k] <==> n == s[k - 1] || Less(n, s[k - 1])
  {
    var i :| 0 <= i < |s| && s[i] == n;
    if i < k {
      assert s[..k][i] == n;
    } else {
      LessAsymmetric(s[k - 1], s[i]);
      forall j | 0 <= j < k ensures s[..k][j] != n {
        LessAsymmetric(s[j], s[i]);
      }
    }
  }

  lemma WalkExtends(
    edges: seq<Edge>, waves: seq<seq<string>>, run: Executor, walk: Walk, active: seq<string>,
    results: map<string, NodeResult>)
    requires IsWalk(edges, waves, run, walk) && LastPassed(run, walk) && |walk.launched| < |waves|
    requires active == ActiveIn(edges, waves[|walk.launched|], results)
    requires walk.launched == [] ==> results == map[]
    requires walk.launched != [] ==>
      After(run, walk.launched[|walk.launched| - 1], walk.before[|walk.launched| - 1], results)
    ensures IsWalk(edges, waves, run, Walk(walk.launched + [active], walk.before + [results]))
  {
    hide ActiveIn, Passed, After;
  }

  // ---- what a walk guarantees ----

  ghost predicate Launched(walk: Walk, w: int, n: string) {
    0 <= w < |walk.launched| && n in walk.launched[w]
  }

  // The results a wave starts from are exactly those of the nodes launched in earlier waves.
  lemma {:induction false} ResultsComeFromEarlierWaves(
    edges: seq<Edge>, waves: seq<seq<string>>, run: Executor, walk: Walk, w: nat)
    requires IsWalk(edges, waves, run, walk) && w < |walk.launched|
    ensures forall n :: n in walk.before[w] ==> exists v :: v < w && Launched(walk, v, n)
    ensures forall v, n :: v < w && Launched(walk, v, n) ==> n in walk.before[w]
  {
    hide ActiveIn;
    if w > 0 {
      ResultsComeFromEarlierWaves(edges, waves, run, walk, w - 1);
      assert After(run, walk.launched[w - 1], walk.before[w - 1], walk.before[w]);
      forall n | n in walk.before[w] ensures exists v :: v < w && Launched(walk, v, n) {
        if n in walk.launched[w - 1] {
          assert Launched(walk, w - 1, n);
        } else {
          assert n in walk.before[w - 1];
        }
      }
      forall v, n | v < w && Launched(walk, v, n) ensures n in walk.before[w] {
        if v == w - 1 {
          assert n in Elements(walk.launched[w - 1]);
        }
      }
    }
  }

  // Every node that runs is a root or follows a matching edge from a node of a strictly earlier wave.
  lemma LaunchIsJustified(edges: seq<Edge>, waves: seq<seq<string>>, run: Executor, walk: Walk, w: nat, n: string)
    requires IsWalk(edges, waves, run, walk) && Launched(walk, w, n)
    requires forall v :: 0 <= v < |waves| ==> StrictlySorted(waves[v])
    ensures n in waves[w]
    ensures (forall e :: e in edges ==> e.dst != n)
      || exists e, v :: e in edges && e.dst == n && Matches(e, walk.before[w]) && v < w && Launched(walk, v, e.src)
  {
    hide FlowLint.ParseCondition, Satisfies, Enabled, ActiveIn;
    ActiveMembers(edges, waves[w], walk.before[w]);
    EnabledMeans(edges, n, walk.before[w]);
    ResultsComeFromEarlierWaves(edges, waves, run, walk, w);
    if !(forall e :: e in edges ==> e.dst != n) {
      var e :| e in edges && e.dst == n && Matches(e, walk.before[w]);
      var v :| v < w && Launched(walk, v, e.src);
    }
  }

  // A chain of edges from a root, each matching when its target was launched, in strictly later waves.
  ghost predicate MatchedChain(edges: seq<Edge>, walk: Walk, chain: seq<string>, at: seq<nat>) {
    && |chain| == |at| >= 1
    && (forall e :: e in edges ==> e.dst != chain[0])
    && (forall i :: 0 <= i < |chain| ==> Launched(walk, at[i], chain[i]))
    && (forall i :: 0 <= i < |chain| - 1 ==> at[i] < at[i + 1] && ChainLink(edges, walk, chain[i], chain[i + 1], at[i + 1]))
  }

  ghost predicate ChainLink(edges: seq<Edge>, walk: Walk, a: string, b: string, w: nat) {
    w < |walk.before| && exists e :: e in edges && e.src == a && e.dst == b && Matches(e, walk.before[w])
  }

  lemma {:induction false} LaunchHasMatchedChain(
    edges: seq<Edge>, waves: seq<seq<string>>, run: Executor, walk: Walk, w: nat, n: string)
    requires IsWalk(edges, waves, run, walk) && Launched(walk, w, n)
    requires forall v :: 0 <= v < |waves| ==> StrictlySorted(waves[v])
    ensures exists chain, at :: MatchedChain(edges, walk, chain, at) && chain[|chain| - 1] == n && at[|at| - 1] == w
    decreases w
  {
    hide FlowLint.ParseCondition, Satisfies, Enabled, ActiveIn, Matches, IsWalk;
    LaunchIsJustified(edges, waves, run, walk, w, n);
    WalkShape(edges, waves, run, walk);
    if forall e :: e in edges ==> e.dst != n {
      assert MatchedChain(edges, walk, [n], [w]);
    } else {
      var e, v :| e in edges && e.dst == n && Matches(e, walk.before[w]) && v < w && Launched(walk, v, e.src);
      LaunchHasMatchedChain(edges, waves, run, walk, v, e.src);
      var chain, at :| MatchedChain(edges, walk, chain, at) && chain[|chain| - 1] == e.src && at[|at| - 1] == v;
      assert ChainLink(edges, walk, e.src, n, w);
      ChainExtends(edges, walk, chain, at, n, w);
    }
  }

  lemma WalkShape(edges: seq<Edge>, waves: seq<seq<string>>, run: Executor, walk: Walk)
    requires IsWalk(edges, waves, run, walk)
    ensures |walk.launched| == |walk.before| <= |waves|
  {
  }

  lemma ChainExtends(edges: seq<Edge>, walk: Walk, chain: seq<string>, at: seq<nat>, n: string, w: nat)
    requires MatchedChain(edges, walk, chain, at) && Launched(walk, w, n)
    requires at[|at| - 1] < w && ChainLink(edges, walk, chain[|chain| - 1], n, w)
    ensures MatchedChain(edges, walk, chain + [n], at + [w])
  {
    hide ChainLink;
    var chain', at' := chain + [n], at + [w];
    forall i | 0 <= i < |chain'| - 1
      ensures at'[i] < at'[i + 1] && ChainLink(edges, walk, chain'[i], chain'[i + 1], at'[i + 1]) {
      if i < |chain| - 1 {
        assert ChainLink(edges, walk, chain[i], chain[i + 1], at[i + 1]);
      }
    }
  }

  // Once a launched node fails or returns a stopping policy, no later wave starts.
  lemma StopEndsTheWalk(edges: seq<Edge>, waves: seq<seq<string>>, run: Executor, walk: Walk, w: nat, n: string)
    requires IsWalk(edges, waves, run, walk) && Launched(walk, w, n)
    requires run(n, walk.before[w]).Failed? || PolicyStops(ResultOf(run(n, walk.before[w])))
    ensures |walk.launched| == w + 1
  {
    hide ActiveIn, PolicyStops;
    NotPassed(run, walk.launched[w], walk.before[w], n);
  }

  // With the policy the verify capability reports, a verify node that did not pass is the last
  // thing to happen: no node of a later wave runs.
  lemma NonPassVerifyIsLast(
    edges: seq<Edge>, waves: seq<seq<string>>, run: Executor, walk: Walk, w: nat, n: string, v: nat, m: string)
    requires IsWalk(edges, waves, run, walk) && Launched(walk, w, n)
    requires run(n, walk.before[w]).Finished?
    requires var result := run(n, walk.before[w]).result;
      result.policy == PolicyForVerify(result.status, result.verdict) && result.verdict != "pass"
    requires Launched(walk, v, m)
    ensures v <= w
  {
    StopEndsTheWalk(edges, waves, run, walk, w, n);
  }

  // In a wave that passed, exactly the enabled nodes ran.
  lemma SkippedIffNoEdgeMatched(edges: seq<Edge>, waves: seq<seq<string>>, run: Executor, walk: Walk, w: nat, n: string)
    requires IsWalk(edges, waves, run, walk) && w < |walk.launched| && n in waves[w]
    requires StrictlySorted(waves[w])
    requires forall e :: e in edges ==> !FlowLint.ParseCondition(e.when).Invalid?
    ensures Launched(walk, w, n) <==>
      (forall e :: e in edges ==> e.dst != n) || exists e :: e in edges && e.dst == n && Matches(e, walk.before[w])
  {
    hide FlowLint.ParseCondition, Satisfies, Enabled, ActiveIn;
    ActiveMembers(edges, waves[w], walk.before[w]);
    EnabledMeans(edges, n, walk.before[w]);
  }

  // ---- an unroutable node stops nothing ----

  // A wave passes exactly when each of its nodes was unroutable or finished without a stopping policy.
  lemma PassedExactly(run: Executor, active: seq<string>, before: map<string, NodeResult>)
    ensures Passed(run, active, before) <==> forall n :: n in active ==>
      run(n, before).RouteBlocked? || (run(n, before).Finished? && !PolicyStops(run(n, before).result))
  {
    assert !PolicyStops(NodeResult("blocked", "", ""));
    hide PolicyStops;
    forall n ensures Clean(run, n, before) <==>
      run(n, before).RouteBlocked? || (run(n, before).Finished? && !PolicyStops(run(n, before).result)) {
    }
  }

  // One that could not be routed has status blocked for everybody behind it.
  lemma UnroutableCountsAsFinished(
    edges: seq<Edge>, waves: seq<seq<string>>, run: Executor, walk: Walk, w: nat, n: string)
    requires IsWalk(edges, waves, run, walk) && w + 1 < |walk.launched| && Launched(walk, w, n)
    requires run(n, walk.before[w]).RouteBlocked?
    ensures n in walk.before[w + 1] && walk.before[w + 1][n] == NodeResult("blocked", "", "")
  {
    hide ActiveIn, Passed;
    assert After(run, walk.launched[w], walk.before[w], walk.before[w + 1]);
  }

  // One such flow: "a" cannot be routed, and "b" behind it runs all the same.
  method UnroutableGoesOn() returns (status: Status, walk: Walk)
    ensures status == Ok && Launched(walk, 1, "b")
    ensures |walk.before| == 2 && "a" in walk.before[1] && walk.before[1]["a"].status == "blocked"
  {
    var edges, waves := [Edge("a", "b", "default")], [["a"], ["b"]];
    var run: Executor := (n, before) => if n == "a" then RouteBlocked else Finished(NodeResult("ok", "", ""));
    var traces, recorded;
    status, walk, traces, recorded := RunWaves(edges, waves, run, w => false);
    UnroutableRuns(edges, waves, run, walk, status);
  }

  lemma UnroutableRuns(edges: seq<Edge>, waves: seq<seq<string>>, run: Executor, walk: Walk, status: Status)
    requires edges == [Edge("a", "b", "default")] && waves == [["a"], ["b"]] && IsWalk(edges, waves, run, walk)
    requires forall n, before :: run(n, before) == if n == "a" then RouteBlocked else Finished(NodeResult("ok", "", ""))
    requires status == Ok ==> |walk.launched| == |waves|
    requires status == Ok || ((status == NodeFailed || status == Escalated) && StoppedBy(run, walk, status))
    ensures status == Ok && Launched(walk, 1, "b")
    ensures |walk.before| == 2 && "a" in walk.before[1] && walk.before[1]["a"].status == "blocked"
  {
    hide PolicyStops, Enabled, StoppedBy, FlowLint.ParseCondition, ActiveIn, Passed, After;
    forall n, before ensures Clean(run, n, before) {
      NothingStops("blocked");
      NothingStops("ok");
    }
    CleanMeansOk(run, walk, status);
    assert walk.launched[0] == ActiveIn(edges, ["a"], walk.before[0]);
    assert walk.launched[1] == ActiveIn(edges, ["b"], walk.before[1]);
    EnabledMeans(edges, "a", walk.before[0]);
    OnlyMember(edges, "a", walk.before[0]);
    UnroutableCountsAsFinished(edges, waves, run, walk, 0, "a");
    DefaultEdgeEnables(edges, walk.before[1]);
    OnlyMember(edges, "b", walk.before[1]);
  }

  // Where every node finishes cleanly, none stops the walk.
  lemma CleanMeansOk(run: Executor, walk: Walk, status: Status)
    requires forall n, before :: Clean(run, n, before)
    requires status == Ok || StoppedBy(run, walk, status)
    ensures status == Ok
  {
    hide Clean;
  }

  lemma OnlyMember(edges: seq<Edge>, n: string, results: map<string, NodeResult>)
    requires Enabled(edges, n, results)
    ensures ActiveIn(edges, [n], results) == [n]
  {
    hide Enabled;
    assert ActiveIn(edges, [n][1..], results) == [];
  }

  lemma DefaultEdgeEnables(edges: seq<Edge>, results: map<string, NodeResult>)
    requires edges == [Edge("a", "b", "default")] && "a" in results
    ensures Enabled(edges, "b", results)
  {
    hide FlowLint.ParseCondition, Enabled;
    DefaultParses();
    assert edges[0] in edges && Matches(edges[0], results);
    EnabledMeans(edges, "b", results);
  }

  lemma DefaultParses()
    ensures FlowLint.ParseCondition("default") == FlowLint.Default
  {
    var word := "default";
    assert !Text.IsSpace(word[0]) && !Text.IsSpace(word[|word| - 1]);
  }

  // ---- the bounded walk over a cyclic flow ----

  // What the executor returns may also depend on the step.
  type StepExecutor = (nat, string, map<string, NodeResult>) -> Outcome

  function MaxVisits(node: Node): nat {
    if node.maxVisits > 0 then node.maxVisits else 1
  }

  function Visits(visits: map<string, nat>, id: string): nat {
    if id in visits then visits[id] else 0
  }

  predicate MayVisit(
    table: map<string, Node>, edges: seq<Edge>, id: string, results: map<string, NodeResult>,
    visits: map<string, nat>)
    requires id in table
  {
    Enabled(edges, id, results) && (Visits(visits, id) == 0 || Visits(visits, id) < MaxVisits(table[id]))
  }

  // The least node that may be visited; a closed cycle with no root is seeded with its least id.
  ghost predicate Selects(
    table: map<string, Node>, edges: seq<Edge>, ids: seq<string>, results: map<string, NodeResult>,
    visits: map<string, nat>, k: int)
    requires forall i :: 0 <= i < |ids| ==> ids[i] in table
  {
    if 0 <= k < |ids| && MayVisit(table, edges, ids[k], results, visits) then
      forall j :: 0 <= j < k ==> !MayVisit(table, edges, ids[j], results, visits)
    else
      && (forall j :: 0 <= j < |ids| ==> !MayVisit(table, edges, ids[j], results, visits))
      && (if results == map[] && ids != [] && MaxVisits(table[ids[0]]) > 0 then k == 0 else k == -1)
  }

  method Select(
    table: map<string, Node>, edges: seq<Edge>, ids: seq<string>, results: map<string, NodeResult>,
    visits: map<string, nat>)
    returns (k: int)
    requires forall i :: 0 <= i < |ids| ==> ids[i] in table
    ensures -1 <= k < |ids| && Selects(table, edges, ids, results, visits, k)
  {
    for i := 0 to |ids|
      invariant forall j :: 0 <= j < i ==> !MayVisit(table, edges, ids[j], results, visits)
    {
      if MayVisit(table, edges, ids[i], results, visits) {
        return i;
      }
    }
    k := if |results| == 0 && |ids| > 0 && MaxVisits(table[ids[0]]) > 0 then 0 else -1;
  }

  function Total(ids: seq<string>, counts: map<string, nat>): nat {
    if ids == [] then 0 else Visits(counts, ids[0]) + Total(ids[1..], counts)
  }

  function TotalLimit(table: map<string, Node>, ids: seq<string>): nat
    requires forall i :: 0 <= i < |ids| ==> ids[i] in table
  {
    if ids == [] then 0 else MaxVisits(table[ids[0]]) + TotalLimit(table, ids[1..])
  }

  lemma {:induction false} TotalBump(ids: seq<string>, counts: map<string, nat>, id: string)
    requires Distinct(ids)
    ensures Total(ids, counts[id := Visits(counts, id) + 1]) == Total(ids, counts) + (if id in ids then 1 else 0)
  {
    if ids != [] {
      TotalBump(ids[1..], counts, id);
      assert ids == [ids[0]] + ids[1..];
    }
  }

  lemma {:induction false} TotalWithinLimit(table: map<string, Node>, ids: seq<string>, counts: map<string, nat>)
    requires forall i :: 0 <= i < |ids| ==> ids[i] in table && Visits(counts, ids[i]) <= MaxVisits(table[ids[i]])
    ensures Total(ids, counts) <= TotalLimit(table, ids)
  {
    if ids != [] {
      TotalWithinLimit(table, ids[1..], counts);
    }
  }

  lemma {:induction false} TotalOfNone(ids: seq<string>)
    ensures Total(ids, map[]) == 0
  {
    if ids != [] {
      TotalOfNone(ids[1..]);
    }
  }

  // The step finished without asking to stop.
  predicate StepClean(run: StepExecutor, step: nat, id: string, results: map<string, NodeResult>) {
    !run(step, id, results).Failed? && !PolicyStops(ResultOf(run(step, id, results)))
  }

  // A node is executed because nothing leads to it, because an edge from a node with a result
  // matches, or as the seed of a walk that has not begun.
  ghost predicate Justified(edges: seq<Edge>, id: string, results: map<string, NodeResult>) {
    || (forall e :: e in edges ==> e.dst != id)
    || (exists e :: e in edges && e.dst == id && Matches(e, results))
    || results == map[]
  }

  // The node may be visited once more after the visits in the log.
  ghost predicate Open(
    table: map<string, Node>, edges: seq<Edge>, results: map<string, NodeResult>, log: seq<string>, id: string)
  {
    id in table && Enabled(edges, id, results) && (id !in log || multiset(log)[id] < MaxVisits(table[id]))
  }

  // The walk goes on with the least open node; before its first step, where none is open, with the
  // least of all.
  ghost predicate GoesOnWith(
    table: map<string, Node>, edges: seq<Edge>, results: map<string, NodeResult>, log: seq<string>, id: string)
  {
    if exists n :: Open(table, edges, results, log, n) then
      Open(table, edges, results, log, id) && forall n :: Open(table, edges, results, log, n) && n != id ==> Less(id, n)
    else results == map[] && IsLeast(id, table.Keys)
  }

  // Nothing is open, and the walk has begun or there is nothing to walk.
  ghost predicate Exhausted(
    table: map<string, Node>, edges: seq<Edge>, results: map<string, NodeResult>, log: seq<string>)
  {
    (forall n :: !Open(table, edges, results, log, n)) && (results != map[] || table == map[])
  }

  ghost predicate CleanBefore(run: StepExecutor, log: seq<string>, seen: seq<map<string, NodeResult>>, k: int)
    requires k <= |log| == |seen|
  {
    forall i :: 0 <= i < k ==> StepClean(run, i, log[i], seen[i])
  }

  // The results known after the first k steps.
  ghost function ResultsAfter(
    run: StepExecutor, log: seq<string>, seen: seq<map<string, NodeResult>>, k: nat): map<string, NodeResult>
    requires k <= |log| == |seen| && CleanBefore(run, log, seen, k)
  {
    if k == 0 then map[]
    else
      assert StepClean(run, k - 1, log[k - 1], seen[k - 1]);
      seen[k - 1][log[k - 1] := ResultOf(run(k - 1, log[k - 1], seen[k - 1]))]
  }

  // The i-th step: its node, and the results it could read.
  ghost predicate StepOk(
    table: map<string, Node>, edges: seq<Edge>, run: StepExecutor, log: seq<string>, seen: seq<map<string, NodeResult>>,
    i: nat)
    requires i < |log| == |seen| && CleanBefore(run, log, seen, i)
  {
    && seen[i] == ResultsAfter(run, log, seen, i)
    && log[i] in table && GoesOnWith(table, edges, seen[i], log[..i], log[i]) && Justified(edges, log[i], seen[i])
  }

  // What a bounded walk has done so far: log holds the executed ids and seen[i] the results the
  // i-th execution could read; all but possibly the last finished without asking to stop.
  ghost predicate History(
    table: map<string, Node>, edges: seq<Edge>, run: StepExecutor,
    log: seq<string>, seen: seq<map<string, NodeResult>>, visits: map<string, nat>)
  {
    && |log| == |seen|
    && CleanBefore(run, log, seen, |log| - 1)
    && (forall i :: 0 <= i < |log| ==> CleanBefore(run, log, seen, i) && StepOk(table, edges, run, log, seen, i))
    && Counts(table, log, visits)
  }

  ghost predicate Counts(table: map<string, Node>, log: seq<string>, visits: map<string, nat>) {
    forall id :: id in table ==> Visits(visits, id) == multiset(log)[id] && Visits(visits, id) <= MaxVisits(table[id])
  }

  ghost predicate AllClean(run: StepExecutor, log: seq<string>, seen: seq<map<string, NodeResult>>) {
    |log| == |seen| && CleanBefore(run, log, seen, |log|)
  }

  lemma CountsExtend(table: map<string, Node>, log: seq<string>, visits: map<string, nat>, id: string)
    requires Counts(table, log, visits) && id in table && Visits(visits, id) < MaxVisits(table[id])
    ensures Counts(table, log + [id], visits[id := Visits(visits, id) + 1])
  {
  }

  lemma ResultsStay(
    run: StepExecutor, log: seq<string>, seen: seq<map<string, NodeResult>>, id: string, results: map<string, NodeResult>,
    k: nat)
    requires k <= |log| && AllClean(run, log, seen)
    ensures CleanBefore(run, log, seen, k) && CleanBefore(run, log + [id], seen + [results], k)
    ensures ResultsAfter(run, log + [id], seen + [results], k) == ResultsAfter(run, log, seen, k)
  {
    hide StepClean;
    assert forall i :: 0 <= i < |log| ==> (log + [id])[i] == log[i] && (seen + [results])[i] == seen[i];
  }

  lemma HistoryExtends(
    table: map<string, Node>, edges: seq<Edge>, run: StepExecutor,
    log: seq<string>, seen: seq<map<string, NodeResult>>, visits: map<string, nat>,
    id: string, results: map<string, NodeResult>)
    requires History(table, edges, run, log, seen, visits) && AllClean(run, log, seen)
    requires id in table && Justified(edges, id, results) && Visits(visits, id) < MaxVisits(table[id])
    requires results == ResultsAfter(run, log, seen, |log|) && GoesOnWith(table, edges, results, log, id)
    ensures History(table, edges, run, log + [id], seen + [results], visits[id := Visits(visits, id) + 1])
    ensures AllClean(run, log + [id], seen + [results]) <==> StepClean(run, |log|, id, results)
  {
    hide Justified, StepClean, GoesOnWith, ResultsAfter, Counts;
    var log', seen' := log + [id], seen + [results];
    assert log'[|log|] == id && seen'[|log|] == results;
    assert forall i :: 0 <= i < |log| ==> log'[i] == log[i] && seen'[i] == seen[i];
    CountsExtend(table, log, visits, id);
    forall i | 0 <= i < |log'| ensures StepOk(table, edges, run, log', seen', i) {
      ResultsStay(run, log, seen, id, results, i);
      assert log'[..i] == log[..i];
      assert i < |log| ==> StepOk(table, edges, run, log, seen, i);
      assert log[..|log|] == log;
    }
  }

  // What the search over the sorted ids finds is where the walk goes on.
  lemma SelectsNext(
    table: map<string, Node>, edges: seq<Edge>, ids: seq<string>, results: map<string, NodeResult>,
    visits: map<string, nat>, log: seq<string>, k: int)
    requires StrictlySorted(ids) && Elements(ids) == table.Keys && forall i :: 0 <= i < |ids| ==> ids[i] in table
    requires Selects(table, edges, ids, results, visits, k) && Counts(table, log, visits) && -1 <= k < |ids|
    ensures k >= 0 ==> GoesOnWith(table, edges, results, log, ids[k])
    ensures k < 0 ==> Exhausted(table, edges, results, log)
  {
    hide Open, MayVisit, Counts, Less, Enabled;
    forall i | 0 <= i < |ids|
      ensures Open(table, edges, results, log, ids[i]) <==> MayVisit(table, edges, ids[i], results, visits) {
      OpenMeans(table, edges, results, visits, log, ids[i]);
    }
    OpenIsListed(table, edges, ids, results, log);
    if 0 <= k && MayVisit(table, edges, ids[k], results, visits) {
      forall n | Open(table, edges, results, log, n) && n != ids[k] ensures Less(ids[k], n) {
        var i :| 0 <= i < |ids| && ids[i] == n;
      }
    } else {
      assert forall n :: !Open(table, edges, results, log, n);
      if ids == [] {
        assert table.Keys == {};
      } else {
        SortedHeadIsLeast(ids);
      }
    }
  }

  lemma OpenMeans(
    table: map<string, Node>, edges: seq<Edge>, results: map<string, NodeResult>, visits: map<string, nat>,
    log: seq<string>, id: string)
    requires id in table && Counts(table, log, visits)
    ensures Open(table, edges, results, log, id) <==> MayVisit(table, edges, id, results, visits)
  {
    hide Enabled;
  }

  lemma OpenIsListed(
    table: map<string, Node>, edges: seq<Edge>, ids: seq<string>, results: map<string, NodeResult>, log: seq<string>)
    requires Elements(ids) == table.Keys
    ensures forall n :: Open(table, edges, results, log, n) ==> exists i :: 0 <= i < |ids| && ids[i] == n
  {
    hide Enabled;
    forall n | Open(table, edges, results, log, n) ensures exists i :: 0 <= i < |ids| && ids[i] == n {
      assert n in Elements(ids);
    }
  }

  // The sum of the visit limits, over the ids in sorted order.
  ghost predicate LimitsReach(table: map<string, Node>, bound: nat) {
    exists ids :: StrictlySorted(ids) && Elements(ids) == table.Keys && LimitsSumTo(table, ids, bound)
  }

  ghost predicate LimitsSumTo(table: map<string, Node>, ids: seq<string>, bound: nat) {
    (forall i :: 0 <= i < |ids| ==> ids[i] in table) && bound <= TotalLimit(table, ids)
  }

  // How a walk over n nodes that executed the log ended.
  ghost predicate EndsAs(
    table: map<string, Node>, edges: seq<Edge>, run: StepExecutor, cancelled: nat -> bool, status: Status,
    log: seq<string>, seen: seq<map<string, NodeResult>>)
    requires |log| == |seen|
  {
    var bound, last := 4 * |table| + 4, |log| - 1;
    && |log| <= bound && (forall i :: 0 <= i < |log| ==> !cancelled(i))
    && match status
       case Ok =>
         && AllClean(run, log, seen) && |log| < bound && !cancelled(|log|)
         && Exhausted(table, edges, ResultsAfter(run, log, seen, |log|), log)
       case Cancelled => AllClean(run, log, seen) && |log| < bound && cancelled(|log|)
       case ExceededVisits => AllClean(run, log, seen) && |log| == bound
       case NodeFailed => log != [] && run(last, log[last], seen[last]).Failed?
       case Escalated =>
         && log != [] && !run(last, log[last], seen[last]).Failed?
         && PolicyStops(ResultOf(run(last, log[last], seen[last])))
       case Blocked => false
  }

  // A whole bounded walk: every step justified and counted, the end told by the status, and no end at
  // the step bound unless the visit limits allow that many steps.
  ghost predicate BoundedRun(
    table: map<string, Node>, edges: seq<Edge>, run: StepExecutor, cancelled: nat -> bool, status: Status,
    log: seq<string>, seen: seq<map<string, NodeResult>>, visits: map<string, nat>)
  {
    && History(table, edges, run, log, seen, visits) && EndsAs(table, edges, run, cancelled, status, log, seen)
    && (status == Ok || status == Cancelled || status == ExceededVisits <==> AllClean(run, log, seen))
    && (status == ExceededVisits ==> LimitsReach(table, 4 * |table| + 4))
  }

  // The walk has executed the log, every step cleanly.
  ghost predicate WalkSoFar(
    table: map<string, Node>, edges: seq<Edge>, run: StepExecutor, cancelled: nat -> bool, ids: seq<string>,
    results: map<string, NodeResult>, log: seq<string>, seen: seq<map<string, NodeResult>>, visits: map<string, nat>)
  {
    && StrictlySorted(ids) && Distinct(ids) && Elements(ids) == table.Keys && (forall i :: 0 <= i < |ids| ==> ids[i] in table)
    && History(table, edges, run, log, seen, visits) && AllClean(run, log, seen)
    && results == ResultsAfter(run, log, seen, |log|)
    && (forall i :: 0 <= i < |log| ==> !cancelled(i))
    && (results == map[] <==> visits == map[])
    && Total(ids, visits) == |log|
  }

  lemma WalkBegins(
    table: map<string, Node>, edges: seq<Edge>, run: StepExecutor, cancelled: nat -> bool, ids: seq<string>)
    requires StrictlySorted(ids) && Distinct(ids) && Elements(ids) == table.Keys && forall i :: 0 <= i < |ids| ==> ids[i] in table
    ensures WalkSoFar(table, edges, run, cancelled, ids, map[], [], [], map[])
  {
    TotalOfNone(ids);
    EmptyHistory(table, edges, run);
  }

  // A clean walk short of the bound ends cancelled, or at rest where nothing is left to visit.
  lemma WalkEnds(
    table: map<string, Node>, edges: seq<Edge>, run: StepExecutor, cancelled: nat -> bool, ids: seq<string>,
    results: map<string, NodeResult>, log: seq<string>, seen: seq<map<string, NodeResult>>, visits: map<string, nat>,
    status: Status)
    requires WalkSoFar(table, edges, run, cancelled, ids, results, log, seen, visits) && |log| < 4 * |table| + 4
    requires (status == Cancelled && cancelled(|log|))
      || (status == Ok && !cancelled(|log|) && Exhausted(table, edges, results, log))
    ensures BoundedRun(table, edges, run, cancelled, status, log, seen, visits)
  {
    hide History, CleanBefore, ResultsAfter, Exhausted, StrictlySorted, Distinct, Elements;
  }

  lemma NothingSelected(
    table: map<string, Node>, edges: seq<Edge>, run: StepExecutor, cancelled: nat -> bool, ids: seq<string>,
    results: map<string, NodeResult>, log: seq<string>, seen: seq<map<string, NodeResult>>, visits: map<string, nat>)
    requires WalkSoFar(table, edges, run, cancelled, ids, results, log, seen, visits)
    requires Selects(table, edges, ids, results, visits, -1)
    ensures Exhausted(table, edges, results, log)
  {
    hide History, CleanBefore, ResultsAfter, Exhausted, StrictlySorted, Distinct, Elements, Selects;
    HistoryCounts(table, edges, run, log, seen, visits);
    SelectsNext(table, edges, ids, results, visits, log, -1);
  }

  lemma TakesStep(
    table: map<string, Node>, edges: seq<Edge>, run: StepExecutor, cancelled: nat -> bool, ids: seq<string>,
    results: map<string, NodeResult>, log: seq<string>, seen: seq<map<string, NodeResult>>, visits: map<string, nat>,
    k: nat)
    requires WalkSoFar(table, edges, run, cancelled, ids, results, log, seen, visits)
    requires |log| < 4 * |table| + 4 && !cancelled(|log|)
    requires k < |ids| && Selects(table, edges, ids, results, visits, k)
    ensures
      var id, outcome := ids[k], run(|log|, ids[k], results);
      var log', seen', visits' := log + [id], seen + [results], visits[id := Visits(visits, id) + 1];
      && (outcome.Failed? ==> BoundedRun(table, edges, run, cancelled, NodeFailed, log', seen', visits'))
      && (!outcome.Failed? && PolicyStops(ResultOf(outcome)) ==>
            BoundedRun(table, edges, run, cancelled, Escalated, log', seen', visits'))
      && (!outcome.Failed? && !PolicyStops(ResultOf(outcome)) ==>
            WalkSoFar(table, edges, run, cancelled, ids, results[id := ResultOf(outcome)], log', seen', visits'))
  {
    hide History, CleanBefore, StrictlySorted, Elements, Selects, Distinct, GoesOnWith, Counts, Justified,
      ResultsAfter, PolicyStops, StepClean, Enabled;
    var id := ids[k];
    HistoryCounts(table, edges, run, log, seen, visits);
    SelectsNext(table, edges, ids, results, visits, log, k);
    SelectedIsJustified(table, edges, ids, results, visits, k);
    HistoryExtends(table, edges, run, log, seen, visits, id, results);
    StepCleanMeans(run, |log|, id, results);
    assert (log + [id])[|log|] == id && (seen + [results])[|log|] == results;
    if StepClean(run, |log|, id, results) {
      ResultsNext(run, log, seen, id, results);
      TotalBump(ids, visits, id);
    }
  }

  lemma WalkIsFull(
    table: map<string, Node>, edges: seq<Edge>, run: StepExecutor, cancelled: nat -> bool, ids: seq<string>,
    results: map<string, NodeResult>, log: seq<string>, seen: seq<map<string, NodeResult>>, visits: map<string, nat>)
    requires WalkSoFar(table, edges, run, cancelled, ids, results, log, seen, visits) && |log| == 4 * |table| + 4
    ensures BoundedRun(table, edges, run, cancelled, ExceededVisits, log, seen, visits)
  {
    hide History, CleanBefore, StrictlySorted, Elements, Distinct, ResultsAfter;
    VisitsWithinLimits(table, edges, run, log, seen, visits, ids);
    TotalWithinLimit(table, ids, visits);
    assert LimitsSumTo(table, ids, 4 * |table| + 4);
  }

  method ExecuteBoundedCycle(
    table: map<string, Node>, edges: seq<Edge>, run: StepExecutor, cancelled: nat -> bool)
    returns (status: Status, log: seq<string>, seen: seq<map<string, NodeResult>>, visits: map<string, nat>)
    ensures BoundedRun(table, edges, run, cancelled, status, log, seen, visits)
  {
    hide *;
    var ids := Waves.SortedSet(table.Keys);
    IdsOfTable(table, ids);
    var results := map[];
    log, seen, visits := [], [], map[];
    WalkBegins(table, edges, run, cancelled, ids);
    for step := 0 to |table| * 4 + 4
      invariant |log| == step && WalkSoFar(table, edges, run, cancelled, ids, results, log, seen, visits)
    {
      if cancelled(step) {
        WalkEnds(table, edges, run, cancelled, ids, results, log, seen, visits, Cancelled);
        return Cancelled, log, seen, visits;
      }
      var k := Select(table, edges, ids, results, visits);
      if k < 0 {
        NothingSelected(table, edges, run, cancelled, ids, results, log, seen, visits);
        WalkEnds(table, edges, run, cancelled, ids, results, log, seen, visits, Ok);
        return Ok, log, seen, visits;
      }
      var id := ids[k];
      var outcome := run(step, id, results);
      TakesStep(table, edges, run, cancelled, ids, results, log, seen, visits, k);
      log, seen := log + [id], seen + [results];
      visits := visits[id := Visits(visits, id) + 1];
      if outcome.Failed? {
        return NodeFailed, log, seen, visits;
      }
      if PolicyStops(ResultOf(outcome)) {
        return Escalated, log, seen, visits;
      }
      results := results[id := ResultOf(outcome)];
    }
    WalkIsFull(table, edges, run, cancelled, ids, results, log, seen, visits);
    status := ExceededVisits;
  }

  lemma HistoryCounts(
    table: map<string, Node>, edges: seq<Edge>, run: StepExecutor,
    log: seq<string>, seen: seq<map<string, NodeResult>>, visits: map<string, nat>)
    requires History(table, edges, run, log, seen, visits)
    ensures Counts(table, log, visits)
  {
    hide StepOk, CleanBefore, Counts;
  }

  lemma ResultsNext(
    run: StepExecutor, log: seq<string>, seen: seq<map<string, NodeResult>>, id: string, results: map<string, NodeResult>)
    requires AllClean(run, log, seen) && results == ResultsAfter(run, log, seen, |log|)
    requires StepClean(run, |log|, id, results)
    ensures AllClean(run, log + [id], seen + [results])
    ensures ResultsAfter(run, log + [id], seen + [results], |log| + 1) == results[id := ResultOf(run(|log|, id, results))]
  {
    var log', seen' := log + [id], seen + [results];
    assert log'[|log|] == id && seen'[|log|] == results;
    assert forall i :: 0 <= i < |log| ==> log'[i] == log[i] && seen'[i] == seen[i];
  }

  lemma IdsOfTable(table: map<string, Node>, ids: seq<string>)
    requires StrictlySorted(ids) && forall n :: n in ids <==> n in table.Keys
    ensures Distinct(ids) && Elements(ids) == table.Keys
    ensures forall i :: 0 <= i < |ids| ==> ids[i] in table
  {
    Waves.StrictIsDistinct(ids);
    forall i | 0 <= i < |ids| ensures ids[i] in table {
      assert ids[i] in ids;
    }
  }

  lemma EmptyHistory(table: map<string, Node>, edges: seq<Edge>, run: StepExecutor)
    ensures History(table, edges, run, [], [], map[]) && AllClean(run, [], [])
    ensures ResultsAfter(run, [], [], 0) == map[]
  {
  }

  lemma StepCleanMeans(run: StepExecutor, step: nat, id: string, results: map<string, NodeResult>)
    ensures StepClean(run, step, id, results) <==>
      !run(step, id, results).Failed? && !PolicyStops(ResultOf(run(step, id, results)))
  {
  }

  lemma VisitsWithinLimits(
    table: map<string, Node>, edges: seq<Edge>, run: StepExecutor,
    log: seq<string>, seen: seq<map<string, NodeResult>>, visits: map<string, nat>, ids: seq<string>)
    requires History(table, edges, run, log, seen, visits)
    requires forall i :: 0 <= i < |ids| ==> ids[i] in table
    ensures forall i :: 0 <= i < |ids| ==> Visits(visits, ids[i]) <= MaxVisits(table[ids[i]])
  {
    hide Justified, StepClean;
  }

  // While the visit limits add up to less than the step bound, the walk cannot be stopped by it.
  method BoundedWalkFits(
    table: map<string, Node>, edges: seq<Edge>, run: StepExecutor, cancelled: nat -> bool, ids: seq<string>)
    returns (status: Status, log: seq<string>)
    requires StrictlySorted(ids) && Elements(ids) == table.Keys
    requires forall i :: 0 <= i < |ids| ==> ids[i] in table
    requires TotalLimit(table, ids) < 4 * |table| + 4
    ensures status != ExceededVisits
    ensures forall id :: id in table ==> multiset(log)[id] <= MaxVisits(table[id])
  {
    var seen, visits;
    status, log, seen, visits := ExecuteBoundedCycle(table, edges, run, cancelled);
    if status == ExceededVisits {
      ghost var others :| StrictlySorted(others) && Elements(others) == table.Keys && LimitsSumTo(table, others, 4 * |table| + 4);
      SortedUnique(ids, others);
      assert false;
    }
  }

  lemma SelectedIsJustified(
    table: map<string, Node>, edges: seq<Edge>, ids: seq<string>, results: map<string, NodeResult>,
    visits: map<string, nat>, k: nat)
    requires forall i :: 0 <= i < |ids| ==> ids[i] in table
    requires k < |ids| && Selects(table, edges, ids, results, visits, k)
    requires results == map[] <==> visits == map[]
    ensures Justified(edges, ids[k], results)
    ensures Visits(visits, ids[k]) < MaxVisits(table[ids[k]])
  {
    hide Enabled;
    EnabledMeans(edges, ids[k], results);
  }


  // ---- the step bound can end a walk that is within its limits ----

  const LOOP_NODE := "a"

  function Loop(limit: int): Node {
    Node(LOOP_NODE, "mission", "", {}, [], limit)
  }

  const LOOP_EDGES := [Edge(LOOP_NODE, LOOP_NODE, "default")]

  // A node that leads to itself by default, executed cleanly every time: the walk is ended by the
  // step bound exactly when the node may be visited at least as often as the bound allows.
  method LoopWalk(limit: int) returns (status: Status)
    requires limit > 0
    ensures status == ExceededVisits <==> limit >= 8
    ensures status == Ok || status == ExceededVisits
  {
    var table := map[LOOP_NODE := Loop(limit)];
    var run: StepExecutor := (step, id, results) => Finished(NodeResult("ok", "", ""));
    var log, seen, visits;
    status, log, seen, visits := ExecuteBoundedCycle(table, LOOP_EDGES, run, step => false);
    LoopEnds(limit, table, run, log, seen, visits, status);
  }

  lemma LoopEnds(
    limit: int, table: map<string, Node>, run: StepExecutor, log: seq<string>, seen: seq<map<string, NodeResult>>,
    visits: map<string, nat>, status: Status)
    requires limit > 0 && table == map[LOOP_NODE := Loop(limit)]
    requires forall step, id, results :: run(step, id, results) == Finished(NodeResult("ok", "", ""))
    requires History(table, LOOP_EDGES, run, log, seen, visits)
    requires EndsAs(table, LOOP_EDGES, run, step => false, status, log, seen)
    ensures status == Ok || status == ExceededVisits
    ensures status == ExceededVisits <==> limit >= 8
  {
    hide PolicyStops, FlowLint.ParseCondition;
    forall i | 0 <= i < |log| ensures log[i] == LOOP_NODE {
      assert StepOk(table, LOOP_EDGES, run, log, seen, i);
    }
    AllAlike(log, LOOP_NODE);
    HistoryCounts(table, LOOP_EDGES, run, log, seen, visits);
    assert |log| <= limit;
    assert !PolicyStops(NodeResult("ok", "", "")) by {
      NothingStops("ok");
    }
    if status == Ok {
      var results := ResultsAfter(run, log, seen, |log|);
      assert log != [] ==> LOOP_NODE in results;
      LoopIsEnabled(results);
      assert !Open(table, LOOP_EDGES, results, log, LOOP_NODE);
    }
  }

  lemma NothingStops(status: string)
    ensures !PolicyStops(NodeResult(status, "", ""))
  {
  }

  lemma {:induction false} AllAlike(log: seq<string>, id: string)
    requires forall i :: 0 <= i < |log| ==> log[i] == id
    ensures multiset(log)[id] == |log|
  {
    if log != [] {
      assert log == [log[0]] + log[1..];
      AllAlike(log[1..], id);
    }
  }

  lemma LoopIsEnabled(results: map<string, NodeResult>)
    ensures LOOP_NODE in results ==> Enabled(LOOP_EDGES, LOOP_NODE, results)
  {
    DefaultParses();
    hide FlowLint.ParseCondition;
    assert LOOP_EDGES[1..] == [];
    assert Incoming(LOOP_EDGES, LOOP_NODE) == LOOP_EDGES;
  }

  // ---- the engine ----

  datatype FlowResult = FlowResult(status: Status, walk: Walk, cycleLog: seq<string>)

  predicate TooWide(waves: seq<seq<string>>) {
    exists w :: 0 <= w < |waves| && |waves[w]| > MAX_WAVE_WIDTH
  }

  method Execute(
    flow: Flow, run: Executor, stepRun: StepExecutor, cancelled: nat -> bool)
    returns (result: FlowResult)
    ensures result.status == Blocked <==> Refused(flow)
    ensures Refused(flow) ==> result.walk.launched == [] && result.cycleLog == []
    ensures !Refused(flow) && HasCycle(EdgeSet(flow.edges)) ==>
      result.walk.launched == [] && CycleRun(flow, stepRun, cancelled, result)
    ensures !Refused(flow) && !HasCycle(EdgeSet(flow.edges)) ==>
      result.cycleLog == [] && WaveRun(flow, run, cancelled, result)
  {
    hide FlowLint.Blocked, HasCycle, EdgeSet, NodeTable, NoDangling, Waves.IsSchedule, History, CleanBefore, IsWalk,
      ResultsAfter, Exhausted;
    result := FlowResult(Blocked, Walk([], []), []);
    var findings := FlowLint.Validate(flow);
    if findings != {} {
      return;
    }
    var scheduled := Waves.ScheduleWaves(flow);
    match scheduled
    case Dangling(_, _) =>
    case Cycle(_) =>
      var table := Waves.BuildTable(flow.nodes);
      var status, log, seen, visits := ExecuteBoundedCycle(table, flow.edges, stepRun, cancelled);
      result := FlowResult(status, Walk([], []), log);
      assert CycleRunOn(flow, stepRun, cancelled, result, seen, visits);
    case Scheduled(waves) =>
      SortedWaves(flow, waves);
      if TooWide(waves) {
        assert WideSchedule(flow, waves);
        return;
      }
      OneSchedule(flow, waves);
      var status, walk, traces, recorded := RunWaves(flow.edges, waves, run, cancelled);
      result := FlowResult(status, walk, []);
      assert WaveRunOn(flow, run, cancelled, result, waves);
  }

  // The flows that run nothing: linted away, dangling, or with a wave that is too wide.
  ghost predicate Refused(flow: Flow) {
    || FlowLint.Blocked(flow)
    || !NoDangling(flow)
    || (!HasCycle(EdgeSet(flow.edges)) && exists waves :: WideSchedule(flow, waves))
  }

  ghost predicate WideSchedule(flow: Flow, waves: seq<seq<string>>) {
    Waves.IsSchedule(NodeTable(flow.nodes), EdgeSet(flow.edges), waves) && TooWide(waves)
  }

  lemma OneSchedule(flow: Flow, waves: seq<seq<string>>)
    requires NoDangling(flow) && !HasCycle(EdgeSet(flow.edges))
    requires Waves.IsSchedule(NodeTable(flow.nodes), EdgeSet(flow.edges), waves) && !TooWide(waves)
    ensures forall others :: !WideSchedule(flow, others)
  {
    hide Waves.IsSchedule, EdgeSet, NodeTable, TooWide;
    FlowLint.EdgesAreWithin(flow);
    forall others ensures !WideSchedule(flow, others) {
      if Waves.IsSchedule(NodeTable(flow.nodes), EdgeSet(flow.edges), others) {
        ScheduleLaws.ScheduleUnique(NodeTable(flow.nodes), EdgeSet(flow.edges), waves, others);
      }
    }
  }

  ghost predicate CycleRunOn(
    flow: Flow, run: StepExecutor, cancelled: nat -> bool, result: FlowResult, seen: seq<map<string, NodeResult>>,
    visits: map<string, nat>)
  {
    && History(NodeTable(flow.nodes), flow.edges, run, result.cycleLog, seen, visits)
    && EndsAs(NodeTable(flow.nodes), flow.edges, run, cancelled, result.status, result.cycleLog, seen)
  }

  // The log is that of a bounded walk over the flow's nodes, and the status says how it ended.
  ghost predicate CycleRun(flow: Flow, run: StepExecutor, cancelled: nat -> bool, result: FlowResult) {
    !FlowLint.Blocked(flow) && HasCycle(EdgeSet(flow.edges))
    && exists seen, visits :: CycleRunOn(flow, run, cancelled, result, seen, visits)
  }

  lemma SortedWaves(flow: Flow, waves: seq<seq<string>>)
    requires NoDangling(flow) && !HasCycle(EdgeSet(flow.edges))
    requires Waves.IsSchedule(NodeTable(flow.nodes), EdgeSet(flow.edges), waves)
    ensures forall w :: 0 <= w < |waves| ==> StrictlySorted(waves[w])
  {
    FlowLint.EdgesAreWithin(flow);
    ScheduleLaws.WavesPartition(NodeTable(flow.nodes), EdgeSet(flow.edges), waves);
  }

  // The launched nodes walk the schedule: all of it unless one failed, asked to stop, or the
  // context ended, and the status says which.
  ghost predicate WaveRunOn(
    flow: Flow, run: Executor, cancelled: nat -> bool, result: FlowResult, waves: seq<seq<string>>)
  {
    var begun := |result.walk.launched|;
    && Waves.IsSchedule(NodeTable(flow.nodes), EdgeSet(flow.edges), waves)
    && !TooWide(waves)
    && (forall w :: 0 <= w < |waves| ==> StrictlySorted(waves[w]))
    && IsWalk(flow.edges, waves, run, result.walk)
    && (forall w :: 0 <= w < begun ==> !cancelled(w))
    && match result.status
       case Ok => begun == |waves| && LastPassed(run, result.walk)
       case Cancelled => begun < |waves| && cancelled(begun) && LastPassed(run, result.walk)
       case NodeFailed => StoppedBy(run, result.walk, NodeFailed)
       case Escalated => StoppedBy(run, result.walk, Escalated)
       case _ => false
  }

  ghost predicate WaveRun(flow: Flow, run: Executor, cancelled: nat -> bool, result: FlowResult) {
    && !FlowLint.Blocked(flow) && NoDangling(flow) && !HasCycle(EdgeSet(flow.edges))
    && exists waves :: WaveRunOn(flow, run, cancelled, result, waves)
  }

  // Nodes running at the same time are at most four and, where no scope entry of theirs leaks or
  // slips, may write no common file; no node runs twice.
  lemma ConcurrentNodesAreSeparate(
    flow: Flow, run: Executor, cancelled: nat -> bool, result: FlowResult, w: nat, v: nat, a: string, b: string,
    path: string)
    requires WaveRun(flow, run, cancelled, result)
    requires Launched(result.walk, w, a) && Launched(result.walk, v, b)
    ensures |result.walk.launched[w]| <= 4
    ensures a == b ==> v == w
    ensures v == w && a != b ==>
      var table := NodeTable(flow.nodes);
      && a in table && b in table
      && (ScopeLists.Harmless(table[a].allowedPaths) && ScopeLists.Harmless(table[b].allowedPaths) ==>
            !(Scope.MatchesAny(path, table[a].allowedPaths) && Scope.MatchesAny(path, table[b].allowedPaths)))
  {
    hide Scope.MatchesAny, ScopeLists.Harmless, ActiveIn, NodeTable, Waves.IsSchedule, EdgeSet;
    var waves :| WaveRunOn(flow, run, cancelled, result, waves);
    FlowLint.EdgesAreWithin(flow);
    var table, edges := NodeTable(flow.nodes), EdgeSet(flow.edges);
    ActiveMembers(flow.edges, waves[w], result.walk.before[w]);
    ActiveMembers(flow.edges, waves[v], result.walk.before[v]);
    ScheduleLaws.WavesPartition(table, edges, waves);
    if v == w && a != b {
      assert a in table && b in table;
      if ScopeLists.Harmless(table[a].allowedPaths) && ScopeLists.Harmless(table[b].allowedPaths) {
        ScheduleLaws.WaveWritesAreDisjoint(table, edges, waves, w, a, b, path);
      }
    }
  }
}
