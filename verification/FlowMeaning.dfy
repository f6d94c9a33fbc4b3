// What a flow says and what a run of it does, in the words of the flow: the text of its conditions
// and the fields of its results.
module FlowMeaning {
  import opened Ordering
  import opened Digraph
  import opened Text
  import opened TextLaws
  import opened FlowModel
  import opened FlowEngine
  import FlowLint
  import Waves

  // ---- conditions ----

  // The text of a condition asks this of a result.
  predicate AsksFor(text: string, result: NodeResult) {
    || TrimSpace(text) == "default"
    || Fields(text) == ["verdict", "==", result.verdict]
    || Fields(text) == ["policy", "==", result.policy]
  }

  ghost predicate Readable(text: string) {
    || TrimSpace(text) == "default"
    || (exists v :: v in {"pass", "fail", "timeout", "blocked", "not_run"} && Fields(text) == ["verdict", "==", v])
    || (exists p :: p in {"pass", "require_approval", "blocked", "escalate"} && Fields(text) == ["policy", "==", p])
  }

  lemma ReadableExactly(text: string)
    ensures Readable(text) <==> !FlowLint.ParseCondition(text).Invalid?
  {
    hide TrimSpace, Fields;
    var parts := Fields(text);
    if |parts| == 3 {
      assert parts == [parts[0], parts[1], parts[2]];
    }
  }

  lemma AsksExactly(text: string, result: NodeResult)
    requires Readable(text)
    ensures AsksFor(text, result) <==> Satisfies(FlowLint.ParseCondition(text), result)
  {
    hide TrimSpace, Fields;
    var parts := Fields(text);
    if |parts| == 3 {
      assert parts == [parts[0], parts[1], parts[2]];
    }
  }

  // ---- routing ----

  ghost predicate IsRoot(edges: seq<Edge>, n: string) {
    forall e :: e in edges ==> e.dst != n
  }

  // An edge leads to n from a node with a result its text asks for.
  ghost predicate Called(edges: seq<Edge>, n: string, results: map<string, NodeResult>) {
    exists e :: e in edges && e.dst == n && e.src in results && AsksFor(e.when, results[e.src])
  }

  ghost predicate AllReadable(edges: seq<Edge>) {
    forall e :: e in edges ==> Readable(e.when)
  }

  lemma EnabledByText(edges: seq<Edge>, n: string, results: map<string, NodeResult>)
    requires AllReadable(edges)
    ensures Enabled(edges, n, results) <==> IsRoot(edges, n) || Called(edges, n, results)
  {
    EnabledMeans(edges, n, results);
    hide Enabled, AsksFor, Readable, FlowLint.ParseCondition, Satisfies;
    forall e | e in edges
      ensures !FlowLint.ParseCondition(e.when).Invalid?
      ensures e.src in results ==> (Matches(e, results) <==> AsksFor(e.when, results[e.src])) {
      ReadableExactly(e.when);
      if e.src in results {
        AsksExactly(e.when, results[e.src]);
      }
    }
  }

  // What passes the lint has readable conditions.
  lemma UnblockedReads(flow: Flow)
    requires !FlowLint.Blocked(flow)
    ensures AllReadable(flow.edges)
  {
    hide FlowLint.LintTable, FlowLint.ParseCondition, FlowLint.EdgeRule, FlowLint.NodeRule, FlowLint.CoverageRule,
      FlowLint.CycleRule, FlowLint.LintEdges, Readable;
    var table := FlowLint.LintTable(flow.nodes);
    assert !FlowLint.Finds(flow, FlowLint.Finding(FlowLint.EmptyFlow, ""));
    forall e | e in flow.edges ensures Readable(e.when) {
      ReadableExactly(e.when);
      assert !FlowLint.Finds(flow, FlowLint.Finding(FlowLint.DanglingEdge, ""));
      assert !FlowLint.Finds(flow, FlowLint.Finding(FlowLint.InvalidCondition, ""));
      UnreadableIsFound(table, e);
    }
  }

  lemma UnreadableIsFound(table: map<string, Node>, e: Edge)
    requires !FlowLint.EdgeRule(table, e, FlowLint.Finding(FlowLint.DanglingEdge, ""))
    requires !FlowLint.EdgeRule(table, e, FlowLint.Finding(FlowLint.InvalidCondition, ""))
    ensures FlowLint.Known(table, e) && !FlowLint.ParseCondition(e.when).Invalid?
  {
    hide FlowLint.ParseCondition, FlowLint.Known;
  }

  // A node of a started wave runs exactly when nothing leads to it or the text of some edge into it
  // asks for a result that was recorded.
  lemma RoutedByText(
    flow: Flow, run: Executor, cancelled: nat -> bool, result: FlowResult, waves: seq<seq<string>>, w: nat, n: string)
    requires !FlowLint.Blocked(flow) && WaveRunOn(flow, run, cancelled, result, waves)
    requires w < |result.walk.launched|
    ensures w < |waves| && |result.walk.before| == |result.walk.launched|
    ensures Launched(result.walk, w, n) <==>
      n in waves[w] && (IsRoot(flow.edges, n) || Called(flow.edges, n, result.walk.before[w]))
  {
    UnblockedReads(flow);
    hide FlowLint.Blocked, Waves.IsSchedule, StoppedBy, Enabled, ActiveIn, LastPassed, Passed, After;
    ActiveMembers(flow.edges, waves[w], result.walk.before[w]);
    EnabledByText(flow.edges, n, result.walk.before[w]);
  }

  // Behind a single edge, then: with a policy or a verdict the node runs exactly when the source's
  // recorded result has it, by default whenever the source has a result.
  lemma SingleEdgeRoutes(
    flow: Flow, run: Executor, cancelled: nat -> bool, result: FlowResult, waves: seq<seq<string>>, w: nat, e: Edge,
    value: string)
    requires !FlowLint.Blocked(flow) && WaveRunOn(flow, run, cancelled, result, waves)
    requires w < |result.walk.launched| && w < |waves| && |result.walk.before| == |result.walk.launched|
    requires e in flow.edges && e.dst in waves[w] && forall f :: f in flow.edges && f.dst == e.dst ==> f == e
    ensures e.src !in result.walk.before[w] ==> !Launched(result.walk, w, e.dst)
    ensures e.src in result.walk.before[w] && Fields(e.when) == ["policy", "==", value] ==>
      (Launched(result.walk, w, e.dst) <==> result.walk.before[w][e.src].policy == value)
    ensures e.src in result.walk.before[w] && Fields(e.when) == ["verdict", "==", value] ==>
      (Launched(result.walk, w, e.dst) <==> result.walk.before[w][e.src].verdict == value)
    ensures e.src in result.walk.before[w] && TrimSpace(e.when) == "default" ==> Launched(result.walk, w, e.dst)
  {
    RoutedByText(flow, run, cancelled, result, waves, w, e.dst);
    if TrimSpace(e.when) == "default" {
      DefaultIsOneWord(e.when);
    }
    hide FlowLint.Blocked, WaveRunOn, TrimSpace, Fields, Launched;
    if e.src in result.walk.before[w] && AsksFor(e.when, result.walk.before[w][e.src]) {
      assert Called(flow.edges, e.dst, result.walk.before[w]);
    }
  }

  lemma DefaultIsOneWord(text: string)
    requires TrimSpace(text) == "default"
    ensures |Fields(text)| == 1
  {
    FieldsOfTrimmed(text);
    hide TrimSpace, Fields;
    NoSpaceInside();
    OneWord("default");
  }

  lemma NoSpaceInside()
    ensures NoSpace("default")
  {
  }

  // ---- results ----

  // What is recorded of an execution: the result it returned, and of a node without a route the bare
  // status blocked.
  predicate Records(outcome: Outcome, result: NodeResult) {
    match outcome
    case Failed => false
    case RouteBlocked => result == NodeResult("blocked", "", "")
    case Finished(returned) => result == returned
  }

  // What a later wave reads of a node is what the node returned.
  lemma {:induction false} RecordedAsReturned(
    edges: seq<Edge>, waves: seq<seq<string>>, run: Executor, walk: Walk, v: nat, w: nat, n: string)
    requires IsWalk(edges, waves, run, walk) && v < w < |walk.launched| && Launched(walk, v, n)
    requires forall u :: v < u < w ==> !Launched(walk, u, n)
    ensures n in walk.before[w] && Records(run(n, walk.before[v]), walk.before[w][n])
    decreases w
  {
    hide ActiveIn, PolicyStops;
    assert After(run, walk.launched[w - 1], walk.before[w - 1], walk.before[w]);
    if w > v + 1 {
      RecordedAsReturned(edges, waves, run, walk, v, w - 1, n);
      assert !Launched(walk, w - 1, n);
    } else {
      assert Clean(run, n, walk.before[v]);
    }
  }

  // ---- stopping ----

  // The walk goes on behind such an outcome.
  predicate Continues(outcome: Outcome) {
    || outcome.RouteBlocked?
    || (outcome.Finished? && outcome.result.policy !in {"blocked", "escalate", "require_approval"})
  }

  // With the policy the verify capability reports, a flow goes on behind a verify node exactly when that
  // finished ok with the verdict pass.
  lemma VerifyGoesOn(status: string, verdict: string)
    ensures Continues(Finished(NodeResult(status, verdict, PolicyForVerify(status, verdict)))) <==>
      status == "ok" && verdict == "pass"
  {
  }

  lemma CleanByText(run: Executor, n: string, before: map<string, NodeResult>)
    ensures Clean(run, n, before) <==> Continues(run(n, before))
  {
  }

  ghost predicate ContinueTo(run: Executor, walk: Walk, w: nat, k: nat)
    requires w < |walk.launched| == |walk.before| && k <= |walk.launched[w]|
  {
    forall j :: 0 <= j < k ==> Continues(run(walk.launched[w][j], walk.before[w]))
  }

  // The k-th node of the last wave is the first that did not let the walk go on.
  ghost predicate Halts(run: Executor, walk: Walk, k: nat, outcome: Outcome) {
    var last := |walk.launched| - 1;
    && 0 <= last && |walk.before| == |walk.launched| && k < |walk.launched[last]|
    && ContinueTo(run, walk, last, k) && outcome == run(walk.launched[last][k], walk.before[last])
    && !Continues(outcome)
  }

  // All nodes let the walk go on.
  ghost predicate WaveContinues(run: Executor, walk: Walk, w: nat)
    requires w < |walk.launched| == |walk.before|
  {
    ContinueTo(run, walk, w, |walk.launched[w]|)
  }

  lemma PassedByText(run: Executor, walk: Walk, w: nat)
    requires w < |walk.launched| == |walk.before|
    ensures Passed(run, walk.launched[w], walk.before[w]) <==> WaveContinues(run, walk, w)
  {
    hide Clean, Continues;
    var active, before := walk.launched[w], walk.before[w];
    forall n ensures Clean(run, n, before) <==> Continues(run(n, before)) {
      CleanByText(run, n, before);
    }
    if Passed(run, active, before) {
      assert forall j :: 0 <= j < |active| ==> active[j] in active;
    }
  }

  lemma StoppedByText(run: Executor, walk: Walk, status: Status)
    requires StoppedBy(run, walk, status) && (status == NodeFailed || status == Escalated)
    ensures exists k, outcome :: Halts(run, walk, k, outcome) && (status == NodeFailed <==> outcome.Failed?)
  {
    hide Clean, Continues;
    var last := |walk.launched| - 1;
    var k: nat :| StoppedAt(run, walk, k) && (status == NodeFailed <==> run(walk.launched[last][k], walk.before[last]).Failed?);
    forall n ensures Clean(run, n, walk.before[last]) <==> Continues(run(n, walk.before[last])) {
      CleanByText(run, n, walk.before[last]);
    }
    assert Halts(run, walk, k, run(walk.launched[last][k], walk.before[last]));
  }

  // Every wave but the last went on. So did the last one, to the end of the schedule or to a context
  // that is done; or its first node that did not go on failed or returned a stopping policy.
  lemma EndsByResult(
    flow: Flow, run: Executor, cancelled: nat -> bool, result: FlowResult, waves: seq<seq<string>>)
    requires WaveRunOn(flow, run, cancelled, result, waves)
    ensures var walk := result.walk;
      var begun := |walk.launched|;
      && begun <= |waves| && |walk.before| == begun && (forall w :: 0 <= w < begun ==> !cancelled(w))
      && (forall w :: 0 <= w < begun - 1 ==> WaveContinues(run, walk, w))
      && match result.status
         case Ok => begun == |waves| && (begun > 0 ==> WaveContinues(run, walk, begun - 1))
         case Cancelled =>
           begun < |waves| && cancelled(begun) && (begun > 0 ==> WaveContinues(run, walk, begun - 1))
         case NodeFailed => exists k :: Halts(run, walk, k, Failed)
         case Escalated => exists k, returned :: Halts(run, walk, k, Finished(returned))
         case _ => false
  {
    hide Waves.IsSchedule, StoppedBy, ActiveIn, Passed, After, WaveContinues, Halts;
    var walk := result.walk;
    forall w | 0 <= w < |walk.launched| ensures Passed(run, walk.launched[w], walk.before[w]) <==> WaveContinues(run, walk, w) {
      PassedByText(run, walk, w);
    }
    if result.status == NodeFailed || result.status == Escalated {
      StoppedByText(run, walk, result.status);
      var k, outcome :| Halts(run, walk, k, outcome) && (result.status == NodeFailed <==> outcome.Failed?);
      HaltIsResult(run, walk, k, outcome);
    }
  }

  lemma HaltIsResult(run: Executor, walk: Walk, k: nat, outcome: Outcome)
    requires Halts(run, walk, k, outcome)
    ensures outcome == Failed || exists returned :: outcome == Finished(returned)
  {
    if outcome.Finished? {
      assert outcome == Finished(outcome.result);
    }
  }

  // ---- the walk over a cycle ----

  function Limit(node: Node): nat {
    if node.maxVisits > 0 then node.maxVisits else 1
  }

  // The node has visits left, and nothing leads to it or an edge into it asks for a known result.
  ghost predicate Ready(
    table: map<string, Node>, edges: seq<Edge>, results: map<string, NodeResult>, done: seq<string>, n: string)
  {
    && n in table && (IsRoot(edges, n) || Called(edges, n, results)) && multiset(done)[n] < Limit(table[n])
  }

  lemma OpenByText(
    table: map<string, Node>, edges: seq<Edge>, results: map<string, NodeResult>, done: seq<string>, n: string)
    requires AllReadable(edges)
    ensures Open(table, edges, results, done, n) <==> Ready(table, edges, results, done, n)
  {
    EnabledByText(edges, n, results);
    hide Enabled, Called, IsRoot;
    assert n !in done ==> multiset(done)[n] == 0;
  }

  // The result known of a node after the first i steps is that of its last execution among them.
  ghost predicate LastResult(
    run: StepExecutor, log: seq<string>, seen: seq<map<string, NodeResult>>, i: nat, n: string, result: NodeResult)
    requires i <= |log| == |seen|
  {
    exists j :: 0 <= j < i && log[j] == n && Records(run(j, n, seen[j]), result)
      && forall k :: j < k < i ==> log[k] != n
  }

  ghost predicate Knows(
    run: StepExecutor, log: seq<string>, seen: seq<map<string, NodeResult>>, i: nat, results: map<string, NodeResult>)
    requires i <= |log| == |seen|
  {
    && results.Keys == Elements(log[..i])
    && forall n :: n in results ==> LastResult(run, log, seen, i, n, results[n])
  }

  lemma KnowsNext(
    run: StepExecutor, log: seq<string>, seen: seq<map<string, NodeResult>>, i: nat, results: map<string, NodeResult>,
    result: NodeResult)
    requires i < |log| == |seen| && Knows(run, log, seen, i, results) && Records(run(i, log[i], seen[i]), result)
    ensures Knows(run, log, seen, i + 1, results[log[i] := result])
  {
    hide Records;
    var after := results[log[i] := result];
    assert log[..i + 1] == log[..i] + [log[i]];
    forall n | n in after ensures LastResult(run, log, seen, i + 1, n, after[n]) {
      if n != log[i] {
        var j :| 0 <= j < i && log[j] == n && Records(run(j, n, seen[j]), results[n])
          && forall k :: j < k < i ==> log[k] != n;
        assert forall k :: j < k < i + 1 ==> log[k] != n;
      }
    }
  }

  lemma {:induction false} ResultsByText(
    table: map<string, Node>, edges: seq<Edge>, run: StepExecutor, log: seq<string>, seen: seq<map<string, NodeResult>>,
    visits: map<string, nat>, i: nat)
    requires History(table, edges, run, log, seen, visits) && i <= |log| && CleanBefore(run, log, seen, i)
    ensures Knows(run, log, seen, i, ResultsAfter(run, log, seen, i))
  {
    hide StepOk, Counts, StepClean, Knows, Records;
    if i == 0 {
      KnowsNothing(run, log, seen);
    } else {
      ResultsByText(table, edges, run, log, seen, visits, i - 1);
      assert StepClean(run, i - 1, log[i - 1], seen[i - 1]);
      SeenByStep(table, edges, run, log, seen, visits, i - 1);
      StepRecords(run, i - 1, log[i - 1], seen[i - 1]);
      KnowsNext(run, log, seen, i - 1, seen[i - 1], ResultOf(run(i - 1, log[i - 1], seen[i - 1])));
    }
  }

  lemma KnowsNothing(run: StepExecutor, log: seq<string>, seen: seq<map<string, NodeResult>>)
    requires |log| == |seen|
    ensures Knows(run, log, seen, 0, map[])
  {
    NoElements(log[..0]);
  }

  lemma SeenByStep(
    table: map<string, Node>, edges: seq<Edge>, run: StepExecutor, log: seq<string>, seen: seq<map<string, NodeResult>>,
    visits: map<string, nat>, i: nat)
    requires History(table, edges, run, log, seen, visits) && i < |log|
    ensures CleanBefore(run, log, seen, i) && seen[i] == ResultsAfter(run, log, seen, i)
    ensures log[i] in table && GoesOnWith(table, edges, seen[i], log[..i], log[i])
  {
    hide Counts, StepClean, GoesOnWith, Justified;
    assert StepOk(table, edges, run, log, seen, i);
  }

  lemma StepRecords(run: StepExecutor, step: nat, id: string, before: map<string, NodeResult>)
    requires StepClean(run, step, id, before)
    ensures Records(run(step, id, before), ResultOf(run(step, id, before)))
    ensures Continues(run(step, id, before))
  {
  }

  // What the i-th step does: it knows the results of the steps before it and takes the least node that
  // is ready, or, where none is ready at the start, the least of all.
  ghost predicate StepByText(
    table: map<string, Node>, edges: seq<Edge>, run: StepExecutor, log: seq<string>, seen: seq<map<string, NodeResult>>,
    i: nat)
    requires i < |log| == |seen|
  {
    && Knows(run, log, seen, i, seen[i]) && log[i] in table
    && (if exists n :: Ready(table, edges, seen[i], log[..i], n) then
          Ready(table, edges, seen[i], log[..i], log[i])
          && forall n :: Ready(table, edges, seen[i], log[..i], n) && n != log[i] ==> Less(log[i], n)
        else i == 0 && IsLeast(log[i], table.Keys))
  }

  lemma StepsByText(
    table: map<string, Node>, edges: seq<Edge>, run: StepExecutor, log: seq<string>, seen: seq<map<string, NodeResult>>,
    visits: map<string, nat>, i: nat)
    requires AllReadable(edges) && History(table, edges, run, log, seen, visits) && i < |log|
    ensures StepByText(table, edges, run, log, seen, i)
  {
    assert |log| == |seen|;
    SeenByStep(table, edges, run, log, seen, visits, i);
    ResultsByText(table, edges, run, log, seen, visits, i);
    hide History, CleanBefore, ResultsAfter, LastResult, Open, Ready, AllReadable;
    forall n ensures Open(table, edges, seen[i], log[..i], n) <==> Ready(table, edges, seen[i], log[..i], n) {
      OpenByText(table, edges, seen[i], log[..i], n);
    }
    NoElements(log[..i]);
    hide Less, IsLeast;
  }

  // How the walk over a cycle ended: the steps before the last went on. So did the last, until nothing
  // was ready, the context was done or the bound of 4n + 4 steps was reached; or it failed or returned
  // a stopping policy.
  ghost predicate EndsByText(
    table: map<string, Node>, edges: seq<Edge>, run: StepExecutor, cancelled: nat -> bool, status: Status,
    log: seq<string>, seen: seq<map<string, NodeResult>>)
    requires |log| == |seen|
  {
    var bound, last := 4 * |table| + 4, |log| - 1;
    && |log| <= bound && (forall i :: 0 <= i < |log| ==> !cancelled(i))
    && (forall i :: 0 <= i < last ==> Continues(run(i, log[i], seen[i])))
    && (status == Ok || status == Cancelled || status == ExceededVisits ==>
          log != [] ==> Continues(run(last, log[last], seen[last])))
    && match status
       case Ok => |log| < bound && !cancelled(|log|) && AtRest(table, edges, run, log, seen)
       case Cancelled => |log| < bound && cancelled(|log|)
       case ExceededVisits => |log| == bound
       case NodeFailed => log != [] && run(last, log[last], seen[last]) == Failed
       case Escalated => log != [] && StopsByPolicy(run(last, log[last], seen[last]))
       case Blocked => false
  }

  predicate StopsByPolicy(outcome: Outcome) {
    outcome.Finished? && outcome.result.policy in {"blocked", "escalate", "require_approval"}
  }

  // Nothing is ready with the results of the whole log, and there was nothing to walk or it was begun.
  ghost predicate AtRest(
    table: map<string, Node>, edges: seq<Edge>, run: StepExecutor, log: seq<string>, seen: seq<map<string, NodeResult>>)
    requires |log| == |seen|
  {
    && (log == [] ==> table == map[])
    && exists results :: Knows(run, log, seen, |log|, results) && forall n :: !Ready(table, edges, results, log, n)
  }

  lemma RestByText(
    table: map<string, Node>, edges: seq<Edge>, run: StepExecutor, log: seq<string>, seen: seq<map<string, NodeResult>>,
    visits: map<string, nat>)
    requires AllReadable(edges) && History(table, edges, run, log, seen, visits) && AllClean(run, log, seen)
    requires Exhausted(table, edges, ResultsAfter(run, log, seen, |log|), log)
    ensures AtRest(table, edges, run, log, seen)
  {
    ResultsByText(table, edges, run, log, seen, visits, |log|);
    var results := ResultsAfter(run, log, seen, |log|);
    assert log[..|log|] == log;
    hide History, CleanBefore, ResultsAfter, LastResult, Open, Ready, AllReadable;
    forall n ensures !Ready(table, edges, results, log, n) {
      OpenByText(table, edges, results, log, n);
    }
    NoElements(log);
  }

  lemma CleanContinues(run: StepExecutor, log: seq<string>, seen: seq<map<string, NodeResult>>, k: int)
    requires |log| == |seen| && k <= |log| && CleanBefore(run, log, seen, k)
    ensures forall i :: 0 <= i < k ==> Continues(run(i, log[i], seen[i]))
  {
    hide StepClean, Continues, Records;
    forall i | 0 <= i < k ensures Continues(run(i, log[i], seen[i])) {
      StepRecords(run, i, log[i], seen[i]);
    }
  }

  lemma PolicyByText(outcome: Outcome)
    requires !outcome.Failed? && PolicyStops(ResultOf(outcome))
    ensures StopsByPolicy(outcome)
  {
  }

  lemma CycleEndsByResult(
    flow: Flow, run: StepExecutor, cancelled: nat -> bool, result: FlowResult, seen: seq<map<string, NodeResult>>,
    visits: map<string, nat>)
    requires !FlowLint.Blocked(flow) && CycleRunOn(flow, run, cancelled, result, seen, visits)
    ensures |seen| == |result.cycleLog|
    ensures EndsByText(NodeTable(flow.nodes), flow.edges, run, cancelled, result.status, result.cycleLog, seen)
    ensures forall i :: 0 <= i < |seen| ==>
      StepByText(NodeTable(flow.nodes), flow.edges, run, result.cycleLog, seen, i)
  {
    hide FlowLint.Blocked, NodeTable;
    UnblockedReads(flow);
    EndByText(NodeTable(flow.nodes), flow.edges, run, cancelled, result.status, result.cycleLog, seen, visits);
    hide AllReadable, History, EndsAs, EndsByText, StepByText;
    forall i | 0 <= i < |seen|
      ensures StepByText(NodeTable(flow.nodes), flow.edges, run, result.cycleLog, seen, i) {
      StepsByText(NodeTable(flow.nodes), flow.edges, run, result.cycleLog, seen, visits, i);
    }
  }

  lemma EndByText(
    table: map<string, Node>, edges: seq<Edge>, run: StepExecutor, cancelled: nat -> bool, status: Status,
    log: seq<string>, seen: seq<map<string, NodeResult>>, visits: map<string, nat>)
    requires AllReadable(edges) && History(table, edges, run, log, seen, visits)
    requires EndsAs(table, edges, run, cancelled, status, log, seen)
    ensures |log| == |seen| && EndsByText(table, edges, run, cancelled, status, log, seen)
  {
    hide AllReadable, StepOk, Counts, CleanBefore, Exhausted, ResultsAfter, PolicyStops, AtRest, Continues,
      StopsByPolicy;
    CleanContinues(run, log, seen, |log| - 1);
    if status == Ok || status == Cancelled || status == ExceededVisits {
      CleanContinues(run, log, seen, |log|);
    }
    if status == Ok {
      RestByText(table, edges, run, log, seen, visits);
    }
    if status == Escalated {
      PolicyByText(run(|log| - 1, log[|log| - 1], seen[|log| - 1]));
    }
  }

  // ---- what runs nothing ----

  // A flow is refused exactly when the lint blocks it, an edge leads to or from no node, or it has no
  // cycle and a wave of its schedule holds more than four nodes.
  lemma RefusedByText(flow: Flow)
    ensures Refused(flow) <==>
      || FlowLint.Blocked(flow)
      || (exists e :: e in flow.edges && (e.src !in NodeTable(flow.nodes) || e.dst !in NodeTable(flow.nodes)))
      || (!HasCycle(EdgeSet(flow.edges))
          && exists waves, w :: Waves.IsSchedule(NodeTable(flow.nodes), EdgeSet(flow.edges), waves)
               && 0 <= w < |waves| && |waves[w]| > 4)
  {
    DanglingByText(flow);
    WideByText(flow);
    hide FlowLint.Blocked, HasCycle, EdgeSet, NodeTable, Waves.IsSchedule, WideSchedule, NoDangling;
  }

  lemma DanglingByText(flow: Flow)
    ensures NoDangling(flow) <==>
      forall e :: e in flow.edges ==> e.src in NodeTable(flow.nodes) && e.dst in NodeTable(flow.nodes)
  {
    hide NodeTable;
    forall k | 0 <= k < |flow.edges| ensures flow.edges[k] in flow.edges && (DanglingAt(flow, k) <==>
        (flow.edges[k].src !in NodeTable(flow.nodes) || flow.edges[k].dst !in NodeTable(flow.nodes))) {
    }
  }

  lemma WideByText(flow: Flow)
    ensures (exists waves :: WideSchedule(flow, waves)) <==>
      exists waves, w :: Waves.IsSchedule(NodeTable(flow.nodes), EdgeSet(flow.edges), waves)
        && 0 <= w < |waves| && |waves[w]| > 4
  {
    hide EdgeSet, NodeTable, Waves.IsSchedule;
    forall waves ensures WideSchedule(flow, waves) <==>
        (Waves.IsSchedule(NodeTable(flow.nodes), EdgeSet(flow.edges), waves)
         && exists w :: 0 <= w < |waves| && |waves[w]| > 4) {
    }
  }
}
