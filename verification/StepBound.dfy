// When the step bound ends the bounded walk of a flow whose nodes all finish cleanly and whose
// conditions come out the same at every visit.
module StepBound {
  import opened Ordering
  import opened Digraph
  import opened FlowModel
  import opened FlowEngine
  import FlowLint

  ghost predicate AlwaysClean(run: StepExecutor) {
    forall step, id, results :: StepClean(run, step, id, results)
  }

  // Run returns that result for the node at some step.
  ghost predicate Gives(
    run: StepExecutor, step: nat, id: string, before: map<string, NodeResult>, result: NodeResult) {
    !run(step, id, before).Failed? && result == ResultOf(run(step, id, before))
  }

  ghost predicate Given(run: StepExecutor, id: string, result: NodeResult) {
    exists step, before :: Gives(run, step, id, before, result)
  }

  // Every condition can be read, and holds of whatever its source returns exactly when its edge is live.
  ghost predicate Fixed(edges: seq<Edge>, run: StepExecutor, live: Edge -> bool) {
    forall e :: e in edges ==> !FlowLint.ParseCondition(e.when).Invalid? && ComesOut(run, live, e)
  }

  ghost predicate ComesOut(run: StepExecutor, live: Edge -> bool, e: Edge) {
    forall result :: Given(run, e.src, result) ==> (Satisfies(FlowLint.ParseCondition(e.when), result) <==> live(e))
  }

  ghost function Roots(table: map<string, Node>, edges: seq<Edge>): set<string> {
    set n | n in table && forall e :: e in edges ==> e.dst != n
  }

  ghost function LivePaths(edges: seq<Edge>, live: Edge -> bool): set<(string, string)> {
    set e | e in edges && live(e) :: (e.src, e.dst)
  }

  // A walk starts at the roots, or at the least node where there is none.
  ghost predicate Start(table: map<string, Node>, roots: set<string>, s: string) {
    s in table && (s in roots || (roots == {} && IsLeast(s, table.Keys)))
  }

  ghost predicate Behind(table: map<string, Node>, roots: set<string>, paths: set<(string, string)>, n: string) {
    exists s :: Start(table, roots, s) && Reaches(paths, s, n)
  }

  // A live edge leads to n from a node the walk gets to.
  ghost predicate Fed(table: map<string, Node>, roots: set<string>, paths: set<(string, string)>, n: string) {
    exists a :: (a, n) in paths && Behind(table, roots, paths, a)
  }

  // How often the node is visited: never where the walk does not get to, else as often as its limit
  // allows. A least node the walk begins with and never comes back to is visited once.
  ghost function Share(table: map<string, Node>, roots: set<string>, paths: set<(string, string)>, n: string): nat
    requires n in table
  {
    if !Behind(table, roots, paths, n) then 0
    else if n in roots || Fed(table, roots, paths, n) then MaxVisits(table[n])
    else 1
  }

  ghost function Shares(
    table: map<string, Node>, roots: set<string>, paths: set<(string, string)>): map<string, nat> {
    map n | n in table :: Share(table, roots, paths, n)
  }

  // ---- reachability along the live edges ----

  lemma StartIsBehind(table: map<string, Node>, roots: set<string>, paths: set<(string, string)>, s: string)
    requires Start(table, roots, s)
    ensures Behind(table, roots, paths, s)
  {
    assert IsPath(paths, [s]) && [s][0] == s;
  }

  lemma FedIsBehind(table: map<string, Node>, roots: set<string>, paths: set<(string, string)>, n: string)
    requires Fed(table, roots, paths, n)
    ensures Behind(table, roots, paths, n)
  {
    hide Start;
    var a :| (a, n) in paths && Behind(table, roots, paths, a);
    var s :| Start(table, roots, s) && Reaches(paths, s, a);
    var p :| IsPath(paths, p) && p[0] == s && p[|p| - 1] == a;
    var q := p + [n];
    assert IsPath(paths, q) && q[0] == s && q[|q| - 1] == n;
  }

  // ---- what a step may take ----

  ghost predicate FromRun(run: StepExecutor, results: map<string, NodeResult>) {
    forall n :: n in results ==> Given(run, n, results[n])
  }

  // An edge that is live leads to n from a node with a result.
  ghost predicate Reached(paths: set<(string, string)>, n: string, done: set<string>) {
    exists a :: (a, n) in paths && a in done
  }

  lemma EnabledWhenReached(
    table: map<string, Node>, edges: seq<Edge>, run: StepExecutor, live: Edge -> bool, n: string,
    results: map<string, NodeResult>)
    requires Fixed(edges, run, live) && FromRun(run, results) && n in table
    ensures Enabled(edges, n, results) <==> n in Roots(table, edges) || Reached(LivePaths(edges, live), n, results.Keys)
  {
    EnabledMeans(edges, n, results);
    hide Enabled, FlowLint.ParseCondition, Satisfies, Given;
    forall e | e in edges && e.src in results ensures Matches(e, results) <==> live(e) {
      assert ComesOut(run, live, e) && Given(run, e.src, results[e.src]);
    }
    if Reached(LivePaths(edges, live), n, results.Keys) {
      var a :| (a, n) in LivePaths(edges, live) && a in results.Keys;
      var e :| e in edges && live(e) && (e.src, e.dst) == (a, n);
      assert Matches(e, results);
    }
    if e :| e in edges && e.dst == n && Matches(e, results) {
      assert (e.src, n) in LivePaths(edges, live) && e.src in results.Keys;
    }
  }

  // The results known are those of the nodes in the log, as the run returned them.
  lemma {:induction false} ResultsKnown(
    table: map<string, Node>, edges: seq<Edge>, run: StepExecutor, log: seq<string>, seen: seq<map<string, NodeResult>>,
    visits: map<string, nat>, k: nat)
    requires History(table, edges, run, log, seen, visits) && AllClean(run, log, seen) && k <= |log|
    ensures CleanBefore(run, log, seen, k) && ResultsAfter(run, log, seen, k).Keys == Elements(log[..k])
    ensures FromRun(run, ResultsAfter(run, log, seen, k))
  {
    hide GoesOnWith, Justified, Counts, StepClean;
    if k > 0 {
      ResultsKnown(table, edges, run, log, seen, visits, k - 1);
      assert StepOk(table, edges, run, log, seen, k - 1);
      assert log[..k] == log[..k - 1] + [log[k - 1]];
      StepGives(run, k - 1, log[k - 1], seen[k - 1]);
      hide Given;
    }
  }

  lemma StepGives(run: StepExecutor, step: nat, id: string, before: map<string, NodeResult>)
    requires StepClean(run, step, id, before)
    ensures Given(run, id, ResultOf(run(step, id, before)))
  {
    hide PolicyStops;
    assert Gives(run, step, id, before, ResultOf(run(step, id, before)));
  }

  // What a step takes: a start, or a node reached from the log so far.
  ghost predicate Taken(
    table: map<string, Node>, roots: set<string>, paths: set<(string, string)>, done: seq<string>, n: string)
  {
    (done == [] && Start(table, roots, n)) || n in roots || Reached(paths, n, Elements(done))
  }

  lemma StepTakes(
    table: map<string, Node>, edges: seq<Edge>, run: StepExecutor, live: Edge -> bool,
    results: map<string, NodeResult>, done: seq<string>, n: string)
    requires Fixed(edges, run, live) && FromRun(run, results)
    requires n in table && results.Keys == Elements(done) && GoesOnWith(table, edges, results, done, n)
    ensures Taken(table, Roots(table, edges), LivePaths(edges, live), done, n)
  {
    hide Enabled, Fixed, FromRun, MaxVisits, Reached;
    EnabledWhenReached(table, edges, run, live, n, results);
    if exists m :: Open(table, edges, results, done, m) {
      assert Open(table, edges, results, done, n);
    } else {
      NoElements(done);
      forall m | m in table ensures m !in Roots(table, edges) {
        EnabledWhenReached(table, edges, run, live, m, results);
        assert !Open(table, edges, results, done, m);
      }
    }
  }

  lemma LogStep(
    table: map<string, Node>, edges: seq<Edge>, run: StepExecutor, live: Edge -> bool, log: seq<string>,
    seen: seq<map<string, NodeResult>>, visits: map<string, nat>, i: nat)
    requires Fixed(edges, run, live)
    requires History(table, edges, run, log, seen, visits) && AllClean(run, log, seen) && i < |log|
    ensures log[i] in table && Taken(table, Roots(table, edges), LivePaths(edges, live), log[..i], log[i])
  {
    ResultsKnown(table, edges, run, log, seen, visits, i);
    assert StepOk(table, edges, run, log, seen, i);
    hide Fixed, FromRun, CleanBefore, ResultsAfter, Taken, GoesOnWith;
    StepTakes(table, edges, run, live, seen[i], log[..i], log[i]);
  }

  // Every executed node lies behind a start.
  lemma {:induction false} LogIsBehind(
    table: map<string, Node>, roots: set<string>, paths: set<(string, string)>, log: seq<string>, i: nat)
    requires forall j :: 0 <= j < |log| ==> log[j] in table && Taken(table, roots, paths, log[..j], log[j])
    requires i < |log|
    ensures Behind(table, roots, paths, log[i])
  {
    hide Behind, Start;
    assert Taken(table, roots, paths, log[..i], log[i]);
    if Reached(paths, log[i], Elements(log[..i])) {
      var a :| (a, log[i]) in paths && a in Elements(log[..i]);
      var j :| 0 <= j < i && log[j] == a;
      LogIsBehind(table, roots, paths, log, j);
      FedIsBehind(table, roots, paths, log[i]);
    } else {
      assert Start(table, roots, log[i]) by {
        RootsStart(table, roots, log[i]);
      }
      StartIsBehind(table, roots, paths, log[i]);
    }
  }

  lemma RootsStart(table: map<string, Node>, roots: set<string>, n: string)
    requires n in table
    ensures n in roots ==> Start(table, roots, n)
  {
  }

  // After the first step only roots and fed nodes are executed.
  lemma LaterIsFed(
    table: map<string, Node>, roots: set<string>, paths: set<(string, string)>, log: seq<string>, i: nat)
    requires forall j :: 0 <= j < |log| ==> log[j] in table && Taken(table, roots, paths, log[..j], log[j])
    requires 0 < i < |log|
    ensures log[i] in roots || Fed(table, roots, paths, log[i])
  {
    hide Start, Behind;
    assert Taken(table, roots, paths, log[..i], log[i]);
    if Reached(paths, log[i], Elements(log[..i])) {
      var a :| (a, log[i]) in paths && a in Elements(log[..i]);
      var j :| 0 <= j < i && log[j] == a;
      LogIsBehind(table, roots, paths, log, j);
    }
  }

  // A node that is no root and not fed is executed as the first or not at all.
  lemma TakenOnce(
    table: map<string, Node>, roots: set<string>, paths: set<(string, string)>, log: seq<string>, n: string)
    requires forall j :: 0 <= j < |log| ==> log[j] in table && Taken(table, roots, paths, log[..j], log[j])
    requires n !in roots && !Fed(table, roots, paths, n)
    ensures multiset(log)[n] <= 1
  {
    hide Taken, Fed;
    forall i | 0 < i < |log| ensures log[i] != n {
      LaterIsFed(table, roots, paths, log, i);
    }
    if log != [] {
      assert log == [log[0]] + log[1..];
      NotIn(log[1..], n);
    }
  }

  lemma NotIn(s: seq<string>, n: string)
    requires forall i :: 0 <= i < |s| ==> s[i] != n
    ensures multiset(s)[n] == 0
  {
    assert n !in s;
  }

  // The log of such a walk: every step takes a node of the table, within its limit.
  ghost predicate Walked(
    table: map<string, Node>, roots: set<string>, paths: set<(string, string)>, log: seq<string>) {
    && (forall j :: 0 <= j < |log| ==> log[j] in table && Taken(table, roots, paths, log[..j], log[j]))
    && forall n :: n in table ==> multiset(log)[n] <= MaxVisits(table[n])
  }

  lemma VisitsWithinShare(
    table: map<string, Node>, roots: set<string>, paths: set<(string, string)>, log: seq<string>, n: string)
    requires Walked(table, roots, paths, log) && n in table
    ensures multiset(log)[n] <= Share(table, roots, paths, n)
  {
    hide Taken, Behind, Fed;
    if n in log {
      var i :| 0 <= i < |log| && log[i] == n;
      LogIsBehind(table, roots, paths, log, i);
    }
    if n !in roots && !Fed(table, roots, paths, n) {
      TakenOnce(table, roots, paths, log, n);
    }
  }

  // ---- a walk with nothing left to do ----

  // Every root and every node fed by the log has been visited up to its limit, and if there is
  // anything to walk, the walk has begun.
  ghost predicate Complete(
    table: map<string, Node>, roots: set<string>, paths: set<(string, string)>, log: seq<string>) {
    && (table != map[] ==> log != [])
    && forall n :: n in table && (n in roots || Reached(paths, n, Elements(log))) ==>
         multiset(log)[n] >= MaxVisits(table[n])
  }

  lemma ExhaustedIsComplete(
    table: map<string, Node>, edges: seq<Edge>, run: StepExecutor, live: Edge -> bool,
    results: map<string, NodeResult>, log: seq<string>)
    requires Fixed(edges, run, live) && FromRun(run, results)
    requires results.Keys == Elements(log) && Exhausted(table, edges, results, log)
    ensures Complete(table, Roots(table, edges), LivePaths(edges, live), log)
  {
    hide Fixed, FromRun, Enabled, MaxVisits, Reached;
    NoElements(log);
    forall n | n in table && (n in Roots(table, edges) || Reached(LivePaths(edges, live), n, Elements(log)))
      ensures multiset(log)[n] >= MaxVisits(table[n]) {
      EnabledWhenReached(table, edges, run, live, n, results);
      assert !Open(table, edges, results, log, n);
    }
  }

  lemma StartIsTaken(
    table: map<string, Node>, roots: set<string>, paths: set<(string, string)>, log: seq<string>, s: string)
    requires Walked(table, roots, paths, log) && Complete(table, roots, paths, log) && Start(table, roots, s)
    ensures s in log
  {
    if s !in roots {
      assert Taken(table, roots, paths, log[..0], log[0]);
      assert Start(table, roots, log[0]);
      if log[0] != s {
        LessAsymmetric(s, log[0]);
        assert false;
      }
    }
  }

  lemma {:induction false} PathIsTaken(
    table: map<string, Node>, roots: set<string>, paths: set<(string, string)>, log: seq<string>, p: seq<string>)
    requires EdgesWithin(table.Keys, paths) && Complete(table, roots, paths, log)
    requires IsPath(paths, p) && p[0] in log
    ensures p[|p| - 1] in log
    decreases |p|
  {
    if |p| > 1 {
      PathIsTaken(table, roots, paths, log, p[..|p| - 1]);
      var a, b := p[|p| - 2], p[|p| - 1];
      assert (a, b) in paths && Reached(paths, b, Elements(log));
      assert multiset(log)[b] >= MaxVisits(table[b]) > 0;
    }
  }

  lemma BehindIsTaken(
    table: map<string, Node>, roots: set<string>, paths: set<(string, string)>, log: seq<string>, n: string)
    requires EdgesWithin(table.Keys, paths) && Walked(table, roots, paths, log) && Complete(table, roots, paths, log)
    requires Behind(table, roots, paths, n)
    ensures n in log
  {
    hide Start, Walked, Complete, EdgesWithin;
    var s :| Start(table, roots, s) && Reaches(paths, s, n);
    StartIsTaken(table, roots, paths, log, s);
    var p :| IsPath(paths, p) && p[0] == s && p[|p| - 1] == n;
    PathIsTaken(table, roots, paths, log, p);
  }

  lemma VisitsAreShare(
    table: map<string, Node>, roots: set<string>, paths: set<(string, string)>, log: seq<string>, n: string)
    requires EdgesWithin(table.Keys, paths) && Walked(table, roots, paths, log) && Complete(table, roots, paths, log)
    requires n in table
    ensures multiset(log)[n] == Share(table, roots, paths, n)
  {
    VisitsWithinShare(table, roots, paths, log, n);
    if Behind(table, roots, paths, n) {
      BehindIsTaken(table, roots, paths, log, n);
      if n !in roots && Fed(table, roots, paths, n) {
        var a :| (a, n) in paths && Behind(table, roots, paths, a);
        BehindIsTaken(table, roots, paths, log, a);
      }
    }
    hide Behind, Fed, Walked;
  }

  // ---- the lengths ----

  lemma {:induction false} TotalCompares(ids: seq<string>, a: map<string, nat>, b: map<string, nat>)
    ensures (forall i :: 0 <= i < |ids| ==> Visits(a, ids[i]) <= Visits(b, ids[i])) ==> Total(ids, a) <= Total(ids, b)
  {
    if ids != [] {
      TotalCompares(ids[1..], a, b);
    }
  }

  ghost function Counted(ids: seq<string>, log: seq<string>): map<string, nat> {
    map n | n in ids :: multiset(log)[n]
  }

  lemma CountedNext(ids: seq<string>, log: seq<string>, n: string)
    requires n in ids
    ensures Counted(ids, log + [n]) == Counted(ids, log)[n := Visits(Counted(ids, log), n) + 1]
  {
  }

  lemma {:induction false} TotalIsLength(ids: seq<string>, log: seq<string>)
    requires Distinct(ids) && forall i :: 0 <= i < |log| ==> log[i] in ids
    ensures Total(ids, Counted(ids, log)) == |log|
  {
    if log == [] {
      TotalOfNone(ids);
      TotalCompares(ids, Counted(ids, log), map[]);
    } else {
      var init, last := log[..|log| - 1], log[|log| - 1];
      assert log == init + [last];
      TotalIsLength(ids, init);
      TotalBump(ids, Counted(ids, init), last);
      CountedNext(ids, init, last);
    }
  }

  lemma LogWithinShares(
    table: map<string, Node>, roots: set<string>, paths: set<(string, string)>, ids: seq<string>,
    log: seq<string>)
    requires Distinct(ids) && Elements(ids) == table.Keys && Walked(table, roots, paths, log)
    ensures |log| <= Total(ids, Shares(table, roots, paths))
    ensures EdgesWithin(table.Keys, paths) && Complete(table, roots, paths, log) ==>
      |log| == Total(ids, Shares(table, roots, paths))
  {
    hide Taken, Share, Complete, EdgesWithin;
    forall i | 0 <= i < |log| ensures log[i] in ids {
      assert log[i] in Elements(ids);
    }
    TotalIsLength(ids, log);
    var counted, shares := Counted(ids, log), Shares(table, roots, paths);
    forall i | 0 <= i < |ids| ensures Visits(counted, ids[i]) <= Visits(shares, ids[i]) {
      assert ids[i] in Elements(ids);
      VisitsWithinShare(table, roots, paths, log, ids[i]);
    }
    TotalCompares(ids, counted, shares);
    if EdgesWithin(table.Keys, paths) && Complete(table, roots, paths, log) {
      forall i | 0 <= i < |ids| ensures Visits(shares, ids[i]) <= Visits(counted, ids[i]) {
        assert ids[i] in Elements(ids);
        VisitsAreShare(table, roots, paths, log, ids[i]);
      }
      TotalCompares(ids, shares, counted);
    }
  }

  // ---- the end of the walk ----

  lemma HistoryIsWalked(
    table: map<string, Node>, edges: seq<Edge>, run: StepExecutor, live: Edge -> bool, log: seq<string>,
    seen: seq<map<string, NodeResult>>, visits: map<string, nat>)
    requires Fixed(edges, run, live) && History(table, edges, run, log, seen, visits) && AllClean(run, log, seen)
    ensures Walked(table, Roots(table, edges), LivePaths(edges, live), log)
  {
    HistoryCounts(table, edges, run, log, seen, visits);
    hide Fixed, History, AllClean, Taken;
    forall j | 0 <= j < |log|
      ensures log[j] in table && Taken(table, Roots(table, edges), LivePaths(edges, live), log[..j], log[j]) {
      LogStep(table, edges, run, live, log, seen, visits, j);
    }
  }

  lemma LiveWithin(table: map<string, Node>, edges: seq<Edge>, live: Edge -> bool)
    requires EdgesWithin(table.Keys, EdgeSet(edges))
    ensures EdgesWithin(table.Keys, LivePaths(edges, live))
  {
    forall p | p in LivePaths(edges, live) ensures p in EdgeSet(edges) {
      var e :| e in edges && p == (e.src, e.dst);
    }
  }

  lemma FixedWalkEnds(
    table: map<string, Node>, edges: seq<Edge>, run: StepExecutor, live: Edge -> bool, ids: seq<string>,
    status: Status, log: seq<string>, seen: seq<map<string, NodeResult>>, visits: map<string, nat>)
    requires Fixed(edges, run, live) && AlwaysClean(run) && EdgesWithin(table.Keys, EdgeSet(edges))
    requires Distinct(ids) && Elements(ids) == table.Keys
    requires BoundedRun(table, edges, run, step => false, status, log, seen, visits)
    ensures Settles(table, Roots(table, edges), LivePaths(edges, live), ids, status, log)
  {
    CleanEnds(table, edges, run, status, log, seen, visits);
    var roots, paths := Roots(table, edges), LivePaths(edges, live);
    LiveWithin(table, edges, live);
    hide Fixed, FromRun, AlwaysClean, EdgesWithin, Distinct, Walked, Complete, Shares, Share, Roots, LivePaths;
    HistoryIsWalked(table, edges, run, live, log, seen, visits);
    LogWithinShares(table, roots, paths, ids, log);
    if status == Ok {
      ResultsKnown(table, edges, run, log, seen, visits, |log|);
      assert log[..|log|] == log;
      ExhaustedIsComplete(table, edges, run, live, ResultsAfter(run, log, seen, |log|), log);
      forall n | n in table ensures multiset(log)[n] == Share(table, roots, paths, n) {
        VisitsAreShare(table, roots, paths, log, n);
      }
    }
  }

  // The walk is ended by the step bound exactly when the shares add up to it, and otherwise visits
  // every node as often as its share says.
  ghost predicate Settles(
    table: map<string, Node>, roots: set<string>, paths: set<(string, string)>, ids: seq<string>, status: Status,
    log: seq<string>)
  {
    && (status == Ok || status == ExceededVisits)
    && (status == ExceededVisits <==> Total(ids, Shares(table, roots, paths)) >= 4 * |table| + 4)
    && (status == Ok ==> forall n :: n in table ==> multiset(log)[n] == Share(table, roots, paths, n))
  }

  lemma CleanEnds(
    table: map<string, Node>, edges: seq<Edge>, run: StepExecutor, status: Status,
    log: seq<string>, seen: seq<map<string, NodeResult>>, visits: map<string, nat>)
    requires AlwaysClean(run) && BoundedRun(table, edges, run, step => false, status, log, seen, visits)
    ensures AllClean(run, log, seen) && (status == Ok || status == ExceededVisits)
  {
    hide StepOk, Counts, Exhausted, LimitsReach, PolicyStops;
    if log != [] {
      assert StepClean(run, |log| - 1, log[|log| - 1], seen[|log| - 1]);
    }
  }

  // With clean nodes, and conditions that come out the same at every visit.
  method WalkByLiveEdges(
    table: map<string, Node>, edges: seq<Edge>, run: StepExecutor, ghost live: Edge -> bool, ghost ids: seq<string>)
    returns (status: Status, log: seq<string>)
    requires Fixed(edges, run, live) && AlwaysClean(run) && EdgesWithin(table.Keys, EdgeSet(edges))
    requires Distinct(ids) && Elements(ids) == table.Keys
    ensures Settles(table, Roots(table, edges), LivePaths(edges, live), ids, status, log)
  {
    var seen, visits;
    status, log, seen, visits := ExecuteBoundedCycle(table, edges, run, step => false);
    FixedWalkEnds(table, edges, run, live, ids, status, log, seen, visits);
  }

  // That is so where every edge is unconditional,
  lemma DefaultIsFixed(edges: seq<Edge>, run: StepExecutor)
    requires forall e :: e in edges ==> FlowLint.ParseCondition(e.when) == FlowLint.Default
    ensures Fixed(edges, run, e => true) && LivePaths(edges, e => true) == EdgeSet(edges)
  {
    hide FlowLint.ParseCondition, Given;
  }

  // and where every node returns one and the same result.
  lemma ConstantIsFixed(edges: seq<Edge>, run: StepExecutor, answer: string -> NodeResult)
    requires forall e :: e in edges ==> !FlowLint.ParseCondition(e.when).Invalid?
    requires forall step, id, results :: run(step, id, results) == Finished(answer(id))
    ensures Fixed(edges, run, (e: Edge) => Satisfies(FlowLint.ParseCondition(e.when), answer(e.src)))
  {
    hide FlowLint.ParseCondition, Satisfies;
    forall id, result | Given(run, id, result) ensures result == answer(id) {
      var step, before :| Gives(run, step, id, before, result);
    }
  }
}
