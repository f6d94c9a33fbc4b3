# Jacu harness: a verified model

Jacu runs agent work under rules: flows of capabilities with verdict-conditioned edges, queues of missions,
asynchronous verification tasks, reviewed and applied worktrees, memories that outlive a session, and stores that
must stay small. This project models the decision logic of those parts and proves what each promises over all inputs
and all runs.

`dafny verify dfyconfig.toml` checks everything.

- **Flows.** `Scope` is the path scope language, `ScopeLists` what its verdict on two lists is worth.
  `FlowModel`, `Waves` and `ScheduleLaws` are the wave scheduler, proved against the reachability definitions of `Digraph`.
  `FlowLint` is the flow lint, `FlowEngine` the walk over waves and the bounded walk over cycles, `StepBound` the exact
  end of the latter where conditions come out the same at every visit. `FlowMeaning` and `LintMeaning` say what all that
  is in the words of a flow.
- **Programs.** `ProgramQueue` is the mission queue executor, `ProgramCompile` the compile-time cycle check; both are
  proved against the same reachability and then composed. `ProgramLaws` holds what follows for a queue at rest.
- **Tasks.** `TaskModel` is a state machine with one step per critical section, executor call and store write;
  `TaskLaws` proves its invariant over every interleaving; each method of `TaskManager.Manager` is one of its steps.
  `TaskLosses` says which tasks it forgets, `TaskEnds` what is recorded of the others and `TaskOrder` in which order they
  are served.
- **Runs.** `RunProtocol.Repo` is review and apply with edits, commits and receipts interleaving between any two git
  calls and crashes between any two steps. `Discard.Workspace` is discard with every crash point.
- **Memory.** `BridgeEscape`, `BridgeRegion`, `BridgeRender`, `Bridge` and `AgentsFile` keep the managed region of
  AGENTS.md; `MemoryStore` and `MemoryKeeper` are the record store with supersession and promotion.
  `BridgeMeaning` and `MemoryMeaning` read them in the characters of the file and the fields of the records.
- **Bounded storage.** `TreeWalk` has the three budgeted tree walks; `TelemetryModel`, `TelemetryGc`,
  `TelemetryStore` and `TelemetryMeaning` the segmented event log.
- **Admission.** `Ledger` fits a context pack into a byte budget.

`Ordering`, `StableSorting`, `Digraph`, `Text`, `TextLaws`, `Occurrences`, `Wrappers`, `MemoryModel` and `RunState` are shared
vocabulary.

Where a property one would expect does not hold of the code, the model keeps the code and proves when it does hold:

- Scope disjointness fails for leaky entries: `.` (so `./` too), and entries such as `foo**` that end in `**` glued
  to a literal that can begin a cleaned path (`ScopeLists.LeakyIsExact`). Against longer lists it fails also for
  entries of the first list that slip, such as `d /`: the conflict loop normalises such an entry once more for every
  entry of the second list, until it has left its own place in the tree (`ScopeLists.MisjudgedExactly`,
  `ScopeLists.SlippingLists`). Two nodes of a wave may then write one path (`ScheduleLaws.WaveSharesAPath`).
- The conflict of two scope lists depends on their order exactly for entries that normalising twice takes further than
  normalising once (`ScopeLists.OrderMattersExactly`, `ScopeLists.SteadyListsSymmetric`).
- An escalated flow's trace omits the nodes that ran behind the first one that asked to stop
  (`FlowEngine.EscalatedTraceOmits`, `FlowEngine.EscalatedTraceLacks`). A node whose lane cannot be
  routed counts as finished with status `blocked` and an empty policy, and stops nothing
  (`FlowEngine.PassedExactly`, `FlowEngine.UnroutableGoesOn`).
- A cycle error names the least node that could not be ordered; it may only be downstream of a cycle
  (`ScheduleLaws.NamedNodeOnCycle`, `ScheduleLaws.CycleErrorNamesAnother`).
- The step bound of the bounded walk can end a flow that is within its visit limits; below 4n+4 it cannot
  (`FlowEngine.BoundedWalkFits`), and a one-node loop shows it tight (`FlowEngine.LoopWalk`). Where every
  condition comes out the same at every visit, it does so exactly when the limits of the nodes that can be reached add up
  to it (`StepBound.WalkByLiveEdges`).
- A task can be forgotten: recorded as queued or running with nobody to take it on. That happens exactly when its
  record cannot be read or written as it leaves the queue or as the failure of its worker is recorded (`TaskLosses.LostExactly`,
  `TaskLosses.ForgottenExactly`, `TaskLosses.QueuedIsForgotten`), and lasts until it is cancelled as queued or the
  process ends (`TaskLosses.ForgottenStep`).
- After a rolled back save `apply` asks for a retry. It succeeds exactly where there is no autonomy policy; under one the
  receipt is spent (`RunProtocol.RetryAfterRollback`, `RunProtocol.RollbackThenRetry`). After a crash between
  commit and save `apply` stays blocked while the head is not the base (`RunProtocol.ApplyAfterCrash`, `RunProtocol.CrashThenBlocked`).
- Discard is safe at every crash point if the removal of the worktree is atomic, and only then
  (`Discard.TornRemovalIsNotRecovered`).
- A promotion that failed can be repeated exactly when it failed before its first write (`MemoryKeeper.CutPromotionExact`),
  though the save it failed in always can be (`MemoryStore.RepeatCompletes`). A superseded memory becomes active again
  exactly by saving it again (`MemoryKeeper.SaveRevivesExactly`).
- Removal admits entries one level deeper than the safety walk (`TreeWalk.SafeExactly`,
  `TreeWalk.RemovableButNotSafe`).
- The escaped bridge text never opens a comment. It closes one exactly for a text with `<!-->` or `<!--->` in it
  (`BridgeEscape.CloserExact`).

## Model

| member | source | states |
|---|---|---|
| ScopeLists.NoConflictMeansDisjoint | internal/scope/scope.go:17-70 | if two scope lists do not conflict, no entry of either is leaky and none of the first slips, no path matches both |
| ScopeLists.LeakyIsExact | internal/scope/scope.go:17-33 | against a single entry the leaky ones are exactly those for which the disjointness fails: for each there is an entry that is not leaky, does not conflict with it and still shares a path; for any other entry there is none |
| ScopeLists.MisjudgedExactly | internal/scope/scope.go:49-57 | against a longer list that does not leak an entry of the first list is misjudged exactly when it is leaky or slips: it is a cleaned path, and normalised over and over it ends as something that is neither its normal form nor a directory above it |
| ScopeLists.MisjudgedBehindExactly | internal/scope/scope.go:49-57 | an entry of the second list is misjudged by one that neither leaks nor slips exactly when it is leaky |
| ScopeLists.SlippingLists | internal/scope/scope.go:51-53 | such lists: `d /` before `z` and `d /` shares the path `d /x` and does not conflict; in the other order it does |
| ScopeLists.MatchedIsClean | internal/scope/scope.go:18-27 | only an empty entry or one that is a cleaned path matches anything |
| ScopeLists.SteadyListsSymmetric | internal/scope/scope.go:49-57 | conflict of two lists does not depend on their order where normalising their entries twice is normalising them once |
| ScopeLists.OrderMattersExactly | internal/scope/scope.go:49-57 | an entry is judged the same before and behind every such list exactly when it is such an entry itself, or normalises to nothing |
| Scope.CleanIsIdempotent | internal/scope/scope.go:18-18 | a cleaned path is its own cleaned form |
| Scope.CleanForm | internal/scope/scope.go:18-18 | every cleaned path is made of plain parts, with parent steps only in front of a relative one |
| Scope.PrefixOfCleanExtends | internal/scope/scope.go:18-27 | a prefix of a cleaned path that does not end in a slash, with something plain put behind it, is a cleaned path again: what a glued glob can go wrong by |
| Scope.SharedPathConflicts | internal/scope/scope.go:35-70 | two entries that share a path conflict, whichever of the forms they match by, if neither leaks nor normalises to nothing |
| FlowModel.TableIds | internal/capability/orchestration/graph.go:287-292 | the node table holds exactly the ids of the flow, each under its own id |
| FlowModel.TableKeepsFirst | internal/capability/orchestration/graph.go:288-291 | and for each id the first node that has it |
| FlowModel.KahnIsMaximal | internal/capability/orchestration/graph.go:323-349 | what repeatedly taking the least ready node yields is an order in which nodes follow all their predecessors, and nothing can be added to it |
| FlowModel.KahnIsLexicographicallyLeast | internal/capability/orchestration/graph.go:323-339 | of all topological orders of the deduplicated graph it is the lexicographically least |
| FlowModel.ResidualIsBehindCycles | internal/capability/orchestration/graph.go:234-262 | the nodes never taken are exactly those on a cycle or reachable from one |
| Waves.BuildTable | internal/capability/orchestration/graph.go:287-292 | the loop over the nodes builds the node table |
| Waves.BuildGraph | internal/capability/orchestration/graph.go:293-314 | the first dangling edge is reported, else successors, predecessors and in-degrees describe the deduplicated edges exactly |
| Waves.AddEdge | internal/capability/orchestration/graph.go:308-313 | one edge, new or repeated, is added to the adjacency maps |
| Waves.InitialReady | internal/capability/orchestration/graph.go:316-321 | the ready list starts with exactly the nodes without predecessors |
| Waves.TakeLeast | internal/capability/orchestration/graph.go:324-326 | the least id of the ready list is taken and the rest kept |
| Ordering.LessExactly | internal/capability/orchestration/graph.go:324-325 | ids are compared at the first character in which they differ, and what ends there is less |
| Waves.Release | internal/capability/orchestration/graph.go:328-338 | releasing the successors of a node lowers their counts by one and adds exactly those that became ready |
| Waves.RunKahn | internal/capability/orchestration/graph.go:316-339 | the loop computes the Kahn order |
| Waves.LeastResidual | internal/capability/orchestration/graph.go:340-349 | the node a cycle error names is the least one the order lacks |
| Waves.MinWave | internal/capability/orchestration/graph.go:354-359 | the first wave a node may go to lies right behind the latest of its predecessors |
| Waves.WaveConflicts | internal/capability/orchestration/graph.go:365-371 | the inner search reports whether a member of the wave conflicts with the node |
| Waves.FindWave | internal/capability/orchestration/graph.go:360-393 | the wave search ends, stays in range, and finds the first wave from the minimum on without a conflict |
| Waves.PlaceWaves | internal/capability/orchestration/graph.go:351-394 | every node of the order is placed in the first wave behind its predecessors that was conflict-free when it was placed |
| Waves.SortWaves | internal/capability/orchestration/graph.go:380-382 | the waves list exactly the nodes placed in them, sorted |
| Waves.ScheduleWaves | internal/capability/orchestration/graph.go:286-384 | a dangling error exactly for the first dangling edge, a cycle error exactly when the graph has a cycle, self-loops included, and naming the least residual node; otherwise a schedule |
| ScheduleLaws.WavesPartition | internal/capability/orchestration/graph.go:351-383 | the waves of a schedule are not empty, sorted, and hold every node exactly once |
| ScheduleLaws.EdgesGoForward | internal/capability/orchestration/graph.go:353-359 | every edge leads to a strictly later wave |
| ScheduleLaws.WaveIsConflictFree | internal/capability/orchestration/graph.go:365-378 | of two nodes of a wave the one placed later has no conflict with the earlier one |
| ScheduleLaws.WaveWritesAreDisjoint | internal/capability/orchestration/graph.go:365-378 | where no entry of theirs leaks or slips, no path is in the write scope of two nodes of one wave |
| ScheduleLaws.WaveSharesAPath | internal/capability/orchestration/graph.go:366-378 | a flow of two nodes without leaky entries that share a wave and may both write `d /x` |
| ScheduleLaws.TwoNodes | internal/capability/orchestration/graph.go:351-379 | of two nodes without edges the second joins the wave of the first when it has no conflict with it |
| ScheduleLaws.NamedNodeOnCycle | internal/capability/orchestration/graph.go:340-349 | the node a cycle error names is on a cycle exactly when some node on a cycle has a smaller id than all nodes merely behind one |
| ScheduleLaws.CycleErrorNamesAnother | internal/capability/orchestration/graph.go:340-349 | a flow whose cycle error names a node that only lies behind the cycle |
| ScheduleLaws.ScheduleUnique | internal/capability/orchestration/graph.go:286-384 | the node table and the set of edges determine the schedule |
| ScheduleLaws.ScheduleBoth | internal/capability/orchestration/graph.go:301-339 | flows with the same table and edge set, in whatever order and however often an edge is repeated, get the same waves or the same cycle error |
| FlowLint.LintNodes | internal/capability/orchestration/graph.go:75-100 | the node pass keeps the first node of each trimmed id and reports exactly the node findings |
| FlowLint.LintEdgePass | internal/capability/orchestration/graph.go:102-141 | the edge pass reports exactly the edge findings and leaves adjacency, in-degrees, degrees and outgoing conditions that describe the known edges |
| FlowLint.LintCoverage | internal/capability/orchestration/graph.go:143-171 | the findings for disconnected nodes and uncovered verdicts are exact |
| FlowLint.LintCycles | internal/capability/orchestration/graph.go:173-184 | the cycle finding appears exactly when nodes are left over and none of them has a visit limit |
| FlowLint.ResidualCycleNodes | internal/capability/orchestration/graph.go:234-262 | it returns, sorted, exactly the nodes on or behind a cycle |
| FlowLint.Validate | internal/capability/orchestration/graph.go:69-193 | the lint reports a finding exactly when the declarative rules say so |
| FlowLint.UnblockedIds | internal/capability/orchestration/graph.go:69-184 | a trimmed flow without findings has no dangling edge, and lint and scheduler see the same nodes and edges |
| FlowLint.LintThenSchedule | internal/capability/orchestration/graph.go:173-184 | a trimmed flow the lint lets through never dangles; the residual nodes, sorted, are none exactly when the schedule is no cycle error, and their least is the one it names |
| LintMeaning.PassesExactly | internal/capability/orchestration/graph.go:69-184 | a flow passes exactly when it has nodes with distinct trimmed ids, known capabilities, no CLI keys, known lanes and no negative limits; when every edge joins two of them, reads as a condition, asks verify nodes alone for verdicts, and leads to an apply node neither by not_run nor from a verify node by default; when every node is connected, every verify node with edges goes on by default or for each verdict, and some node on or behind a cycle is bounded if there is one |
| FlowMeaning.ReadableExactly | internal/capability/orchestration/graph.go:201-232 | a condition reads exactly when it is default, or the word verdict or policy, a double equals sign and one of the known verdicts or policies |
| TextLaws.SpaceExactly | internal/capability/orchestration/graph.go:202-202 | the code points that count as white space |
| TextLaws.TrimExact | internal/capability/orchestration/graph.go:202-202 | trimming takes the white space at both ends, all of it and nothing else |
| TextLaws.FieldsAt | internal/capability/orchestration/graph.go:206-206 | the words of a text are those before and those behind any white space in it |
| FlowEngine.EnabledMeans | internal/capability/orchestration/engine.go:171-189 | for the parsed conditions: a node with incoming edges is let through only by an edge from a node with a result that satisfies its condition, and where all conditions parse by any such edge |
| FlowEngine.CollectWave | internal/capability/orchestration/engine.go:151-164 | outcomes are recorded in id order up to the first failure or stopping policy, and exactly those |
| FlowEngine.RunWaves | internal/capability/orchestration/engine.go:102-168 | the waves run one after the other, each from the results of the ones before; status, launches and trace agree, and failed and escalated name the first node that failed or asked to stop |
| FlowEngine.LaunchIsJustified | internal/capability/orchestration/engine.go:108-116 | every node that runs is a root or has a matching edge from a node that ran in a strictly earlier wave |
| FlowEngine.LaunchHasMatchedChain | internal/capability/orchestration/engine.go:102-167 | every node that runs ends a chain of matching edges from a root, in strictly later waves |
| FlowEngine.StopEndsTheWalk | internal/capability/orchestration/engine.go:152-164 | after a failure or a stopping policy no later wave starts |
| FlowEngine.NonPassVerifyIsLast | internal/capability/orchestration/tool.go:215-223 | with the policy the verify capability reports, nothing in a later wave runs after a verify that did not pass |
| FlowEngine.PassedExactly | internal/capability/orchestration/engine.go:135-140 | a wave passes exactly when each of its nodes was unroutable or finished without a stopping policy |
| FlowEngine.UnroutableCountsAsFinished | internal/capability/orchestration/engine.go:135-140 | an unroutable node has the bare status blocked for everybody behind it |
| FlowEngine.UnroutableGoesOn | internal/capability/orchestration/engine.go:135-140 | a flow in which a node behind an unroutable one runs |
| FlowEngine.SkippedIffNoEdgeMatched | internal/capability/orchestration/engine.go:108-116 | in a started wave a node runs exactly when it is a root or an incoming edge matches |
| FlowEngine.EscalatedTraceOmits | internal/capability/orchestration/engine.go:152-163 | the trace of an escalated flow leaves out exactly the nodes of the last wave that ran with a greater id than the first one that asked to stop |
| FlowEngine.EscalatedTraceLacks | internal/capability/orchestration/engine.go:152-163 | a flow of two roots: the first asks to stop, the second has run and is not in the trace |
| FlowEngine.Select | internal/capability/orchestration/engine.go:294-317 | the bounded walk selects the least node that may be visited, or seeds a closed cycle |
| FlowEngine.SelectsNext | internal/capability/orchestration/engine.go:294-317 | the search finds the least open node, before the first step else the least of all, and nothing exactly when the walk is exhausted |
| FlowEngine.ExecuteBoundedCycle | internal/capability/orchestration/engine.go:274-335 | every step takes the node the walk goes on with, reads the results of the steps before it and is justified by an edge; no node exceeds its visit limit; the status is exhausted, cancelled, out of steps, failed or escalated exactly as the last step and the context say; the visits error needs limits that add up to the step bound |
| FlowEngine.BoundedWalkFits | internal/capability/orchestration/engine.go:290-342 | while the visit limits add up to less than the step bound the visits error cannot occur |
| FlowEngine.LoopWalk | internal/capability/orchestration/engine.go:290-334 | a node that leads to itself is ended by the step bound, within its visit limit, exactly when that limit is at least the bound |
| StepBound.WalkByLiveEdges | internal/capability/orchestration/engine.go:290-334 | with nodes that finish cleanly and conditions that come out the same at every visit the step bound ends the walk exactly when the shares of the nodes add up to it; a node has a share when live edges lead to it from a root, or from the least node where there is no root, namely its visit limit, or one visit for a least node nothing leads back to; otherwise every node is visited as often as its share says |
| StepBound.DefaultIsFixed | internal/capability/orchestration/engine.go:294-310 | that is so for all edges that are unconditional |
| StepBound.ConstantIsFixed | internal/capability/orchestration/engine.go:294-310 | and for readable conditions on nodes that return one and the same result |
| StepBound.LogIsBehind | internal/capability/orchestration/engine.go:294-317 | such a walk executes only nodes that can be reached from where it starts |
| StepBound.VisitsAreShare | internal/capability/orchestration/engine.go:294-323 | with nothing left to visit, every node has been visited as often as its share says |
| FlowEngine.Execute | internal/capability/orchestration/engine.go:68-169 | a flow is blocked exactly when it has a finding, dangles or has a wave that is too wide, and then nothing runs; any other acyclic flow walks its schedule, any other cyclic one is walked step by step; failed, escalated, cancelled, exceeded and ok are told apart by what ended the walk |
| FlowEngine.ConcurrentNodesAreSeparate | internal/capability/orchestration/engine.go:56-66 | nodes running at the same time are at most four and, where no entry of theirs leaks or slips, share no writable path; no node runs in two waves |
| FlowMeaning.RoutedByText | internal/capability/orchestration/engine.go:171-189 | in the words of the conditions: a node of a started wave runs exactly when nothing leads to it, or the text of an edge into it is default or names the verdict or the policy that was recorded of its source |
| FlowMeaning.SingleEdgeRoutes | internal/capability/orchestration/engine.go:184-186 | behind a single edge a node runs exactly when its source has a result, and that has the policy, or the verdict, that the condition names; by default always |
| FlowMeaning.RecordedAsReturned | internal/capability/orchestration/engine.go:135-140 | what a later wave reads of a node is the result it returned, and of an unroutable one the bare status blocked |
| FlowMeaning.EndsByResult | internal/capability/orchestration/engine.go:102-168 | every wave but the last went on; the flow failed where the first node that did not go on failed, and escalated where that returned the policy blocked, escalate or require_approval |
| FlowMeaning.CycleEndsByResult | internal/capability/orchestration/engine.go:290-334 | the same of the walk over a cycle; each step knows the last result of every node in the log and takes the least node that has visits left and is asked for |
| FlowMeaning.VerifyGoesOn | internal/capability/orchestration/tool.go:215-223 | a flow goes on behind a verify node exactly when that finished ok with the verdict pass |
| FlowMeaning.RefusedByText | internal/capability/orchestration/engine.go:56-100 | a flow is refused exactly when the lint blocks it, an edge misses a node, or an acyclic one has a wave of more than four nodes |
| ProgramQueue.ValidateProgramQueue | internal/capability/workspace/autonomy_executor.go:162-181 | a queue is accepted exactly when it is not empty, its indexes are distinct and not negative, and every dependency is another index of it |
| ProgramQueue.RunPass | internal/capability/workspace/autonomy_executor.go:59-118 | one pass settles every mission whose dependencies were settled before it, unsettles none, and makes progress unless none is ready |
| ProgramQueue.ExecuteProgramWithDelivery | internal/capability/workspace/autonomy_executor.go:47-133 | the executor ends; it reports no progress exactly when the dependencies have a cycle; every executed mission ends as its execution says and every other settled one is escalated, because a dependency went wrong or because the context was done when its turn came, and of those whose dependencies went well it runs exactly the ones before whose turn the context was not done; it delivers once, exactly when asked and everything was applied and passed |
| ProgramLaws.EverythingSettles | internal/capability/workspace/autonomy_executor.go:58-122 | without a cycle every mission is settled |
| ProgramLaws.RunsOnce | internal/capability/workspace/autonomy_executor.go:62-64 | every mission runs at most once |
| ProgramLaws.RunsOnceAfterDependencies | internal/capability/workspace/autonomy_executor.go:76-112 | a mission with dependencies runs once at most, after each of them ran and ended neither escalated nor blocked |
| ProgramLaws.DescendantsAreEscalated | internal/capability/workspace/autonomy_executor.go:83-95 | nothing behind an escalated or blocked mission runs, and what is settled of it is escalated |
| ProgramLaws.CyclesNeverRun | internal/capability/workspace/autonomy_executor.go:119-121 | no mission on or behind a cycle is handed to the executor |
| ProgramLaws.DeliveryMeansAllApplied | internal/capability/workspace/autonomy_executor.go:135-148 | when the delivery condition holds every mission ran, was applied and has the verdict pass |
| ProgramLaws.StateAsReturned | internal/capability/workspace/autonomy_executor.go:95-118 | an executed mission is escalated where its execution returned an error or no status, else has the status returned, and keeps the verdict |
| ProgramLaws.NothingRunsBehindAnError | internal/capability/workspace/autonomy_executor.go:83-98 | no mission behind one that returned an error runs, and what is settled of them is escalated |
| ProgramLaws.TurnsExactly | internal/capability/workspace/autonomy_executor.go:69-95 | a settled mission has its turn exactly when no dependency ended escalated or blocked, and runs exactly when the context was not done by then |
| ProgramLaws.StatesByIndex | internal/capability/workspace/autonomy_executor.go:123-148 | the states come by ascending index, and delivery asks exactly that all are applied with verdict pass |
| ProgramCompile.Visit | internal/capability/missioncompile/program.go:96-111 | the recursive three-colour visit keeps the colouring invariant and returns true only on a real cycle |
| ProgramCompile.HasProgramCycle | internal/capability/missioncompile/program.go:93-118 | true exactly when the in-range dependencies contain a cycle |
| ProgramCompile.CompileDependencies | internal/capability/missioncompile/program.go:80-90 | the dependency findings are exactly the unusable dependencies and the cycle |
| ProgramCompile.QueueIsValid | internal/capability/workspace/autonomy_executor.go:162-181 | the queue of a program is valid exactly when every dependency is usable, and then has the same edges |
| ProgramCompile.CompileThenRun | internal/capability/workspace/autonomy_executor.go:119-121 | a program compiles without a dependency finding exactly when its queue runs to the end |
| TaskLaws.StepKeeps | internal/capability/verify/task.go:182-498 | every step keeps the invariant, moves persisted statuses only along the transitions, and forgets no record |
| TaskLaws.TransitionPairs | internal/capability/verify/task.go:169-180 | the transitions of a task: from queued to running, failed or cancelled, from running to done, failed, cancelled or timeout |
| TaskLaws.RunKeeps | internal/capability/verify/task.go:182-498 | the invariant holds after any interleaving of steps |
| TaskLaws.ReachableStatesAreSafe | internal/capability/verify/task.go:366-386 | at most the allowed number is active, nothing queued waits beside a free slot, no task is executed twice or after a cancel in the queue, and every unfinished task is in somebody's hands or was lost to a failed write |
| TaskLaws.TerminalStays | internal/capability/verify/task.go:439-466 | a recorded status that is over never changes again, across restarts too |
| TaskLaws.CancelBeforeEndIsNeverDone | internal/capability/verify/task.go:306-310 | a running task cancelled before its executor returned is never recorded as done |
| TaskLaws.FinishCommutesWithEnqueue | internal/capability/verify/task.go:439-466 | finish, which runs outside the mutex, commutes with an enqueue, whether its write succeeds or not |
| TaskLaws.FinishCommutesWithLeave | internal/capability/verify/task.go:439-466 | finish commutes with a worker that leaves and pumps |
| TaskLaws.FinishCommutesWithCancel | internal/capability/verify/task.go:439-466 | finish commutes with a cancel of another task, queued, running or over |
| TaskLaws.FinishThenCancelSelf | internal/capability/verify/task.go:306-310 | with a cancel of the finishing task itself only the signal differs that the worker takes with it |
| TaskLosses.LostExactly | internal/capability/verify/task.go:366-379 | along every run a task is lost exactly by a step in which its record could not be read or written: on leaving the queue, or when the failure of its worker was to be recorded |
| TaskLosses.ForgottenExactly | internal/capability/verify/task.go:366-426 | in every reachable state the unfinished tasks that nobody will take on are exactly the lost ones |
| TaskLosses.NeverForgotten | internal/capability/verify/task.go:366-426 | a task whose record can be read and written at every step is never forgotten |
| TaskLosses.ForgottenStep | internal/capability/verify/task.go:283-314 | a step frees a forgotten task exactly when it is the end of the process or a written cancel of a task recorded as queued |
| TaskLosses.ForgottenStays | internal/capability/verify/task.go:366-379 | until then the task stays as it is recorded |
| TaskLosses.ForgottenNeverRuns | internal/capability/verify/task.go:366-379 | a task forgotten while queued is never executed, not even after a restart |
| TaskLosses.QueuedIsForgotten | internal/capability/verify/task.go:377-379 | a run that forgets a queued task |
| TaskLosses.RunningIsForgotten | internal/capability/verify/task.go:418-425 | a run that forgets a running task |
| TaskEnds.ReturnIsRecorded | internal/capability/verify/task.go:388-437 | a task whose executor returned and whose end could be written is recorded failed with an error, else timeout past the deadline, else cancelled when a cancel had reached it, else done |
| TaskEnds.DoneWasReturned | internal/capability/verify/task.go:428-437 | a task recorded as done had its executor return without an error, before the deadline and before any cancel reached it |
| TaskEnds.FailureIsRecorded | internal/capability/verify/task.go:404-420 | a worker that cannot run its task or cannot write its end records a failure if it can |
| TaskEnds.RecordedIsCaused | internal/capability/verify/task.go:283-466 | no task is recorded as over with a status unless some step made that end of it |
| TaskEnds.SignalExactly | internal/capability/verify/task.go:306-310 | the context of a worker is cancelled exactly when a cancel reached its task while it ran |
| TaskOrder.ServedInOrder | internal/capability/verify/task.go:366-386 | of two queued tasks the one enqueued later is not taken first |
| TaskManager.Manager.PumpLocked | internal/capability/verify/task.go:366-386 | the loop starts queued tasks until the slots are full or the queue is empty, as the pump of the state machine; equals the step of the state machine |
| TaskManager.Manager.TakeNext | internal/capability/verify/task.go:368-384 | one turn of the pump loop; equals the step of the state machine |
| TaskManager.Manager.StartSave | internal/capability/verify/task.go:205-216 | the first critical section of Start: the durable record; equals the step of the state machine |
| TaskManager.Manager.StartEnqueue | internal/capability/verify/task.go:217-220 | the second: enqueue and pump; equals the step of the state machine |
| TaskManager.Manager.RemoveQueued | internal/capability/verify/task.go:491-498 | removes the first occurrence from the queue; equals the step of the state machine |
| TaskManager.Manager.Cancel | internal/capability/verify/task.go:283-314 | a queued task is cancelled and removed, a running one signalled, a finished one left alone; equals the step of the state machine |
| TaskManager.Manager.WorkerRuns | internal/capability/verify/task.go:388-398 | the worker calls the executor; WorkerCannotRun, WorkerEnds and Crash are the other steps that need no more than their own transition (what their ends come to is in TaskEnds); equals the step of the state machine |
| TaskManager.Manager.WorkerFinishes | internal/capability/verify/task.go:439-466 | finish, with the second attempt that records a failure; equals the step of the state machine |
| TaskManager.Manager.WorkerLeaves | internal/capability/verify/task.go:421-425 | the worker frees its slot and pumps; equals the step of the state machine |
| TaskManager.Manager.RecoverOrphans | internal/capability/verify/task.go:343-364 | on start every unfinished record reached is failed; equals the step of the state machine |
| RunState.PatchRoundTrip | internal/capability/workspace/apply.go:152-160 | patching the base with the diff of a tree gives that tree |
| RunState.SamePatchSameTree | internal/capability/workspace/apply.go:152-160 | trees with the same diff from the base are the same |
| RunState.EmptyPatchIsBase | internal/capability/workspace/discard.go:232-243 | the diff is empty exactly for the base itself |
| RunState.TransitionPairs | internal/runstate/state.go:91-107 | besides staying and becoming corrupted a run goes from open to reviewed or discarded, from reviewed to applied or discarded, from corrupted to discarded |
| RunProtocol.Repo.Review | internal/capability/workspace/diff.go:57-128 | review succeeds exactly for an open or reviewed run that can be identified and saved, and pins the digest of what it read; edits may come in between, and undisturbed it changes nothing else |
| RunProtocol.Repo.CheckSnapshot | internal/capability/workspace/apply.go:66-109 | passes exactly when the digest is the reviewed one and integrity, scope, protected paths, risk and policy admit it; the checked patch has the reviewed digest |
| RunProtocol.Repo.VerifyAndPin | internal/capability/workspace/apply.go:111-166 | after verification the pinned tree still has the reviewed digest, whatever was edited meanwhile |
| RunProtocol.Repo.ConsumeReceipt | internal/capability/workspace/receipt.go:146-221 | a receipt that is valid for run and digest is spent by the attempt, whatever it says, and never accepted again; one whose use cannot be recorded is refused and stays unspent |
| RunProtocol.Repo.CommitTree | internal/capability/workspace/apply.go:204-208 | the commit sits on the base and becomes the head only by compare-and-swap |
| RunProtocol.Repo.SaveOrRollBack | internal/capability/workspace/apply.go:216-227 | a failed save is rolled back to the base or reported as stranded, and leaves the record reviewed |
| RunProtocol.Repo.Apply | internal/capability/workspace/apply.go:48-227 | keeps the invariant that an applied run names a commit on its base with the reviewed digest; says when it applies, rolls back or blocks; undisturbed it succeeds exactly when every gate is open; under a policy nothing is committed without a receipt in place whose verdict is approve, for this run and the reviewed digest, signed and of age, and without the policy allowing it |
| RunProtocol.GatesMean | internal/capability/workspace/apply.go:48-193 | every gate is open exactly when the request and the record are in order, the diff has the reviewed digest, each of its files is allowed, not forbidden and not protected, the head is the base, and under a policy the receipt approves |
| RunProtocol.AcceptedMeans | internal/capability/workspace/receipt.go:146-221 | a receipt is spent exactly when it is signed, for this run and digest, of a known verdict, at most a day old and at most five minutes ahead |
| RunProtocol.AppliedIsReviewed | internal/capability/workspace/apply.go:66-99 | with collision-free digests the committed tree is the reviewed one and every changed file passed the scope and protected-path checks |
| RunProtocol.RetryAfterRollback | internal/capability/workspace/apply.go:223-226 | undisturbed a save is rolled back exactly when every gate was open and the record could not be written; under a policy the retry it asks for can never succeed; undisturbed and with the record writable again it succeeds exactly where there is no policy |
| RunProtocol.ApplyAfterCrash | internal/capability/workspace/apply.go:148-151 | a crash between commit and save leaves the head at the new commit and the record reviewed, and the same request is then blocked |
| RunProtocol.ReviewedRun | internal/capability/workspace/apply.go:48-148 | a new run, edited, reviewed and approved, has every gate open |
| RunProtocol.RollbackThenRetry | internal/capability/workspace/apply.go:216-227 | from a new run on: the first apply is rolled back, and the retry applies exactly where there is no policy |
| RunProtocol.CrashThenBlocked | internal/capability/workspace/apply.go:148-151 | from a new run on: a crash between commit and save, and the next apply is blocked |
| RunProtocol.Repo.constructor | internal/runstate/state.go:91-107 | a new run is open, on its base, and valid |
| RunProtocol.Repo.Corrupt | internal/runstate/state.go:95-98 | any status may become corrupted |
| RunProtocol.Operate | internal/runstate/state.go:91-134 | any sequence of reviews, applies and corruptions keeps the invariant |
| RunProtocol.OperateNew | internal/runstate/state.go:91-134 | so it holds of everything reachable from a new run |
| Discard.Workspace.DiscardRun | internal/capability/workspace/discard.go:195-302 | refuses exactly an applied run, a present worktree git does not know, a foreign branch, and an absent worktree whose recorded archive is missing, empty or of another digest, and then touches nothing; otherwise leaves, for every number of survived steps, the state its trace says; only a complete attempt moves the status, to discarded |
| Discard.Workspace.ClearWorktree | internal/capability/workspace/discard.go:227-277 | archive, record, unlock and removal, or the check of an earlier archive, in order |
| Discard.Workspace.FinishDiscard | internal/capability/workspace/discard.go:278-300 | branch deletion, prune and the final record, in order |
| Discard.EveryCrashPointIsRecoverable | internal/capability/workspace/discard.go:227-300 | at every crash point a non-empty diff is in the worktree or in an archive the record vouches for, and the run can be discarded again |
| Discard.CompleteAttemptDiscards | internal/capability/workspace/discard.go:195-302 | one complete attempt from there ends discarded, without branch and worktree and with the archive intact |
| Discard.CrashesLoseNothing | internal/capability/workspace/discard.go:195-302 | so does one complete attempt after any number of interrupted ones |
| Discard.TornRemovalIsNotRecovered | internal/capability/workspace/discard.go:255-257 | were a removal torn half way, the next attempt would archive what is left over the full patch |
| BridgeEscape.BridgeTextIsInert | internal/capability/memory/bridge.go:203-206 | whatever the user wrote, the printed text is one line in which no comment opens |
| BridgeEscape.CloserExact | internal/capability/memory/bridge.go:203-206 | the printed text closes a comment exactly when the text held an opener run into the end of a comment: `<!-->` or `<!--->` |
| BridgeEscape.CloserSurvives | internal/capability/memory/bridge.go:203-206 | one such text, `<!-->` |
| BridgeEscape.CloserStays | internal/capability/memory/bridge.go:204-204 | the same of the replacement alone |
| BridgeEscape.WordsKeep | internal/capability/memory/bridge.go:205-205 | splitting into words and joining them neither makes nor removes an occurrence of a pattern without white space |
| BridgeRegion.InspectExact | internal/capability/memory/bridge.go:226-250 | the region is found exactly when both markers occur once, in order and each on its own line, and then the start marker is complete before the end marker |
| BridgeRegion.NoRegionExact | internal/capability/memory/bridge.go:228-232 | no region is reported exactly for a text without either marker |
| BridgeRegion.VerifyExact | internal/capability/memory/bridge.go:252-279 | the checksum verifies exactly when the inside is some text, the checksum line of that text, and white space |
| BridgeRegion.EditedBodyIsRefused | internal/capability/memory/bridge.go:274-277 | with collision-free digests an edited body under the old checksum line is a mismatch |
| BridgeRender.EntryIsInert | internal/capability/memory/bridge.go:81-83 | a printed record is one line that opens no comment |
| BridgeRender.BodyIsGood | internal/capability/memory/bridge.go:76-84 | the printed body holds none of the markers and ends a line |
| Bridge.PrintedIsFramed | internal/capability/memory/bridge.go:226-250 | a printed region is found where it was put, in any text around it that holds no marker |
| Bridge.PrintedIsSealed | internal/capability/memory/bridge.go:84-87 | a printed region carries its own checksum |
| Bridge.FrameExact | internal/capability/memory/bridge.go:113-137 | a sync keeps the whole file before a new region, everything but the sealed region and its line break before an update, and refuses every other file |
| Bridge.FrameIsKept | internal/capability/memory/bridge.go:119-136 | a later sync finds the text around a printed region exactly as it was left |
| Bridge.LastSyncWins | internal/capability/memory/bridge.go:92-150 | after a successful sync the file has a found and verified region, and one more sync gives what it would have given without the first |
| AgentsFile.ActiveConventions | internal/capability/memory/bridge.go:165-189 | fails with the first offending record, else returns the conventions, normalised, once each, by ascending id |
| AgentsFile.PrintOrderUnique | internal/capability/memory/bridge.go:187-187 | that list is the only one and does not depend on the order of the records |
| AgentsFile.RegionIsGood | internal/capability/memory/bridge.go:65-88 | any accepted records print a region that any surrounding text can hold |
| AgentsFile.SecondSyncIsQuiet | internal/capability/memory/bridge.go:138-141 | a second sync with the same records, in any order, reports unchanged and writes nothing |
| AgentsFile.OnlyTheLastSyncShows | internal/capability/memory/bridge.go:92-150 | syncing other records later gives the file that syncing only them would have given |
| AgentsFile.File.Sync | internal/capability/memory/bridge.go:92-150 | any error leaves the file as it was; otherwise file, status, hash and count are those of the frame and the printed region |
| BridgeMeaning.RegionText | internal/capability/memory/bridge.go:70-87 | the region, character by character: the markers, the source line, the heading, a line with id, title and body for each convention, and the checksum of all that |
| BridgeMeaning.AcceptedExactly | internal/capability/memory/bridge.go:165-186 | records are accepted exactly when every active convention has an id, a project, a known source and a title, holds no secret and shares its id with no other |
| BridgeMeaning.FaultSays | internal/capability/memory/bridge.go:165-183 | the fault that is reported holds of the record |
| BridgeMeaning.PrintedSays | internal/capability/memory/bridge.go:184-189 | by ascending id, of each active convention what it says, trimmed, with each piece of evidence once and sorted |
| BridgeMeaning.EscapedAt | internal/capability/memory/bridge.go:204-204 | text is copied up to the first comment opener or closer, which loses its bracket, and escaped in the same way behind it |
| BridgeMeaning.PlainIsCopied | internal/capability/memory/bridge.go:204-204 | text without an opener or a closer is copied |
| BridgeMeaning.PrintedWords | internal/capability/memory/bridge.go:205-205 | the printed text has the words of the escaped one, one space between two of them |
| BridgeMeaning.FramedMeans | internal/capability/memory/bridge.go:226-250 | the region lies where each marker occurs once, at the start of its line and to the end of it, the start before the end |
| BridgeMeaning.LineBreaksMean | internal/capability/memory/bridge.go:129-135 | an update takes one line break behind the end marker with it, of either kind |
| BridgeMeaning.InnerMeans | internal/capability/memory/bridge.go:252-255 | the line break behind the start marker, of either kind, is not part of the checked text |
| BridgeMeaning.PaddingMeans | internal/capability/memory/bridge.go:281-300 | a new region starts behind a blank line, and no more is added than that takes |
| MemoryStore.SaveKeeps | internal/capability/memory/store.go:78-212 | a save of an active record, complete or cut short before or between its writes, keeps ids in one scope, references inside the project and to stored records, and the references acyclic |
| MemoryStore.HistoryIsValid | internal/capability/memory/store.go:134-175 | so does any sequence of such saves from an empty store |
| MemoryStore.ChainEndsActive | internal/capability/memory/store.go:170-172 | from every stored record the references lead to an active record of its project |
| MemoryStore.RepeatCompletes | internal/capability/memory/store.go:152-212 | a save that failed in writing, before, between or behind its writes, can be repeated and leaves what an undisturbed one would have left |
| MemoryKeeper.Store.FindRecordLocation | internal/capability/memory/store.go:252-279 | finds the scope of an id, none, or that there are several |
| MemoryKeeper.Store.MemoryIdUsedByOtherScope | internal/capability/memory/store.go:534-563 | true exactly when another scope holds the id |
| MemoryKeeper.Store.Get | internal/capability/memory/store.go:281-316 | returns the record exactly when one scope holds it |
| MemoryKeeper.Store.Save | internal/capability/memory/store.go:78-212 | reports the first fault in the order of the checks, or writes the successor and then marks the target; keeps the store valid |
| MemoryKeeper.Store.SaveMemory | internal/capability/memory/run.go:46-72 | a blocked input saves nothing; else an active record with the first creation time is saved |
| MemoryKeeper.Store.Promote | internal/capability/memory/promotion.go:11-51 | refuses for the first reason that applies, else saves the convention over the derived record |
| MemoryKeeper.SaveTouchesOnly | internal/capability/memory/store.go:134-173 | a save removes no record and changes none but its own and, by its marks only, the one it supersedes |
| MemoryKeeper.CutPromotionExact | internal/capability/memory/promotion.go:38-41 | a failed promotion can be tried again exactly when it failed before its first write; cut between its writes it leaves both records active and every later promotion is refused because the successor exists; reported as failed with both in place, because the memory is no longer active |
| MemoryKeeper.SaveRevivesExactly | internal/capability/memory/store.go:134-173 | a superseded memory becomes active exactly by a save of its own id and project that is admitted and gets to write |
| MemoryMeaning.SaveMeans | internal/capability/memory/store.go:78-212 | in a valid store an undisturbed save succeeds exactly when the record is in order, no other scope has its id, and what it supersedes is in its project and not superseded by another; it then leaves the record and the mark, and otherwise every record as it was |
| MemoryMeaning.RequestByText | internal/capability/memory/store.go:78-106 | the record and the superseded id are in order exactly when ids, project, status, kind and source read as they must and a global record is a preference |
| MemoryMeaning.FaultsByText | internal/capability/memory/store.go:78-106 | the reason a save gives before it looks at the store holds |
| MemoryMeaning.SavedSays | internal/capability/memory/run.go:46-66 | the record of the save handler is active, says what its input says without the white space around it, and keeps the first creation time |
| MemoryMeaning.RefusalMeans | internal/capability/memory/promotion.go:11-42 | a promotion is not refused exactly for a derived, active memory of a project that is no convention yet and whose convention has no record, when the evaluation passed and a time is given |
| MemoryMeaning.PromotedSays | internal/capability/memory/promotion.go:38-46 | the convention says what the derived memory says, is active, and starts at the time of the promotion |
| TreeWalk.TreeStats | internal/capability/storage/storage.go:641-675 | safe exactly for a tree of files and readable directories within both limits, and then bytes, newest time and spent budget are exact |
| TreeWalk.RemoveContents | internal/capability/storage/storage.go:704-774 | empties a directory exactly when it is plain, within the limits and erasable; a cap or an unsafe entry never stops one that fits; no foreign entry is ever removed |
| TreeWalk.RemoveEntry | internal/capability/storage/storage.go:727-772 | the same for one entry |
| TreeWalk.RemoveTree | internal/capability/storage/storage.go:677-702 | the tree is gone exactly when removal succeeds; otherwise all its links and special files are still there |
| TreeWalk.SafeIsRemovable | internal/capability/storage/storage.go:632-702 | what the safety walk calls safe, removal finishes without hitting a cap |
| TreeWalk.OneLevelMore | internal/capability/storage/storage.go:642-642 | the two depth limits differ by one level of entries that are not directories |
| TreeWalk.SafeExactly | internal/capability/storage/storage.go:642-642 | a directory is safe exactly when it can be removed and nothing in it lies below the depth limit |
| TreeWalk.RemovableButNotSafe | internal/capability/storage/storage.go:705-707 | a tree that can be removed and is not safe: a file seventeen levels down |
| TreeWalk.MeasureTree | internal/capability/storage/status.go:199-233 | never reports more than the true bytes; complete exactly when everything is readable and within both limits, and then exact |
| TreeWalk.LimitsInNumbers | internal/capability/storage/storage.go:24-34 | sixteen levels and 2048 nodes for the walks that remove, 64 levels and 500000 nodes for the one that measures |
| TelemetryModel.NextHasRoom | internal/telemetry/store.go:278-296 | the segment chosen for a line has room for it or is new |
| TelemetryModel.AppendKeepsOrder | internal/telemetry/store.go:270-275 | an append keeps the listing in order |
| TelemetryModel.AppendKeepsBounds | internal/telemetry/store.go:278-296 | after an append every segment is within its limit or holds one event, all of its own month |
| TelemetryModel.AppendAddsEvent | internal/telemetry/store.go:92-113 | an append adds exactly the event |
| TelemetryGc.RetainedFits | internal/telemetry/store.go:152-175 | after a complete collection the total is within its limit or only the segment just written is left |
| TelemetryGc.OldestGoFirst | internal/telemetry/store.go:160-175 | what the size rule removes is older than everything it keeps but the segment just written |
| TelemetryGc.FittingLogIsKept | internal/telemetry/store.go:160-163 | a log within its limit loses only expired months |
| TelemetryGc.MonthsBounded | internal/telemetry/store.go:129-151 | of the months other than the one written to at most the retained number survive |
| StableSorting.SortIsStable | internal/telemetry/store.go:214-219 | sorting yields the same elements in order, those that tie in their old order |
| TelemetryStore.Store.NextSegmentOf | internal/telemetry/store.go:278-296 | the newest segment of the month while the line fits, else the next number, else the first |
| TelemetryStore.Store.ExpiredMonths | internal/telemetry/store.go:129-139 | the months cut are exactly those with enough later months |
| TelemetryStore.Store.Collect | internal/telemetry/store.go:124-177 | what is left is part of the listing with the segment just written; complete collections leave what both rules say |
| TelemetryStore.Store.RemoveExpired | internal/telemetry/store.go:138-151 | removes the expired months except the segment just written, up to the first failing removal |
| TelemetryStore.Store.RemoveOldest | internal/telemetry/store.go:152-175 | removes the oldest segments while the total is too large |
| TelemetryStore.Store.Emit | internal/telemetry/store.go:63-118 | keeps every segment within its limit or with one event; the event is retained; after success the total fits or only its segment is left |
| TelemetryStore.Store.ReadSince | internal/telemetry/store.go:179-221 | the stable sort of all retained events not before the time, though whole months are skipped |
| TelemetryMeaning.ReadMeans | internal/telemetry/store.go:179-221 | what is read are exactly the retained events not before the time, by time, then by trace id, and of one time and trace as they were written |
| TelemetryMeaning.KeptExactly | internal/telemetry/store.go:124-177 | a complete collection keeps a segment exactly when it is the one just written, or fewer than the retained number of months are later and what stays with everything older gone is within the limit |
| TelemetryMeaning.LineGoes | internal/telemetry/store.go:278-296 | a line goes to the newest segment of its month while the two stay within the limit, else to the next one |
| TelemetryMeaning.FirstLineGoes | internal/telemetry/store.go:278-296 | the first line of a month goes to segment zero |
| Ledger.GreedyIsMaximal | internal/capability/ledger/decide.go:56-73 | what greedy filling takes fits, what it leaves is larger than the final remainder, and nothing is left exactly when all fits |
| Ledger.GreedyPartitions | internal/capability/ledger/decide.go:56-73 | every item is either taken or left |
| Ledger.AdmissionOrder | internal/capability/ledger/decide.go:40-46 | required items come first, each group by ascending path, items of one path as the pack lists them |
| Ledger.TakenNext | internal/capability/ledger/decide.go:56-73 | the next item is taken exactly when it fits what those taken before it leave |
| Ledger.OverflowExact | internal/capability/ledger/decide.go:56-67 | with the required items first one of them is left exactly when together they exceed the budget |
| Ledger.CoverageExact | internal/capability/ledger/decide.go:110-115 | full coverage is reported exactly when every required item is included |
| Ledger.CheckAnchors | internal/capability/context/anchor.go:24-38 | counts the anchors that are neither the id nor the path of an item |
| Ledger.Fill | internal/capability/ledger/decide.go:53-73 | overflow exactly when the required bytes exceed the budget; else the selection is the greedy one |
| Ledger.Decide | internal/capability/ledger/decide.go:36-98 | refuses, admits or degrades exactly as required bytes, all bytes and anchors say; the reason is the one that belongs to the verdict; on overflow what is included is what was taken before the first required item that does not fit; remaining is budget minus included; dispatches exactly when not refused |

## Left out

- Strings are sequences of characters, not bytes; texts are taken to be valid UTF-8. Sizes and times are unbounded integers.
- Paths are slash-separated, as on Unix; volume names and backslashes are not modelled.
- Flow ids with NUL characters, which the lint's edge key could confuse, are told apart by the model.
- The `with` values, opinions, summaries and messages of flow nodes reach only the executor and the reader; executor,
  router and reference resolution are parameters, and a failed resolution and a failed executor are one outcome.
- Lint findings are a set with rule and node; their sorted order and their texts are presentation.
- The order in which concurrent nodes finish: the engine sorts the outcomes, so the model collects them in id order.
- ProgramQueue.ExecuteProgramWithDelivery: the mission executor must never return the status pending, as the counter of remaining missions presupposes.
- Normalising the dependency list of a program (sorting, removing repeats) does not change which edges there are.
- Task ids are fresh; task retention, raw executors other than as a task that cannot run, and several managers on one
  directory are not modelled. Restart failing part way leaves the manager down.
- RunProtocol.Repo.Apply: git is an abstract worktree, a head with compare-and-swap and commits whose names do not collide; identity,
  integrity, policy, audit and key checks are inputs, and integration and delivery after the persisted result are not modelled.
- Discard.Workspace.DiscardRun: one attempt runs without edits of the worktree after its diff was read, and the removal of a worktree is atomic.
- The archive file's own staging and the identity checks against symlinks are assumed to work.
- Digests, signatures, ids and JSON encoding are parameters, injective only where a lemma says so; secret patterns and the save lint are parameters.
- AgentsFile.File.Sync: reading the file fails for nothing here, and replacing it is atomic and may fail as a whole.
- The evidence list of a saved record is stored as given; its normalisation is modelled where the bridge prints.
- MemoryKeeper.Store.Save: directories and locks work; a record is written whole or not at all, and one whose directory could not be synced is in place until the machine itself goes down. Another process may act between the reads of a promotion and its save; every such save keeps the store valid too.
- Search ranking over memories, recall output fitting, and the reading of records written by other programs are not modelled.
- TreeWalk.TreeStats: the 64-bit sum of sizes cannot overflow here; file identity checks during removal hold because the tree does not change.
- TelemetryStore.Store.Emit: a line is written whole or not at all, every stored line decodes, no line exceeds the scanner's limit, and months of years up to 9999 order like numbers.
- Ledger.Decide: item sizes are not negative; the digests of items are dropped.
- Packing a root into items: a required path that is found is stored under another name than its anchor, so no claim
  is made that packing keeps anchors.
- Route choice among profiles, process handling, report rendering, the MCP and CLI surfaces, allowlists and word lists
  are tables or plumbing.
