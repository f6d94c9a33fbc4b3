// What every interleaving of the task manager keeps.
module TaskLaws {
  import opened Ordering
  import opened TaskModel

  // Statuses only move along Transition, and no record disappears.
  ghost predicate Moves(before: State, after: State) {
    forall id :: id in before.records ==>
      id in after.records && Transition(before.records[id], after.records[id])
  }

  // What a pump may do to the records: start queued tasks.
  ghost predicate Promotes(before: State, after: State) {
    && before.records.Keys == after.records.Keys
    && forall id :: id in before.records ==>
         after.records[id] == before.records[id] || (before.records[id] == Queued && after.records[id] == Running)
  }

  // What a pump leaves alone.
  ghost predicate SameRest(before: State, after: State) {
    && after.max == before.max && after.up == before.up && after.log == before.log
    && after.cancelled == before.cancelled && after.saved == before.saved
    && after.cancelledQueued == before.cancelledQueued
  }

  lemma HeadWaits(s: State)
    requires QueueInv(s) && s.queue != []
    ensures s.queue[0] in s.queue && Waits(s, s.queue[0]) && s.queue[0] !in s.saved
    ensures forall x :: x in s.queue <==> x == s.queue[0] || x in s.queue[1..]
    ensures s.queue[0] !in s.queue[1..] && Distinct(s.queue[1..])
  {
    assert s.queue == [s.queue[0]] + s.queue[1..];
  }

  lemma TakeQueue(s: State, failing: set<Id>)
    requires QueueInv(s) && s.queue != []
    ensures QueueInv(Take(s, failing))
  {
    HeadWaits(s);
    var t := Take(s, failing);
    forall x | x in t.queue || x in t.saved ensures Waits(t, x) {
      assert Waits(s, x) && x != s.queue[0];
    }
  }

  lemma TakeWorkers(s: State, failing: set<Id>)
    requires QueueInv(s) && WorkerInv(s) && s.queue != [] && |s.workers| < s.max
    ensures WorkerInv(Take(s, failing))
  {
    HeadWaits(s);
    var id, t := s.queue[0], Take(s, failing);
    if id in t.workers {
      assert t.workers.Keys == s.workers.Keys + {id};
      assert |t.workers.Keys| == |t.workers| && |s.workers.Keys| == |s.workers|;
    }
    forall x | x in t.workers ensures WorkerOk(t, x) {
      if x in s.workers {
        assert WorkerOk(s, x);
      }
    }
  }

  lemma TakeHistory(s: State, failing: set<Id>)
    requires QueueInv(s) && HistoryInv(s) && HeldInv(s) && s.queue != []
    ensures HistoryInv(Take(s, failing)) && HeldInv(Take(s, failing))
  {
    HeadWaits(s);
  }

  lemma TakeKeeps(s: State, failing: set<Id>)
    requires Basic(s) && s.up && s.queue != [] && |s.workers| < s.max
    ensures Basic(Take(s, failing)) && SameRest(s, Take(s, failing)) && Promotes(s, Take(s, failing))
  {
    TakeQueue(s, failing);
    TakeWorkers(s, failing);
    TakeHistory(s, failing);
    hide QueueInv, WorkerInv, HistoryInv, HeldInv;
  }

  lemma {:induction false} PumpKeeps(s: State, failing: set<Id>)
    requires Basic(s) && s.up
    ensures Inv(Pump(s, failing)) && SameRest(s, Pump(s, failing)) && Promotes(s, Pump(s, failing))
    decreases |s.queue|
  {
    hide Basic, Take;
    if |s.workers| < s.max && s.queue != [] {
      TakeShrinks(s, failing);
      TakeKeeps(s, failing);
      PumpKeeps(Take(s, failing), failing);
    } else {
      SlotsBound(s);
    }
  }

  lemma TakeShrinks(s: State, failing: set<Id>)
    requires s.queue != []
    ensures |Take(s, failing).queue| < |s.queue|
  {
  }

  lemma SlotsBound(s: State)
    requires Basic(s)
    ensures |s.workers| <= s.max
  {
  }

  lemma {:induction false} RemoveFirstKeeps(queue: seq<Id>, id: Id)
    requires Distinct(queue)
    ensures Distinct(RemoveFirst(queue, id))
    ensures forall x :: x in RemoveFirst(queue, id) <==> x in queue && x != id
  {
    if queue != [] {
      var head, tail := queue[0], queue[1..];
      assert queue == [head] + tail;
      assert head !in tail;
      RemoveFirstKeeps(tail, id);
      if head != id {
        assert head !in RemoveFirst(tail, id);
        DistinctCons(head, RemoveFirst(tail, id));
      }
    }
  }

  lemma DistinctCons(x: Id, s: seq<Id>)
    requires Distinct(s) && x !in s
    ensures Distinct([x] + s)
  {
  }

  lemma InitIsFine(max: nat)
    requires max > 0
    ensures Inv(Init(max))
  {
  }

  lemma EnqueueKeepsBasic(s: State, id: Id)
    requires Inv(s) && s.up && id in s.saved
    ensures Basic(s.(saved := s.saved - {id}, queue := s.queue + [id]))
  {
    var mid := s.(saved := s.saved - {id}, queue := s.queue + [id]);
    assert id !in s.queue;
    assert forall x :: x in mid.queue <==> x in s.queue || x == id;
    forall x | x in mid.queue || x in mid.saved ensures Waits(mid, x) {
      assert Waits(s, x);
    }
    hide Waits, WorkerOk;
  }

  function Withdrawn(s: State, id: Id): State {
    s.(
      records := s.records[id := Cancelled],
      queue := RemoveFirst(s.queue, id),
      cancelledQueued := s.cancelledQueued + {id})
  }

  lemma CancelKeepsBasic(s: State, id: Id)
    requires Inv(s) && s.up && id in s.records && s.records[id] == Queued
    ensures Basic(Withdrawn(s, id))
  {
    var mid := Withdrawn(s, id);
    RemoveFirstKeeps(s.queue, id);
    assert id !in s.log;
    assert id in s.workers ==> WorkerOk(s, id);
    forall x | x in mid.queue || x in mid.saved ensures Waits(mid, x) {
      assert Waits(s, x);
    }
    forall x | x in mid.workers ensures WorkerOk(mid, x) {
      assert WorkerOk(s, x);
    }
    hide Waits, WorkerOk;
  }

  lemma LeaveKeepsBasic(s: State, id: Id)
    requires Inv(s) && s.up && id in s.workers && s.workers[id] == Closed
    ensures Basic(s.(workers := s.workers - {id}, cancelled := s.cancelled - {id}))
  {
    var mid := s.(workers := s.workers - {id}, cancelled := s.cancelled - {id});
    assert WorkerOk(s, id);
    assert mid.workers.Keys == s.workers.Keys - {id};
    assert |mid.workers.Keys| == |mid.workers| && |s.workers.Keys| == |s.workers|;
    forall x | x in mid.queue || x in mid.saved ensures Waits(mid, x) {
      assert Waits(s, x);
    }
    forall x | x in mid.workers ensures WorkerOk(mid, x) {
      assert WorkerOk(s, x);
    }
    hide Waits, WorkerOk;
  }

  lemma StartKeeps(s: State, id: Id, failing: set<Id>)
    requires Inv(s) && s.up && id in s.saved
    ensures var t := Next(s, StartEnqueue(id, failing)); Inv(t) && Moves(s, t)
  {
    EnqueueKeepsBasic(s, id);
    PumpKeeps(s.(saved := s.saved - {id}, queue := s.queue + [id]), failing);
    hide Inv, Pump;
  }

  lemma CancelKeeps(s: State, id: Id, failing: set<Id>)
    requires Inv(s) && s.up && id in s.records
    ensures var t := Next(s, Cancel(id, failing)); Inv(t) && Moves(s, t)
  {
    if s.records[id] == Queued && id !in failing {
      CancelKeepsBasic(s, id);
      PumpKeeps(Withdrawn(s, id), failing);
      hide Inv, Pump;
    } else {
      hide QueueInv, HistoryInv, HeldInv, WorkerOk;
    }
  }

  lemma LeaveKeeps(s: State, id: Id, failing: set<Id>)
    requires Inv(s) && s.up && id in s.workers && s.workers[id] == Closed
    ensures var t := Next(s, WorkerLeaves(id, failing)); Inv(t) && Moves(s, t)
  {
    LeaveKeepsBasic(s, id);
    PumpKeeps(s.(workers := s.workers - {id}, cancelled := s.cancelled - {id}), failing);
    hide Inv, Pump;
  }

  lemma WorkerStays(s: State, id: Id, phase: Phase)
    requires id in s.workers
    ensures s.workers[id := phase].Keys == s.workers.Keys && |s.workers[id := phase]| == |s.workers|
  {
    assert |s.workers[id := phase].Keys| == |s.workers[id := phase]| && |s.workers.Keys| == |s.workers|;
  }

  lemma RunKeepsInv(s: State, id: Id)
    requires Inv(s) && Enabled(s, WorkerRuns(id))
    ensures var t := Next(s, WorkerRuns(id)); Inv(t) && Moves(s, t)
  {
    assert WorkerOk(s, id);
    WorkerStays(s, id, Executing);
    var t := Next(s, WorkerRuns(id));
    assert forall x :: x in t.log <==> x in s.log || x == id;
  }

  lemma EndKeepsInv(s: State, id: Id, phase: Phase)
    requires Inv(s) && id in s.workers && (s.workers[id] == Spawned || s.workers[id] == Executing)
    requires phase.Ended? && Terminal(phase.status)
    ensures var t := s.(workers := s.workers[id := phase]); Inv(t) && Moves(s, t)
  {
    assert WorkerOk(s, id);
    WorkerStays(s, id, phase);
  }

  // Replacing the record and phase of a worker that holds a result.
  lemma RecordKeepsInv(s: State, id: Id, status: TaskStatus, phase: Phase, lost: set<Id>)
    requires Inv(s) && id in s.workers && s.workers[id].Ended? && s.lost <= lost
    requires status == Running || Terminal(status)
    requires phase == Closed || (phase == Ended(Failed) && status == Running)
    requires phase == Closed && status == Running ==> id in lost
    ensures var t := s.(records := s.records[id := status], workers := s.workers[id := phase], lost := lost);
      Inv(t) && Moves(s, t)
  {
    assert WorkerOk(s, id);
    WorkerStays(s, id, phase);
    var t := s.(records := s.records[id := status], workers := s.workers[id := phase], lost := lost);
    assert forall x :: x in s.queue || x in s.saved ==> Waits(s, x) && x != id;
    assert QueueInv(t);
    forall x | x in t.workers ensures WorkerOk(t, x) {
      assert WorkerOk(s, x);
    }
    assert WorkerInv(t);
  }

  lemma FinishKeepsInv(s: State, id: Id, written: bool)
    requires Inv(s) && Enabled(s, WorkerFinishes(id, written))
    ensures var t := Next(s, WorkerFinishes(id, written)); Inv(t) && Moves(s, t)
  {
    assert WorkerOk(s, id);
    var status := s.workers[id].status;
    var t := Next(s, WorkerFinishes(id, written));
    assert s.records[id := Running] == s.records;
    if written {
      RecordKeepsInv(s, id, status, Closed, s.lost);
      assert t == s.(records := s.records[id := status], workers := s.workers[id := Closed], lost := s.lost);
    } else if status != Failed {
      RecordKeepsInv(s, id, Running, Ended(Failed), s.lost);
      assert t == s.(records := s.records[id := Running], workers := s.workers[id := Ended(Failed)], lost := s.lost);
    } else {
      RecordKeepsInv(s, id, Running, Closed, s.lost + {id});
      assert t == s.(records := s.records[id := Running], workers := s.workers[id := Closed], lost := s.lost + {id});
    }
  }

  lemma RestartKeeps(s: State, step: Step)
    requires Inv(s) && Enabled(s, step) && (step.Crash? || step.Recover?)
    ensures var t := Next(s, step); Inv(t) && Moves(s, t)
  {
  }

  // A queued task starts, fails or is cancelled, a running one ends in any way, an ended one stays.
  lemma TransitionPairs(from: TaskStatus, next: TaskStatus)
    ensures Transition(from, next) <==> from == next || (from, next) in {
      (Queued, Running), (Queued, Failed), (Queued, Cancelled),
      (Running, Done), (Running, Failed), (Running, Cancelled), (Running, Timeout)}
  {
  }

  // Every step keeps the invariant and moves records only along the transitions.
  lemma StepKeeps(s: State, step: Step)
    requires Inv(s) && Enabled(s, step)
    ensures Inv(Next(s, step)) && Moves(s, Next(s, step))
  {
    match step
    case StartSave(id) =>
    case StartEnqueue(id, failing) => StartKeeps(s, id, failing);
    case Cancel(id, failing) => CancelKeeps(s, id, failing);
    case WorkerRuns(id) => RunKeepsInv(s, id);
    case WorkerCannotRun(id) => EndKeepsInv(s, id, Ended(Failed));
    case WorkerEnds(id, deadline, errored) =>
      EndKeepsInv(s, id, Ended(EndStatus(id in s.cancelled, deadline, errored)));
    case WorkerFinishes(id, written) => FinishKeepsInv(s, id, written);
    case WorkerLeaves(id, failing) => LeaveKeeps(s, id, failing);
    case Crash => RestartKeeps(s, step);
    case Recover(_) => RestartKeeps(s, step);
  }

  // ---- whole runs ----

  ghost predicate IsRun(max: nat, states: seq<State>, steps: seq<Step>) {
    && |states| == |steps| + 1
    && states[0] == Init(max)
    && forall i :: 0 <= i < |steps| ==> Enabled(states[i], steps[i]) && states[i + 1] == Next(states[i], steps[i])
  }

  lemma {:induction false} RunKeeps(max: nat, states: seq<State>, steps: seq<Step>, i: nat)
    requires max > 0 && IsRun(max, states, steps) && i < |states|
    ensures Inv(states[i]) && states[i].max == max
  {
    hide Inv, Init, Next;
    if i == 0 {
      InitIsFine(max);
      InitMax(max);
    } else {
      RunKeeps(max, states, steps, i - 1);
      assert states[i] == Next(states[i - 1], steps[i - 1]);
      StepKeeps(states[i - 1], steps[i - 1]);
      MaxIsFixed(states[i - 1], steps[i - 1]);
    }
  }

  lemma InitMax(max: nat)
    ensures Init(max).max == max
  {
  }

  lemma {:induction false} PumpMax(s: State, failing: set<Id>)
    ensures Pump(s, failing).max == s.max
    decreases |s.queue|
  {
    if |s.workers| < s.max && s.queue != [] {
      PumpMax(Take(s, failing), failing);
    }
  }

  lemma MaxIsFixed(s: State, step: Step)
    requires Enabled(s, step)
    ensures Next(s, step).max == s.max
  {
    hide Pump;
    match step
    case StartEnqueue(id, failing) => PumpMax(s.(saved := s.saved - {id}, queue := s.queue + [id]), failing);
    case Cancel(id, failing) =>
      PumpMax(s.(
        records := s.records[id := Cancelled],
        queue := RemoveFirst(s.queue, id),
        cancelledQueued := s.cancelledQueued + {id}), failing);
    case WorkerLeaves(id, failing) =>
      PumpMax(s.(workers := s.workers - {id}, cancelled := s.cancelled - {id}), failing);
    case _ =>
  }

  // In every reachable state: no more tasks are active than allowed, nothing queued waits beside a
  // free slot, no task was executed twice, and none after it was cancelled in the queue.
  lemma ReachableStatesAreSafe(max: nat, states: seq<State>, steps: seq<Step>, i: nat)
    requires max > 0 && IsRun(max, states, steps) && i < |states|
    ensures |states[i].workers| <= max
    ensures states[i].queue == [] || |states[i].workers| == max
    ensures Distinct(states[i].log)
    ensures forall id :: id in states[i].cancelledQueued ==>
      id !in states[i].log && id in states[i].records && states[i].records[id] == Cancelled
    ensures forall id :: states[i].up && id in states[i].records && !Terminal(states[i].records[id]) ==>
      id in states[i].queue || id in states[i].saved || id in states[i].workers || id in states[i].lost
  {
    hide QueueInv, WorkerOk;
    RunKeeps(max, states, steps, i);
  }

  // A recorded status that is over never changes again.
  lemma {:induction false} TerminalStays(max: nat, states: seq<State>, steps: seq<Step>, i: nat, j: nat, id: Id)
    requires max > 0 && IsRun(max, states, steps) && i <= j < |states|
    requires id in states[i].records && Terminal(states[i].records[id])
    ensures id in states[j].records && states[j].records[id] == states[i].records[id]
    decreases j - i
  {
    hide Inv, Next, Init;
    if i < j {
      TerminalStays(max, states, steps, i, j - 1, id);
      RunKeeps(max, states, steps, j - 1);
      assert states[j] == Next(states[j - 1], steps[j - 1]);
      StepKeeps(states[j - 1], steps[j - 1]);
    }
  }

  // ---- a cancel before the executor returns is never recorded as done ----

  // Past its cancellation: neither recorded as done nor on the way there.
  ghost predicate NeverDone(s: State, id: Id) {
    && id in s.records && s.records[id] != Done && s.records[id] != Queued
    && (id in s.workers ==>
          s.workers[id] != Ended(Done) && (s.workers[id] == Executing || s.workers[id] == Spawned ==> id in s.cancelled))
  }

  lemma {:induction false} PumpSpares(s: State, failing: set<Id>, id: Id)
    requires Basic(s) && s.up && NeverDone(s, id)
    ensures NeverDone(Pump(s, failing), id)
    decreases |s.queue|
  {
    hide Basic;
    if |s.workers| < s.max && s.queue != [] {
      TakeKeeps(s, failing);
      PumpSpares(Take(s, failing), failing, id);
    }
  }

  lemma NeverDoneUnderMutex(s: State, step: Step, id: Id)
    requires Inv(s) && Enabled(s, step) && NeverDone(s, id)
    requires step.StartEnqueue? || step.Cancel? || step.WorkerLeaves?
    ensures NeverDone(Next(s, step), id)
  {
    assert s.up by {
      hide QueueInv, WorkerInv, HistoryInv, HeldInv;
    }
    hide Pump, Basic, Settled;
    match step
    case StartEnqueue(x, failing) =>
      var mid := s.(saved := s.saved - {x}, queue := s.queue + [x]);
      EnqueueKeepsBasic(s, x);
      PumpSpares(mid, failing, id);
    case Cancel(x, failing) =>
      if s.records[x] == Queued && x !in failing {
        CancelKeepsBasic(s, x);
        PumpSpares(Withdrawn(s, x), failing, id);
      }
    case WorkerLeaves(x, failing) =>
      LeaveKeepsBasic(s, x);
      PumpSpares(s.(workers := s.workers - {x}, cancelled := s.cancelled - {x}), failing, id);
  }

  lemma NeverDoneStep(s: State, step: Step, id: Id)
    requires Inv(s) && Enabled(s, step) && NeverDone(s, id)
    ensures NeverDone(Next(s, step), id)
  {
    if step.StartEnqueue? || step.Cancel? || step.WorkerLeaves? {
      NeverDoneUnderMutex(s, step, id);
    } else {
      hide Inv;
    }
  }

  // A running task whose cancel arrives before its executor has returned is never recorded as done.
  lemma {:induction false} CancelBeforeEndIsNeverDone(
    max: nat, states: seq<State>, steps: seq<Step>, i: nat, j: nat, id: Id)
    requires max > 0 && IsRun(max, states, steps) && i < j < |states|
    requires steps[i].Cancel? && steps[i].id == id && id in states[i].records && states[i].records[id] == Running
    requires id in states[i].workers && !states[i].workers[id].Ended? && states[i].workers[id] != Closed
    ensures NeverDone(states[j], id) && states[j].records[id] != Done
    decreases j
  {
    hide Inv, Next, Init;
    RunKeeps(max, states, steps, j - 1);
    assert states[j] == Next(states[j - 1], steps[j - 1]);
    if j > i + 1 {
      CancelBeforeEndIsNeverDone(max, states, steps, i, j - 1, id);
      NeverDoneStep(states[j - 1], steps[j - 1], id);
    } else {
      CancelDooms(states[i], id, steps[i].failing);
    }
  }

  lemma CancelDooms(s: State, id: Id, failing: set<Id>)
    requires Enabled(s, Cancel(id, failing)) && s.records[id] == Running
    requires id in s.workers && !s.workers[id].Ended? && s.workers[id] != Closed
    ensures NeverDone(Next(s, Cancel(id, failing)), id)
  {
  }

  // ---- why the sections under the mutex may be taken as single steps ----

  // What finish leaves of a worker: its record, its phase, and whether the task is lost.
  datatype Finish = Finish(status: TaskStatus, phase: Phase, lost: set<Id>)

  function Replaced(s: State, other: Id, to': Finish): State {
    s.(records := s.records[other := to'.status], workers := s.workers[other := to'.phase], lost := s.lost + to'.lost)
  }

  function FinishOf(status: TaskStatus, other: Id, written: bool): Finish {
    if written then Finish(status, Closed, {})
    else if status != Failed then Finish(Running, Ended(Failed), {})
    else Finish(Running, Closed, {other})
  }

  lemma FinishReplaces(s: State, other: Id, written: bool)
    requires Inv(s) && Enabled(s, WorkerFinishes(other, written))
    ensures other in s.records && s.records[other] == Running && other !in s.queue
    ensures Next(s, WorkerFinishes(other, written)) == Replaced(s, other, FinishOf(s.workers[other].status, other, written))
  {
    assert WorkerOk(s, other);
    assert s.records[other := Running] == s.records;
  }

  lemma TakeIgnores(s: State, failing: set<Id>, other: Id, to': Finish)
    requires s.queue != [] && other != s.queue[0]
    ensures other in s.workers ==> other in Take(s, failing).workers && Take(s, failing).workers[other] == s.workers[other]
    ensures other in s.records ==> other in Take(s, failing).records && Take(s, failing).records[other] == s.records[other]
    ensures Take(s, failing).queue == s.queue[1..] && Take(s, failing).max == s.max
    ensures Take(Replaced(s, other, to'), failing) == Replaced(Take(s, failing), other, to')
  {
    var id := s.queue[0];
    assert s.records[other := to'.status][id := Running] == s.records[id := Running][other := to'.status];
    assert s.workers[other := to'.phase][id := Spawned] == s.workers[id := Spawned][other := to'.phase];
    assert s.lost + to'.lost + {id} == s.lost + {id} + to'.lost;
  }

  lemma {:induction false} PumpIgnores(s: State, failing: set<Id>, other: Id, to': Finish)
    requires other in s.workers && other !in s.queue
    ensures Pump(Replaced(s, other, to'), failing) == Replaced(Pump(s, failing), other, to')
    ensures other in Pump(s, failing).workers && Pump(s, failing).workers[other] == s.workers[other]
    ensures other in s.records ==> other in Pump(s, failing).records && Pump(s, failing).records[other] == s.records[other]
    decreases |s.queue|
  {
    hide Take;
    WorkerStays(s, other, to'.phase);
    if |s.workers| < s.max && s.queue != [] {
      assert s.queue[0] in s.queue;
      TakeIgnores(s, failing, other, to');
      PumpIgnores(Take(s, failing), failing, other, to');
    }
  }

  // The two steps may be taken in either order.
  ghost predicate Commute(s: State, one: Step, two: Step)
    requires Enabled(s, one) && Enabled(s, two)
  {
    && Enabled(Next(s, one), two) && Enabled(Next(s, two), one)
    && Next(Next(s, one), two) == Next(Next(s, two), one)
  }

  // A finishing worker whose record and phase are the same finishes the same way.
  lemma FinishAfter(s: State, later: State, other: Id, written: bool)
    requires Inv(s) && Enabled(s, WorkerFinishes(other, written))
    requires other in later.workers && later.workers[other] == s.workers[other]
    requires other in later.records && later.records[other] == s.records[other]
    ensures Enabled(later, WorkerFinishes(other, written))
    ensures Next(later, WorkerFinishes(other, written)) == Replaced(later, other, FinishOf(s.workers[other].status, other, written))
  {
    FinishReplaces(s, other, written);
    assert later.records[other := Running] == later.records;
  }

  // A section that changes nothing of the finishing worker and then pumps commutes with its finish.
  lemma PumpedCommutes(s: State, step: Step, mid: State, failing: set<Id>, other: Id, written: bool)
    requires Inv(s) && Enabled(s, step) && Enabled(s, WorkerFinishes(other, written))
    requires other in mid.workers && mid.workers[other] == s.workers[other] && other !in mid.queue
    requires other in mid.records && other in s.records && mid.records[other] == s.records[other]
    requires Next(s, step) == Pump(mid, failing)
    requires var to' := FinishOf(s.workers[other].status, other, written);
      Enabled(Replaced(s, other, to'), step)
      && Next(Replaced(s, other, to'), step) == Pump(Replaced(mid, other, to'), failing)
    ensures Commute(s, step, WorkerFinishes(other, written))
  {
    hide Pump, Inv, Next, FinishOf, Replaced;
    var to' := FinishOf(s.workers[other].status, other, written);
    FinishReplaces(s, other, written);
    PumpIgnores(mid, failing, other, to');
    FinishAfter(s, Pump(mid, failing), other, written);
  }

  // finish runs without the mutex. Recording another worker's result, or failing to, commutes with
  // an enqueue, so it does not matter on which side of the section's store accesses it falls.
  lemma FinishCommutesWithEnqueue(s: State, id: Id, failing: set<Id>, other: Id, written: bool)
    requires Inv(s) && Enabled(s, StartEnqueue(id, failing)) && Enabled(s, WorkerFinishes(other, written))
    ensures Commute(s, StartEnqueue(id, failing), WorkerFinishes(other, written))
  {
    FinishReplaces(s, other, written);
    assert Waits(s, id);
    hide Pump, Inv;
    PumpedCommutes(
      s, StartEnqueue(id, failing), s.(saved := s.saved - {id}, queue := s.queue + [id]), failing, other, written);
  }

  // The same for a worker that leaves and pumps.
  lemma FinishCommutesWithLeave(s: State, id: Id, failing: set<Id>, other: Id, written: bool)
    requires Inv(s) && Enabled(s, WorkerLeaves(id, failing)) && Enabled(s, WorkerFinishes(other, written))
    ensures Commute(s, WorkerLeaves(id, failing), WorkerFinishes(other, written))
  {
    FinishReplaces(s, other, written);
    hide Pump, Inv, FinishOf;
    var to' := FinishOf(s.workers[other].status, other, written);
    LeaveApart(s.workers, id, other, to'.phase);
    PumpedCommutes(
      s, WorkerLeaves(id, failing), s.(workers := s.workers - {id}, cancelled := s.cancelled - {id}), failing, other,
      written);
  }

  lemma LeaveApart(workers: map<Id, Phase>, id: Id, other: Id, phase: Phase)
    requires id != other
    ensures workers[other := phase] - {id} == (workers - {id})[other := phase]
  {
  }

  // The same for a cancel of another task, whatever its status.
  lemma FinishCommutesWithCancel(s: State, id: Id, failing: set<Id>, other: Id, written: bool)
    requires Inv(s) && Enabled(s, Cancel(id, failing)) && Enabled(s, WorkerFinishes(other, written)) && id != other
    ensures Commute(s, Cancel(id, failing), WorkerFinishes(other, written))
  {
    FinishReplaces(s, other, written);
    if s.records[id] == Queued && id !in failing {
      RemoveFirstKeeps(s.queue, id);
      hide Pump, Inv, FinishOf;
      var to' := FinishOf(s.workers[other].status, other, written);
      assert s.records[other := to'.status][id := Cancelled] == s.records[id := Cancelled][other := to'.status];
      PumpedCommutes(s, Cancel(id, failing), Withdrawn(s, id), failing, other, written);
    } else {
      hide Pump, Inv;
    }
  }

  // A cancel of the finishing task itself only makes a difference to the signal that is gone when
  // the worker leaves.
  lemma FinishThenCancelSelf(s: State, failing: set<Id>, id: Id, written: bool)
    requires Inv(s) && Enabled(s, Cancel(id, failing)) && Enabled(s, WorkerFinishes(id, written))
    ensures
      var one := Next(Next(s, Cancel(id, failing)), WorkerFinishes(id, written));
      var two := Next(s, WorkerFinishes(id, written));
      one == two.(cancelled := two.cancelled + {id})
  {
    FinishReplaces(s, id, written);
  }
}
