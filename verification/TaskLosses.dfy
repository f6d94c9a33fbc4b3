// Which tasks the manager forgets: recorded as unfinished, in nobody's hands. Only a record that
// cannot be read or written makes one, and only a cancel or a restart frees it.
module TaskLosses {
  import opened Ordering
  import opened TaskModel
  import opened TaskLaws

  // Recorded as queued or running, but nobody will take it on: it is not in the queue, not about to
  // be, and without a worker that still holds its result.
  ghost predicate Forgotten(s: State, id: Id) {
    && s.up && id in s.records && !Terminal(s.records[id])
    && id !in s.queue && id !in s.saved && (id in s.workers ==> s.workers[id] == Closed)
  }

  // The task's record cannot be read or written in the step that takes it off the queue, or in its
  // worker's last attempt, to record a failure.
  ghost predicate Forgets(s: State, step: Step, id: Id)
    requires Enabled(s, step)
  {
    match step
    case StartEnqueue(x, failing) => (id in s.queue || id == x) && Dropped(s, Next(s, step), failing, id)
    case Cancel(_, failing) => id in s.queue && Dropped(s, Next(s, step), failing, id)
    case WorkerLeaves(_, failing) => id in s.queue && Dropped(s, Next(s, step), failing, id)
    case WorkerFinishes(x, written) => id == x && !written && s.workers[id] == Ended(Failed)
    case _ => false
  }

  ghost predicate Dropped(s: State, t: State, failing: set<Id>, id: Id) {
    id in s.records && s.records[id] == Queued && id in failing && id !in t.queue
  }

  // The task's record cannot be read or written in the step.
  predicate Fails(step: Step, id: Id) {
    match step
    case StartEnqueue(_, failing) => id in failing
    case Cancel(_, failing) => id in failing
    case WorkerLeaves(_, failing) => id in failing
    case WorkerFinishes(x, written) => id == x && !written
    case _ => false
  }

  // ---- what is lost stays out of everybody's hands ----

  ghost predicate LostInv(s: State) {
    forall id :: id in s.lost ==>
      && id in s.records && id !in s.queue && id !in s.saved
      && (id in s.workers ==> s.workers[id] == Closed)
  }

  // What a pump adds to the lost tasks.
  ghost predicate LostByPump(s: State, t: State, failing: set<Id>) {
    forall id :: id in t.lost <==> id in s.lost || (id in s.queue && Dropped(s, t, failing, id))
  }

  lemma TakeLost(s: State, failing: set<Id>)
    requires QueueInv(s) && LostInv(s) && s.queue != []
    ensures LostInv(Take(s, failing)) && LostByPump(s, Take(s, failing), failing)
  {
    HeadWaits(s);
  }

  lemma PumpQueue(s: State, failing: set<Id>)
    ensures forall id :: id in Pump(s, failing).queue ==> id in s.queue
    decreases |s.queue|
  {
    if |s.workers| < s.max && s.queue != [] {
      PumpQueue(Take(s, failing), failing);
    }
  }

  lemma {:induction false} PumpLost(s: State, failing: set<Id>)
    requires Basic(s) && s.up && LostInv(s)
    ensures LostInv(Pump(s, failing)) && LostByPump(s, Pump(s, failing), failing)
    decreases |s.queue|
  {
    if |s.workers| < s.max && s.queue != [] {
      var mid := Take(s, failing);
      TakeKeeps(s, failing);
      TakeLost(s, failing);
      PumpLost(mid, failing);
      PumpQueue(mid, failing);
      HeadWaits(s);
      hide Basic, LostInv;
    }
  }

  lemma LostStep(s: State, step: Step)
    requires Inv(s) && LostInv(s) && Enabled(s, step)
    ensures LostInv(Next(s, step))
    ensures forall id :: id in Next(s, step).lost <==> id in s.lost || Forgets(s, step, id)
  {
    if step.StartEnqueue? || step.Cancel? || step.WorkerLeaves? {
      LostUnderMutex(s, step);
    } else if step.WorkerFinishes? {
      assert WorkerOk(s, step.id);
    }
  }

  lemma LostUnderMutex(s: State, step: Step)
    requires Inv(s) && LostInv(s) && Enabled(s, step)
    requires step.StartEnqueue? || step.Cancel? || step.WorkerLeaves?
    ensures LostInv(Next(s, step))
    ensures forall id :: id in Next(s, step).lost <==> id in s.lost || Forgets(s, step, id)
  {
    assert s.up;
    match step
    case StartEnqueue(x, failing) =>
      EnqueueKeepsBasic(s, x);
      PumpLost(s.(saved := s.saved - {x}, queue := s.queue + [x]), failing);
    case Cancel(x, failing) =>
      if s.records[x] == Queued && x !in failing {
        CancelKeepsBasic(s, x);
        RemoveFirstKeeps(s.queue, x);
        PumpLost(Withdrawn(s, x), failing);
      }
    case WorkerLeaves(x, failing) =>
      LeaveKeepsBasic(s, x);
      PumpLost(s.(workers := s.workers - {x}, cancelled := s.cancelled - {x}), failing);
  }

  // A task has been lost exactly when some step of the run forgot it.
  lemma {:induction false} LostExactly(max: nat, states: seq<State>, steps: seq<Step>, i: nat, id: Id)
    requires max > 0 && IsRun(max, states, steps) && i < |states|
    ensures LostInv(states[i])
    ensures id in states[i].lost <==> exists k :: 0 <= k < i && Forgets(states[k], steps[k], id)
  {
    hide Inv, Next, Init, LostInv, Forgets;
    if i == 0 {
      NothingLostYet(max);
    } else {
      LostExactly(max, states, steps, i - 1, id);
      RunKeeps(max, states, steps, i - 1);
      LostStep(states[i - 1], steps[i - 1]);
    }
  }

  lemma NothingLostYet(max: nat)
    ensures LostInv(Init(max)) && Init(max).lost == {}
  {
  }

  // In every reachable state the unfinished tasks in nobody's hands are exactly the lost ones.
  lemma ForgottenExactly(max: nat, states: seq<State>, steps: seq<Step>, i: nat, id: Id)
    requires max > 0 && IsRun(max, states, steps) && i < |states|
    ensures Forgotten(states[i], id) <==>
      && states[i].up && id in states[i].records && !Terminal(states[i].records[id])
      && exists k :: 0 <= k < i && Forgets(states[k], steps[k], id)
  {
    RunKeeps(max, states, steps, i);
    LostExactly(max, states, steps, i, id);
    hide Next, Init, Forgets;
    if id in states[i].workers {
      assert WorkerOk(states[i], id);
    }
  }

  // A task whose record can be read and written at every step is never forgotten.
  lemma NeverForgotten(max: nat, states: seq<State>, steps: seq<Step>, i: nat, id: Id)
    requires max > 0 && IsRun(max, states, steps) && i < |states|
    requires forall k :: 0 <= k < i ==> !Fails(steps[k], id)
    ensures !Forgotten(states[i], id)
  {
    ForgottenExactly(max, states, steps, i, id);
    hide Next, Init;
  }

  // ---- how a forgotten task is freed ----

  // The manager dies, or the task is cancelled while recorded as queued.
  ghost predicate Frees(s: State, step: Step, id: Id) {
    || step.Crash?
    || (step.Cancel? && step.id == id && id in s.records && s.records[id] == Queued && id !in step.failing)
  }

  lemma {:induction false} PumpForgets(s: State, failing: set<Id>, id: Id)
    requires Forgotten(s, id)
    ensures Forgotten(Pump(s, failing), id) && Pump(s, failing).records[id] == s.records[id]
    decreases |s.queue|
  {
    if |s.workers| < s.max && s.queue != [] {
      assert s.queue[0] in s.queue;
      PumpForgets(Take(s, failing), failing, id);
    }
  }

  lemma ForgottenStep(s: State, step: Step, id: Id)
    requires Enabled(s, step) && Forgotten(s, id)
    ensures Forgotten(Next(s, step), id) <==> !Frees(s, step, id)
    ensures !Frees(s, step, id) ==> Next(s, step).records[id] == s.records[id]
  {
    hide Pump;
    match step
    case StartEnqueue(x, failing) => PumpForgets(s.(saved := s.saved - {x}, queue := s.queue + [x]), failing, id);
    case WorkerLeaves(x, failing) =>
      PumpForgets(s.(workers := s.workers - {x}, cancelled := s.cancelled - {x}), failing, id);
    case Cancel(x, failing) =>
      if s.records[x] == Queued && x !in failing {
        if x == id {
          PumpSparesEnded(Withdrawn(s, x), failing, id);
        } else {
          RemoveFirstWithin(s.queue, x);
          PumpForgets(Withdrawn(s, x), failing, id);
        }
      }
    case _ =>
  }

  lemma {:induction false} PumpSparesEnded(s: State, failing: set<Id>, id: Id)
    requires id in s.records && Terminal(s.records[id])
    ensures id in Pump(s, failing).records && Terminal(Pump(s, failing).records[id])
    decreases |s.queue|
  {
    if |s.workers| < s.max && s.queue != [] {
      PumpSparesEnded(Take(s, failing), failing, id);
    }
  }

  lemma {:induction false} RemoveFirstWithin(queue: seq<Id>, id: Id)
    ensures forall x :: x in RemoveFirst(queue, id) ==> x in queue
  {
    if queue != [] {
      RemoveFirstWithin(queue[1..], id);
    }
  }

  // A forgotten task stays as it is recorded until a step frees it.
  lemma {:induction false} ForgottenStays(max: nat, states: seq<State>, steps: seq<Step>, i: nat, j: nat, id: Id)
    requires IsRun(max, states, steps) && i <= j < |states| && Forgotten(states[i], id)
    ensures (forall k :: i <= k < j ==> !Frees(states[k], steps[k], id)) ==>
      Forgotten(states[j], id) && states[j].records[id] == states[i].records[id]
    decreases j - i
  {
    hide Next, Init, Forgotten, Frees;
    if i < j && forall k :: i <= k < j ==> !Frees(states[k], steps[k], id) {
      ForgottenStays(max, states, steps, i, j - 1, id);
      ForgottenStep(states[j - 1], steps[j - 1], id);
    }
  }

  // Nobody will run it, not even after a restart.
  ghost predicate OutOfReach(s: State, id: Id) {
    id in s.records && id !in s.queue && id !in s.saved && id !in s.workers && id !in s.log
  }

  lemma {:induction false} PumpReach(s: State, failing: set<Id>, id: Id)
    requires OutOfReach(s, id)
    ensures OutOfReach(Pump(s, failing), id)
    decreases |s.queue|
  {
    if |s.workers| < s.max && s.queue != [] {
      assert s.queue[0] in s.queue;
      PumpReach(Take(s, failing), failing, id);
    }
  }

  lemma ReachStep(s: State, step: Step, id: Id)
    requires Enabled(s, step) && OutOfReach(s, id)
    ensures OutOfReach(Next(s, step), id)
  {
    hide Pump;
    match step
    case StartEnqueue(x, failing) => PumpReach(s.(saved := s.saved - {x}, queue := s.queue + [x]), failing, id);
    case WorkerLeaves(x, failing) =>
      PumpReach(s.(workers := s.workers - {x}, cancelled := s.cancelled - {x}), failing, id);
    case Cancel(x, failing) =>
      if s.records[x] == Queued && x !in failing {
        RemoveFirstWithin(s.queue, x);
        PumpReach(Withdrawn(s, x), failing, id);
      }
    case _ =>
  }

  // A task forgotten while queued is never executed.
  lemma {:induction false} ForgottenNeverRuns(max: nat, states: seq<State>, steps: seq<Step>, i: nat, j: nat, id: Id)
    requires max > 0 && IsRun(max, states, steps) && i <= j < |states|
    requires Forgotten(states[i], id) && states[i].records[id] == Queued
    ensures OutOfReach(states[j], id)
    decreases j - i
  {
    if i == j {
      RunKeeps(max, states, steps, i);
      hide Next, Init;
      assert forall x :: x in states[i].workers ==> WorkerOk(states[i], x);
    } else {
      hide Next, Init, OutOfReach, Forgotten;
      ForgottenNeverRuns(max, states, steps, i, j - 1, id);
      ReachStep(states[j - 1], steps[j - 1], id);
    }
  }

  // One such run: the task is saved, and its record cannot be written when the pump takes it.
  lemma QueuedIsForgotten(id: Id)
    ensures
      var steps := [StartSave(id), StartEnqueue(id, {id})];
      var saved := Next(Init(1), steps[0]);
      var s := Next(saved, steps[1]);
      && IsRun(1, [Init(1), saved, s], steps)
      && Forgotten(s, id) && s.records[id] == Queued && s.queue == [] && s.saved == {} && s.workers == map[]
  {
    var saved := Next(Init(1), StartSave(id));
    var mid := saved.(saved := saved.saved - {id}, queue := saved.queue + [id]);
    assert Pump(mid, {id}) == Pump(Take(mid, {id}), {id}) == Take(mid, {id});
  }

  // Another: the executor is missing, and the failure cannot be written.
  lemma RunningIsForgotten(id: Id)
    ensures
      var steps := [StartSave(id), StartEnqueue(id, {}), WorkerCannotRun(id), WorkerFinishes(id, false)];
      var saved := Next(Init(1), steps[0]);
      var taken := Next(saved, steps[1]);
      Enabled(taken, steps[2]) && (
        var ended := Next(taken, steps[2]);
        var s := Next(ended, steps[3]);
        && IsRun(1, [Init(1), saved, taken, ended, s], steps)
        && Forgotten(s, id) && s.records[id] == Running)
  {
    var saved := Next(Init(1), StartSave(id));
    var mid := saved.(saved := saved.saved - {id}, queue := saved.queue + [id]);
    assert Pump(mid, {}) == Pump(Take(mid, {}), {}) == Take(mid, {});
  }
}
