// How a task ends: what is recorded of it, and what must have happened for that.
module TaskEnds {
  import opened TaskModel
  import opened TaskLaws

  // ---- when a cancel is pending ----

  // The step cancels a task that has a worker: the worker is signalled.
  ghost predicate Signals(s: State, step: Step, id: Id) {
    step.Cancel? && step.id == id && id in s.records && s.records[id] == Running && id in s.workers
  }

  // What a pump does to one task: nothing, or it takes it off the queue.
  ghost predicate Pumped(s: State, t: State, id: Id) {
    && t.cancelled == s.cancelled && s.records.Keys == t.records.Keys
    && (id in s.records ==> t.records[id] == s.records[id] || (s.records[id] == Queued && t.records[id] == Running))
    && (id in s.workers ==> id in t.workers && (t.workers[id] == s.workers[id] || t.workers[id] == Spawned))
    && (id in t.workers ==>
          || (id in s.workers && t.workers[id] == s.workers[id])
          || (t.workers[id] == Spawned && id in s.records && s.records[id] == Queued))
  }

  lemma {:induction false} PumpPumps(s: State, failing: set<Id>, id: Id)
    ensures Pumped(s, Pump(s, failing), id)
    decreases |s.queue|
  {
    if |s.workers| < s.max && s.queue != [] {
      PumpPumps(Take(s, failing), failing, id);
    }
  }

  // ---- what ends a task, and how ----

  // The step makes an end of the task with that status. The worker's executor returns: with an error
  // the task failed, else past the deadline it timed out, else a pending cancel cancels it, else it is
  // done. Or the worker cannot run it, or cannot write its end; or it is cancelled in the queue; or
  // it is found without a worker after a restart.
  ghost predicate Ends(s: State, step: Step, id: Id, status: TaskStatus) {
    match step
    case WorkerEnds(x, deadline, errored) =>
      x == id && if errored then status == Failed
                 else if deadline then status == Timeout
                 else if id in s.cancelled then status == Cancelled
                 else status == Done
    case WorkerCannotRun(x) => x == id && status == Failed
    case WorkerFinishes(x, written) => x == id && !written && status == Failed
    case Cancel(x, failing) =>
      x == id && id in s.records && s.records[id] == Queued && id !in failing && status == Cancelled
    case Recover(reached) =>
      id in reached && id in s.records && (s.records[id] == Queued || s.records[id] == Running) && status == Failed
    case _ => false
  }

  ghost predicate HoldsEnd(s: State, id: Id, status: TaskStatus) {
    id in s.workers && s.workers[id] == Ended(status)
  }

  ghost predicate Recorded(s: State, id: Id, status: TaskStatus) {
    id in s.records && s.records[id] == status && status != Queued && status != Running
  }

  // A worker holds an end only if it did before or the step made it; a record has one only if it did
  // before, the step made it, or its worker held it.
  lemma StepCauses(s: State, step: Step, id: Id, status: TaskStatus)
    requires Enabled(s, step)
    ensures HoldsEnd(Next(s, step), id, status) ==> HoldsEnd(s, id, status) || Ends(s, step, id, status)
    ensures Recorded(Next(s, step), id, status) ==>
      Recorded(s, id, status) || Ends(s, step, id, status) || HoldsEnd(s, id, status)
  {
    hide Pump;
    match step
    case StartEnqueue(x, failing) => PumpPumps(s.(saved := s.saved - {x}, queue := s.queue + [x]), failing, id);
    case Cancel(x, failing) =>
      if s.records[x] == Queued && x !in failing {
        PumpPumps(Withdrawn(s, x), failing, id);
      }
    case WorkerLeaves(x, failing) =>
      PumpPumps(s.(workers := s.workers - {x}, cancelled := s.cancelled - {x}), failing, id);
    case _ =>
  }

  ghost predicate Caused(states: seq<State>, steps: seq<Step>, k: nat, id: Id, status: TaskStatus)
    requires k <= |steps| < |states|
  {
    exists i :: 0 <= i < k && Ends(states[i], steps[i], id, status)
  }

  // A task is recorded as over with a status only if some step made that end of it. So a task recorded
  // as done had its executor return without an error, before the deadline and without a pending cancel.
  lemma {:induction false} RecordedIsCaused(
    max: nat, states: seq<State>, steps: seq<Step>, k: nat, id: Id, status: TaskStatus)
    requires IsRun(max, states, steps) && k < |states|
    ensures HoldsEnd(states[k], id, status) || Recorded(states[k], id, status) ==> Caused(states, steps, k, id, status)
  {
    hide Next, Ends, HoldsEnd, Recorded;
    if k == 0 {
      NothingEnded(max, id, status);
    } else {
      RecordedIsCaused(max, states, steps, k - 1, id, status);
      StepCauses(states[k - 1], steps[k - 1], id, status);
      if Ends(states[k - 1], steps[k - 1], id, status) {
        assert Caused(states, steps, k, id, status);
      }
    }
  }

  lemma NothingEnded(max: nat, id: Id, status: TaskStatus)
    ensures !HoldsEnd(Init(max), id, status) && !Recorded(Init(max), id, status)
  {
  }

  lemma DoneMeans(max: nat, states: seq<State>, steps: seq<Step>, k: nat, id: Id)
    requires IsRun(max, states, steps) && k < |states| && id in states[k].records && states[k].records[id] == Done
    ensures exists i :: 0 <= i < k && steps[i] == WorkerEnds(id, false, false) && id !in states[i].cancelled
  {
    hide Next, Init;
    RecordedIsCaused(max, states, steps, k, id, Done);
    var i :| 0 <= i < k && Ends(states[i], steps[i], id, Done);
    assert steps[i] == WorkerEnds(id, false, false);
  }

  // ---- and how that is recorded ----

  lemma EndStays(s: State, step: Step, id: Id, status: TaskStatus)
    requires Enabled(s, step) && HoldsEnd(s, id, status)
    requires step != Crash && !(step.WorkerFinishes? && step.id == id)
    requires id in s.records && s.records[id] != Queued
    ensures HoldsEnd(Next(s, step), id, status)
  {
    hide Pump;
    match step
    case StartEnqueue(x, failing) => PumpSparesEnd(s.(saved := s.saved - {x}, queue := s.queue + [x]), failing, id);
    case Cancel(x, failing) =>
      if s.records[x] == Queued && x !in failing {
        PumpSparesEnd(Withdrawn(s, x), failing, id);
      }
    case WorkerLeaves(x, failing) =>
      PumpSparesEnd(s.(workers := s.workers - {x}, cancelled := s.cancelled - {x}), failing, id);
    case _ =>
  }

  lemma {:induction false} PumpSparesEnd(s: State, failing: set<Id>, id: Id)
    requires id in s.workers && id in s.records && s.records[id] != Queued
    ensures id in Pump(s, failing).workers && Pump(s, failing).workers[id] == s.workers[id]
    decreases |s.queue|
  {
    if |s.workers| < s.max && s.queue != [] {
      PumpSparesEnd(Take(s, failing), failing, id);
    }
  }

  // Between an end and the worker's attempt to record it the process does not die and there is no other
  // attempt.
  ghost predicate Undisturbed(steps: seq<Step>, i: nat, j: nat, id: Id)
    requires j <= |steps|
  {
    forall k :: i < k < j ==> steps[k] != Crash && !(steps[k].WorkerFinishes? && steps[k].id == id)
  }

  lemma {:induction false} EndWaits(
    max: nat, states: seq<State>, steps: seq<Step>, i: nat, j: nat, id: Id, status: TaskStatus)
    requires max > 0 && IsRun(max, states, steps) && i < j < |states| && Undisturbed(steps, i, j, id)
    requires HoldsEnd(states[i + 1], id, status)
    ensures HoldsEnd(states[j], id, status)
    decreases j
  {
    hide Next, Init, HoldsEnd;
    if j > i + 1 {
      EndWaits(max, states, steps, i, j - 1, id, status);
      RunKeeps(max, states, steps, j - 1);
      HeldIsRunning(states[j - 1], id, status);
      EndStays(states[j - 1], steps[j - 1], id, status);
    }
  }

  lemma HeldIsRunning(s: State, id: Id, status: TaskStatus)
    requires Inv(s) && HoldsEnd(s, id, status)
    ensures id in s.records && s.records[id] == Running
  {
    assert WorkerOk(s, id);
  }

  // Where the worker gets to write it, the end is recorded as it was made.
  lemma EndIsRecorded(
    max: nat, states: seq<State>, steps: seq<Step>, i: nat, j: nat, id: Id, status: TaskStatus)
    requires max > 0 && IsRun(max, states, steps) && i < j < |steps| && Undisturbed(steps, i, j, id)
    requires steps[i].WorkerEnds? || steps[i].WorkerCannotRun?
      || (steps[i].WorkerFinishes? && HoldsEnd(states[i + 1], id, Failed))
    requires Ends(states[i], steps[i], id, status) && steps[j] == WorkerFinishes(id, true)
    ensures id in states[j + 1].records && states[j + 1].records[id] == status
  {
    if !steps[i].WorkerFinishes? {
      EndIsHeld(states[i], steps[i], id, status);
    }
    hide Init, HoldsEnd, Ends;
    EndWaits(max, states, steps, i, j, id, status);
    RunKeeps(max, states, steps, j);
    HeldIsRunning(states[j], id, status);
    WrittenIsRecorded(states[j], id, status);
  }

  lemma EndIsHeld(s: State, step: Step, id: Id, status: TaskStatus)
    requires Enabled(s, step) && Ends(s, step, id, status) && (step.WorkerEnds? || step.WorkerCannotRun?)
    ensures HoldsEnd(Next(s, step), id, status)
  {
  }

  lemma WrittenIsRecorded(s: State, id: Id, status: TaskStatus)
    requires Enabled(s, WorkerFinishes(id, true)) && HoldsEnd(s, id, status) && id in s.records && s.records[id] == Running
    ensures var t := Next(s, WorkerFinishes(id, true)); id in t.records && t.records[id] == status
  {
  }

  // ---- the cancels that are pending ----

  ghost predicate Signalled(states: seq<State>, steps: seq<Step>, k: nat, id: Id)
    requires k <= |steps| < |states|
  {
    exists c :: 0 <= c < k && Signals(states[c], steps[c], id)
  }

  // What a step does to the signals of a task that has a worker then.
  lemma StepSignals(s: State, step: Step, id: Id)
    requires Inv(s) && Enabled(s, step) && id in Next(s, step).workers
    ensures id in s.workers ==> (id in Next(s, step).cancelled <==> id in s.cancelled || Signals(s, step, id))
    ensures id !in s.workers ==>
      id !in Next(s, step).cancelled && !Signals(s, step, id) && id in s.records && s.records[id] == Queued
  {
    assert id in s.cancelled ==> id in s.workers;
    assert s.workers != map[] ==> s.up;
    hide Pump, Inv;
    match step
    case StartEnqueue(x, failing) => PumpPumps(s.(saved := s.saved - {x}, queue := s.queue + [x]), failing, id);
    case Cancel(x, failing) =>
      if s.records[x] == Queued && x !in failing {
        PumpPumps(Withdrawn(s, x), failing, id);
      }
    case WorkerLeaves(x, failing) =>
      PumpPumps(s.(workers := s.workers - {x}, cancelled := s.cancelled - {x}), failing, id);
    case _ =>
  }

  lemma {:induction false} NotQueuedAgain(max: nat, states: seq<State>, steps: seq<Step>, i: nat, j: nat, id: Id)
    requires max > 0 && IsRun(max, states, steps) && i <= j < |states|
    requires id in states[i].records && states[i].records[id] != Queued
    ensures id in states[j].records && states[j].records[id] != Queued
    decreases j - i
  {
    hide Inv, Next, Init;
    if i < j {
      NotQueuedAgain(max, states, steps, i, j - 1, id);
      RunKeeps(max, states, steps, j - 1);
      StepKeeps(states[j - 1], steps[j - 1]);
    }
  }

  // While a task has a worker, the signal is there exactly when a cancel reached it while it ran.
  lemma {:induction false} SignalExactly(max: nat, states: seq<State>, steps: seq<Step>, k: nat, id: Id)
    requires max > 0 && IsRun(max, states, steps) && k < |states| && id in states[k].workers
    ensures id in states[k].cancelled <==> Signalled(states, steps, k, id)
  {
    if k > 0 {
      RunKeeps(max, states, steps, k - 1);
      hide Inv, Next, Init;
      StepSignals(states[k - 1], steps[k - 1], id);
      if id in states[k - 1].workers {
        SignalExactly(max, states, steps, k - 1, id);
        hide Signals;
        assert Signalled(states, steps, k, id) <==>
          Signalled(states, steps, k - 1, id) || Signals(states[k - 1], steps[k - 1], id);
      } else {
        forall c | 0 <= c < k - 1 ensures !Signals(states[c], steps[c], id) {
          if Signals(states[c], steps[c], id) {
            NotQueuedAgain(max, states, steps, c, k - 1, id);
          }
        }
      }
    }
  }

  // ---- a returned execution ----

  // What is recorded when an executor has returned and its end could be written: failed where it returned
  // an error, else timeout past the deadline, else cancelled where a cancel reached the running task,
  // else done.
  lemma ReturnIsRecorded(
    max: nat, states: seq<State>, steps: seq<Step>, i: nat, j: nat, id: Id, deadline: bool, errored: bool)
    requires max > 0 && IsRun(max, states, steps) && i < j < |steps| && Undisturbed(steps, i, j, id)
    requires steps[i] == WorkerEnds(id, deadline, errored) && steps[j] == WorkerFinishes(id, true)
    ensures id in states[j + 1].records
    ensures errored ==> states[j + 1].records[id] == Failed
    ensures !errored && deadline ==> states[j + 1].records[id] == Timeout
    ensures !errored && !deadline && Signalled(states, steps, i, id) ==> states[j + 1].records[id] == Cancelled
    ensures !errored && !deadline && !Signalled(states, steps, i, id) ==> states[j + 1].records[id] == Done
  {
    SignalExactly(max, states, steps, i, id);
    var status := if errored then Failed else if deadline then Timeout
                  else if id in states[i].cancelled then Cancelled else Done;
    assert Ends(states[i], steps[i], id, status);
    hide Next, Init, Ends, Signals;
    EndIsRecorded(max, states, steps, i, j, id, status);
  }

  // And the other way round: a task recorded as done had its executor return without an error, before
  // the deadline, and no cancel had reached it by then.
  lemma DoneWasReturned(max: nat, states: seq<State>, steps: seq<Step>, k: nat, id: Id)
    requires max > 0 && IsRun(max, states, steps) && k < |states|
    requires id in states[k].records && states[k].records[id] == Done
    ensures exists i :: 0 <= i < k && steps[i] == WorkerEnds(id, false, false) && !Signalled(states, steps, i, id)
  {
    hide Next, Init, Signals;
    DoneMeans(max, states, steps, k, id);
    var i :| 0 <= i < k && steps[i] == WorkerEnds(id, false, false) && id !in states[i].cancelled;
    SignalExactly(max, states, steps, i, id);
  }

  // A worker that cannot run its task, or cannot write its end, records a failure if it can.
  lemma FailureIsRecorded(max: nat, states: seq<State>, steps: seq<Step>, i: nat, j: nat, id: Id)
    requires max > 0 && IsRun(max, states, steps) && i < j < |steps| && Undisturbed(steps, i, j, id)
    requires steps[i] == WorkerCannotRun(id)
      || (steps[i] == WorkerFinishes(id, false) && states[i].workers[id] != Ended(Failed))
    requires steps[j] == WorkerFinishes(id, true)
    ensures id in states[j + 1].records && states[j + 1].records[id] == Failed
  {
    if steps[i].WorkerFinishes? {
      RunKeeps(max, states, steps, i);
      HeldIsRunning(states[i], id, states[i].workers[id].status);
      assert HoldsEnd(states[i + 1], id, Failed);
    }
    assert Ends(states[i], steps[i], id, Failed);
    hide Next, Init, Ends, HoldsEnd;
    EndIsRecorded(max, states, steps, i, j, id, Failed);
  }
}
