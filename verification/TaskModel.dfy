// The bounded-concurrency task manager as a state machine: one step per critical section, per
// executor call and per store write, so that every interleaving of callers and workers is a run.
module TaskModel {
  import opened Ordering

  type Id = string

  datatype TaskStatus = Queued | Running | Done | Failed | Cancelled | Timeout

  predicate Terminal(status: TaskStatus) {
    status != Queued && status != Running
  }

  // Task.Transition.
  predicate Transition(from: TaskStatus, next: TaskStatus) {
    || from == next
    || (from == Queued && (next == Running || next == Failed || next == Cancelled))
    || (from == Running && (next == Done || next == Failed || next == Cancelled || next == Timeout))
  }

  // Where a worker goroutine is: started, inside the executor, holding a terminal status to
  // record, or about to leave.
  datatype Phase = Spawned | Executing | Ended(status: TaskStatus) | Closed

  // records is the durable store; queue, workers and cancelled are the manager's memory (workers'
  // keys are its active set). saved are Start calls between saving and enqueueing. The last three
  // are history: executor calls, tasks cancelled while queued, and tasks a failed write left behind.
  datatype State = State(
    max: nat,
    up: bool,
    records: map<Id, TaskStatus>,
    queue: seq<Id>,
    workers: map<Id, Phase>,
    cancelled: set<Id>,
    saved: set<Id>,
    log: seq<Id>,
    cancelledQueued: set<Id>,
    lost: set<Id>)

  function Init(max: nat): State {
    State(max, true, map[], [], map[], {}, {}, [], {}, {})
  }

  // ---- the steps ----

  // Failing sets name the tasks whose record cannot be read or written during the step.
  datatype Step =
    | StartSave(id: Id)
    | StartEnqueue(id: Id, failing: set<Id>)
    | Cancel(id: Id, failing: set<Id>)
    | WorkerRuns(id: Id)
    | WorkerCannotRun(id: Id)
    | WorkerEnds(id: Id, deadline: bool, errored: bool)
    | WorkerFinishes(id: Id, written: bool)
    | WorkerLeaves(id: Id, failing: set<Id>)
    | Crash
    | Recover(reached: set<Id>)

  function Take(s: State, failing: set<Id>): State
    requires s.queue != []
  {
    var id, rest := s.queue[0], s.(queue := s.queue[1..]);
    if id in s.records && s.records[id] == Queued then
      if id in failing then rest.(lost := rest.lost + {id})
      else rest.(records := rest.records[id := Running], workers := rest.workers[id := Spawned])
    else rest
  }

  // pumpLocked.
  function Pump(s: State, failing: set<Id>): State
    decreases |s.queue|
  {
    if |s.workers| < s.max && s.queue != [] then Pump(Take(s, failing), failing) else s
  }

  function RemoveFirst(queue: seq<Id>, id: Id): seq<Id> {
    if queue == [] then [] else if queue[0] == id then queue[1..] else [queue[0]] + RemoveFirst(queue[1..], id)
  }

  // taskTerminalStatus, after an executor that returned an error or not.
  function EndStatus(cancelled: bool, deadline: bool, errored: bool): TaskStatus {
    if errored then Failed else if deadline then Timeout else if cancelled then Cancelled else Done
  }

  predicate Enabled(s: State, step: Step) {
    match step
    case StartSave(id) => s.up && id !in s.records
    case StartEnqueue(id, _) => s.up && id in s.saved
    case Cancel(id, _) => s.up && id in s.records
    case WorkerRuns(id) => id in s.workers && s.workers[id] == Spawned
    case WorkerCannotRun(id) => id in s.workers && s.workers[id] == Spawned
    case WorkerEnds(id, _, _) => id in s.workers && s.workers[id] == Executing
    case WorkerFinishes(id, _) => id in s.workers && s.workers[id].Ended?
    case WorkerLeaves(id, _) => id in s.workers && s.workers[id] == Closed
    case Crash => s.up
    case Recover(reached) => !s.up && reached <= s.records.Keys
  }

  function CancelStep(s: State, id: Id, failing: set<Id>): State
    requires id in s.records
  {
    match s.records[id]
    case Queued =>
      if id in failing then s
      else
        Pump(s.(
          records := s.records[id := Cancelled],
          queue := RemoveFirst(s.queue, id),
          cancelledQueued := s.cancelledQueued + {id}), failing)
    case Running => if id in s.workers then s.(cancelled := s.cancelled + {id}) else s
    case _ => s
  }

  // finish: only a running record is changed. When the write fails the worker tries once more to
  // record a failure.
  function FinishStep(s: State, id: Id, written: bool): State
    requires id in s.workers && s.workers[id].Ended?
  {
    var status := s.workers[id].status;
    if id !in s.records || s.records[id] != Running then s.(workers := s.workers[id := Closed])
    else if written then s.(records := s.records[id := status], workers := s.workers[id := Closed])
    else if status != Failed then s.(workers := s.workers[id := Ended(Failed)])
    else s.(workers := s.workers[id := Closed], lost := s.lost + {id})
  }

  function RecoverRecords(records: map<Id, TaskStatus>, reached: set<Id>): map<Id, TaskStatus> {
    map id | id in records :: if id in reached && !Terminal(records[id]) then Failed else records[id]
  }

  function Next(s: State, step: Step): State
    requires Enabled(s, step)
  {
    match step
    case StartSave(id) => s.(records := s.records[id := Queued], saved := s.saved + {id})
    case StartEnqueue(id, failing) => Pump(s.(saved := s.saved - {id}, queue := s.queue + [id]), failing)
    case Cancel(id, failing) => CancelStep(s, id, failing)
    case WorkerRuns(id) => s.(workers := s.workers[id := Executing], log := s.log + [id])
    case WorkerCannotRun(id) => s.(workers := s.workers[id := Ended(Failed)])
    case WorkerEnds(id, deadline, errored) =>
      s.(workers := s.workers[id := Ended(EndStatus(id in s.cancelled, deadline, errored))])
    case WorkerFinishes(id, written) => FinishStep(s, id, written)
    case WorkerLeaves(id, failing) =>
      Pump(s.(workers := s.workers - {id}, cancelled := s.cancelled - {id}), failing)
    case Crash => s.(up := false, queue := [], workers := map[], cancelled := {}, saved := {})
    case Recover(reached) =>
      s.(records := RecoverRecords(s.records, reached), up := reached == s.records.Keys)
  }

  // ---- the invariant ----

  // A task that still waits: known, queued or cancelled before it ran, and never executed.
  ghost predicate Waits(s: State, id: Id) {
    && id in s.records && (s.records[id] == Queued || s.records[id] == Cancelled)
    && id !in s.workers && id !in s.log
  }

  ghost predicate QueueInv(s: State) {
    && Distinct(s.queue)
    && (forall id :: id in s.queue ==> Waits(s, id) && id !in s.saved)
    && (forall id :: id in s.saved ==> Waits(s, id))
  }

  ghost predicate WorkerOk(s: State, id: Id)
    requires id in s.workers
  {
    && id in s.records
    && (s.workers[id] == Spawned ==> id !in s.log)
    && (s.workers[id] != Closed ==> s.records[id] == Running)
    && (s.workers[id] == Closed ==> s.records[id] != Queued)
    && (s.workers[id] == Closed && s.records[id] == Running ==> id in s.lost)
    && (s.workers[id].Ended? ==> Terminal(s.workers[id].status))
  }

  ghost predicate WorkerInv(s: State) {
    && |s.workers| <= s.max
    && (forall id :: id in s.workers ==> WorkerOk(s, id))
    && s.cancelled <= s.workers.Keys
  }

  ghost predicate HistoryInv(s: State) {
    && Distinct(s.log)
    && (forall id :: id in s.log ==> id in s.records && s.records[id] != Queued)
    && (forall id :: id in s.cancelledQueued ==> id in s.records && s.records[id] == Cancelled && id !in s.log)
  }

  // While the manager is up, a task that is not over is in somebody's hands or lost to a failed write.
  ghost predicate HeldInv(s: State) {
    s.up ==> forall id :: id in s.records && !Terminal(s.records[id]) ==>
      id in s.queue || id in s.saved || id in s.workers || id in s.lost
  }

  ghost predicate DownInv(s: State) {
    !s.up ==> s.queue == [] && s.workers == map[] && s.saved == {}
  }

  ghost predicate Basic(s: State) {
    s.max > 0 && QueueInv(s) && WorkerInv(s) && HistoryInv(s) && HeldInv(s) && DownInv(s)
  }

  // With the mutex free nothing waits next to a free slot.
  ghost predicate Settled(s: State) {
    s.queue == [] || |s.workers| == s.max
  }

  ghost predicate Inv(s: State) {
    Basic(s) && Settled(s)
  }
}
