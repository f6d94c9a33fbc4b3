// The manager itself: each method is one critical section, one executor event or one store write,
// and does exactly the step of the model that carries its name.
module TaskManager {
  import opened Ordering
  import opened TaskModel
  import TaskLaws

  class Manager {
    const maxConcurrent: nat

    // The durable records; everything below is lost with the process.
    var records: map<Id, TaskStatus>
    var queue: seq<Id>
    var active: set<Id>
    // Active tasks whose context was cancelled.
    var contextCancelled: set<Id>

    // The worker goroutines and the calls of Start that have saved but not enqueued.
    ghost var workers: map<Id, Phase>
    ghost var saved: set<Id>
    ghost var up: bool
    ghost var log: seq<Id>
    ghost var cancelledQueued: set<Id>
    ghost var lost: set<Id>

    ghost function Abs(): State
      reads this
    {
      State(maxConcurrent, up, records, queue, workers, contextCancelled, saved, log, cancelledQueued, lost)
    }

    ghost predicate Valid()
      reads this
    {
      active == workers.Keys && Inv(Abs())
    }

    constructor (maxConcurrent: nat)
      ensures Valid() && Abs() == Init(if maxConcurrent == 0 then 1 else maxConcurrent)
    {
      var slots := if maxConcurrent == 0 then 1 else maxConcurrent;
      this.maxConcurrent := slots;
      records, queue, active, contextCancelled := map[], [], {}, {};
      workers, saved, up, log, cancelledQueued, lost := map[], {}, true, [], {}, {};
      new;
      TaskLaws.InitIsFine(slots);
    }

    // One turn of the pump.
    method TakeNext(failing: set<Id>)
      requires active == workers.Keys && queue != []
      modifies this
      ensures active == workers.Keys && Abs() == Take(old(Abs()), failing)
    {
      var id := queue[0];
      queue := queue[1..];
      if id in records && records[id] == Queued {
        if id in failing {
          lost := lost + {id};
        } else {
          records := records[id := Running];
          active := active + {id};
          workers := workers[id := Spawned];
        }
      }
    }

    method PumpLocked(failing: set<Id>)
      requires active == workers.Keys && Basic(Abs()) && up
      modifies this
      ensures Valid() && Abs() == Pump(old(Abs()), failing)
    {
      hide Basic, Take, Inv;
      TaskLaws.PumpKeeps(Abs(), failing);
      ghost var target := Pump(Abs(), failing);
      SameSize(workers, active);
      while |active| < maxConcurrent && queue != []
        invariant active == workers.Keys && |active| == |workers| && Pump(Abs(), failing) == target
        decreases |queue|
      {
        TaskLaws.TakeShrinks(Abs(), failing);
        TakeNext(failing);
        SameSize(workers, active);
      }
    }

    // Start, first section: the record is written. The id is new.
    method StartSave(id: Id, writable: bool) returns (ok: bool)
      requires Valid() && up && id !in records
      modifies this
      ensures Valid() && ok == writable
      ensures Abs() == if writable then Next(old(Abs()), TaskModel.StartSave(id)) else old(Abs())
    {
      ok := writable;
      if writable {
        TaskLaws.StepKeeps(Abs(), TaskModel.StartSave(id));
        records := records[id := Queued];
        saved := saved + {id};
      }
    }

    // Start, second section: the task is enqueued under the mutex.
    method StartEnqueue(id: Id, failing: set<Id>)
      requires Valid() && up && id in saved
      modifies this
      ensures Valid() && Abs() == Next(old(Abs()), TaskModel.StartEnqueue(id, failing))
    {
      TaskLaws.EnqueueKeepsBasic(Abs(), id);
      saved := saved - {id};
      queue := queue + [id];
      PumpLocked(failing);
    }

    method RemoveQueued(id: Id)
      requires active == workers.Keys
      modifies this`queue
      ensures queue == RemoveFirst(old(queue), id)
    {
      for index := 0 to |queue|
        invariant queue == old(queue)
        invariant RemoveFirst(queue, id) == queue[..index] + RemoveFirst(queue[index..], id)
      {
        assert queue[index..] == [queue[index]] + queue[index + 1..];
        if queue[index] == id {
          queue := queue[..index] + queue[index + 1..];
          return;
        }
        assert queue[..index + 1] == queue[..index] + [queue[index]];
      }
      assert queue[..|queue|] + [] == queue;
    }

    method Cancel(id: Id, failing: set<Id>) returns (known: bool, status: TaskStatus)
      requires Valid() && up
      modifies this
      ensures Valid() && known == (id in old(records))
      ensures Abs() == if known then Next(old(Abs()), TaskModel.Cancel(id, failing)) else old(Abs())
      ensures known && old(records)[id] == Queued && id !in failing ==> status == Cancelled
    {
      known, status := id in records, Queued;
      if !known {
        return;
      }
      status := records[id];
      match status
      case Queued =>
        if id !in failing {
          TaskLaws.CancelKeepsBasic(Abs(), id);
          records := records[id := Cancelled];
          status := Cancelled;
          cancelledQueued := cancelledQueued + {id};
          RemoveQueued(id);
          PumpLocked(failing);
        }
      case Running =>
        TaskLaws.StepKeeps(Abs(), TaskModel.Cancel(id, failing));
        if id in active {
          contextCancelled := contextCancelled + {id};
        }
      case _ =>
    }

    // ---- a worker's life ----

    method WorkerRuns(id: Id)
      requires Valid() && Enabled(Abs(), TaskModel.WorkerRuns(id))
      modifies this
      ensures Valid() && Abs() == Next(old(Abs()), TaskModel.WorkerRuns(id))
    {
      TaskLaws.StepKeeps(Abs(), TaskModel.WorkerRuns(id));
      workers := workers[id := Executing];
      log := log + [id];
    }

    method WorkerCannotRun(id: Id)
      requires Valid() && Enabled(Abs(), TaskModel.WorkerCannotRun(id))
      modifies this
      ensures Valid() && Abs() == Next(old(Abs()), TaskModel.WorkerCannotRun(id))
    {
      TaskLaws.StepKeeps(Abs(), TaskModel.WorkerCannotRun(id));
      workers := workers[id := Ended(Failed)];
    }

    method WorkerEnds(id: Id, deadline: bool, errored: bool)
      requires Valid() && Enabled(Abs(), TaskModel.WorkerEnds(id, deadline, errored))
      modifies this
      ensures Valid() && Abs() == Next(old(Abs()), TaskModel.WorkerEnds(id, deadline, errored))
    {
      TaskLaws.StepKeeps(Abs(), TaskModel.WorkerEnds(id, deadline, errored));
      workers := workers[id := Ended(EndStatus(id in contextCancelled, deadline, errored))];
    }

    // finish takes the store lock only; status is what the worker brought along.
    method WorkerFinishes(id: Id, status: TaskStatus, written: bool)
      requires Valid() && Enabled(Abs(), TaskModel.WorkerFinishes(id, written)) && workers[id] == Ended(status)
      modifies this
      ensures Valid() && Abs() == Next(old(Abs()), TaskModel.WorkerFinishes(id, written))
    {
      TaskLaws.StepKeeps(Abs(), TaskModel.WorkerFinishes(id, written));
      var phase := Closed;
      if id in records && records[id] == Running {
        if written {
          records := records[id := status];
        } else if status != Failed {
          phase := Ended(Failed);
        } else {
          lost := lost + {id};
        }
      }
      workers := workers[id := phase];
    }

    method WorkerLeaves(id: Id, failing: set<Id>)
      requires Valid() && up && Enabled(Abs(), TaskModel.WorkerLeaves(id, failing))
      modifies this
      ensures Valid() && Abs() == Next(old(Abs()), TaskModel.WorkerLeaves(id, failing))
    {
      TaskLaws.LeaveKeepsBasic(Abs(), id);
      workers := workers - {id};
      active := active - {id};
      contextCancelled := contextCancelled - {id};
      PumpLocked(failing);
    }

    // ---- restart ----

    method Crash()
      requires Valid() && up
      modifies this
      ensures Valid() && Abs() == Next(old(Abs()), TaskModel.Crash)
    {
      TaskLaws.StepKeeps(Abs(), TaskModel.Crash);
      up := false;
      queue, active, contextCancelled := [], {}, {};
      workers, saved := map[], {};
    }

    // The start-up pass over the listed records; it gives up at the first one it cannot write.
    method RecoverOrphans(listing: seq<Id>, writable: Id -> bool) returns (ok: bool, ghost reached: set<Id>)
      requires Valid() && !up && Distinct(listing) && Elements(listing) == records.Keys
      modifies this
      ensures Valid() && reached <= old(records).Keys && Abs() == Next(old(Abs()), TaskModel.Recover(reached))
      ensures ok == up
      ensures ok ==> forall id :: id in records ==> Terminal(records[id])
    {
      hide Inv, RecoverRecords;
      ghost var start := Abs();
      reached := {};
      NothingRecovered(records);
      assert Elements(listing[..0]) == {};
      for k := 0 to |listing|
        invariant reached == Elements(listing[..k]) && reached <= start.records.Keys
        invariant records == RecoverRecords(start.records, reached)
        invariant unchanged(`queue) && unchanged(`active) && unchanged(`contextCancelled) && unchanged(`workers)
        invariant unchanged(`saved) && unchanged(`up) && unchanged(`log) && unchanged(`cancelledQueued) && unchanged(`lost)
      {
        var id := listing[k];
        NextListed(listing, k);
        RecoverNext(start.records, reached, id);
        if !Terminal(records[id]) {
          if !writable(id) {
            TaskLaws.StepKeeps(start, TaskModel.Recover(reached));
            ok := false;
            return;
          }
          records := records[id := Failed];
        }
        reached := reached + {id};
      }
      assert listing[..|listing|] == listing;
      TaskLaws.StepKeeps(start, TaskModel.Recover(reached));
      AllRecovered(start.records);
      up := true;
      ok := true;
    }
  }

  lemma NothingRecovered(records: map<Id, TaskStatus>)
    ensures RecoverRecords(records, {}) == records
  {
  }

  lemma NextListed(listing: seq<Id>, k: nat)
    requires Distinct(listing) && k < |listing|
    ensures listing[k] in Elements(listing) && listing[k] !in Elements(listing[..k])
    ensures Elements(listing[..k + 1]) == Elements(listing[..k]) + {listing[k]}
  {
    assert listing[..k + 1] == listing[..k] + [listing[k]];
    ElementsConcat(listing[..k], [listing[k]]);
    ElementsSingle(listing[k]);
  }

  lemma RecoverNext(records: map<Id, TaskStatus>, reached: set<Id>, id: Id)
    requires id in records && id !in reached && reached <= records.Keys
    ensures var now := RecoverRecords(records, reached);
      && now.Keys == records.Keys && now[id] == records[id]
      && RecoverRecords(records, reached + {id}) == if Terminal(records[id]) then now else now[id := Failed]
  {
  }

  lemma AllRecovered(records: map<Id, TaskStatus>)
    ensures RecoverRecords(records, records.Keys).Keys == records.Keys
    ensures forall id :: id in records ==> Terminal(RecoverRecords(records, records.Keys)[id])
  {
  }

  lemma SameSize(workers: map<Id, Phase>, active: set<Id>)
    requires active == workers.Keys
    ensures |active| == |workers|
  {
    assert |workers.Keys| == |workers|;
  }
}
