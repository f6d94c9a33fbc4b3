// The queue is served in the order of arrival.
module TaskOrder {
  import opened Ordering
  import opened TaskModel
  import opened TaskLaws

  predicate Ahead(queue: seq<Id>, x: Id, y: Id) {
    if queue == [] then false
    else if queue[0] == x then y in queue[1..]
    else queue[0] != y && Ahead(queue[1..], x, y)
  }

  lemma {:induction false} AheadMeans(queue: seq<Id>, x: Id, y: Id)
    ensures Ahead(queue, x, y) ==> exists a, b :: 0 <= a < b < |queue| && queue[a] == x && queue[b] == y
  {
    if Ahead(queue, x, y) {
      if queue[0] == x {
        var b :| 0 <= b < |queue| - 1 && queue[1..][b] == y;
        assert queue[0] == x && queue[b + 1] == y;
      } else {
        AheadMeans(queue[1..], x, y);
        var a, b :| 0 <= a < b < |queue| - 1 && queue[1..][a] == x && queue[1..][b] == y;
        assert queue[a + 1] == x && queue[b + 1] == y;
      }
    }
  }

  lemma {:induction false} BothAhead(queue: seq<Id>, x: Id, y: Id)
    requires x in queue && y !in queue
    ensures Ahead(queue + [y], x, y)
  {
    var rest := queue[1..];
    assert queue == [queue[0]] + rest && (queue + [y])[1..] == rest + [y];
    if queue[0] != x {
      BothAhead(rest, x, y);
    }
  }

  lemma {:induction false} AppendServes(queue: seq<Id>, id: Id, x: Id, y: Id)
    requires Ahead(queue, x, y)
    ensures Ahead(queue + [id], x, y)
  {
    assert (queue + [id])[1..] == queue[1..] + [id];
    if queue[0] != x {
      AppendServes(queue[1..], id, x, y);
    }
  }

  lemma {:induction false} RemoveServes(queue: seq<Id>, id: Id, x: Id, y: Id)
    requires Distinct(queue) && Ahead(queue, x, y) && id != x && id != y
    ensures Ahead(RemoveFirst(queue, id), x, y)
  {
    if queue[0] != id {
      var rest := RemoveFirst(queue[1..], id);
      assert RemoveFirst(queue, id)[1..] == rest;
      RemoveFirstKeeps(queue[1..], id);
      if queue[0] != x {
        RemoveServes(queue[1..], id, x, y);
      }
    }
  }

  // While x waits, y waits behind it, or has been cancelled.
  ghost predicate InTurn(s: State, x: Id, y: Id) {
    && x != y && x in s.records && y in s.records && x !in s.saved && y !in s.saved
    && (x in s.queue ==> Ahead(s.queue, x, y) || (y !in s.queue && s.records[y] == Cancelled))
  }

  lemma {:induction false} PumpServes(s: State, failing: set<Id>, x: Id, y: Id)
    requires QueueInv(s) && InTurn(s, x, y)
    ensures InTurn(Pump(s, failing), x, y)
    decreases |s.queue|
  {
    hide QueueInv;
    if |s.workers| < s.max && s.queue != [] {
      TakeQueue(s, failing);
      TakeServes(s, failing, x, y);
      PumpServes(Take(s, failing), failing, x, y);
    }
  }

  lemma TakeServes(s: State, failing: set<Id>, x: Id, y: Id)
    requires QueueInv(s) && s.queue != [] && InTurn(s, x, y)
    ensures InTurn(Take(s, failing), x, y)
  {
    HeadWaits(s);
    hide QueueInv;
  }

  lemma ServesStep(s: State, step: Step, x: Id, y: Id)
    requires Inv(s) && Enabled(s, step) && InTurn(s, x, y)
    ensures InTurn(Next(s, step), x, y)
  {
    hide Pump, QueueInv, WorkerInv, HistoryInv, HeldInv;
    match step
    case StartEnqueue(id, failing) =>
      EnqueueKeepsBasic(s, id);
      if Ahead(s.queue, x, y) {
        AppendServes(s.queue, id, x, y);
      }
      hide Ahead;
      PumpServes(s.(saved := s.saved - {id}, queue := s.queue + [id]), failing, x, y);
    case Cancel(id, failing) =>
      if s.records[id] == Queued && id !in failing {
        CancelServes(s, id, x, y);
        PumpServes(Withdrawn(s, id), failing, x, y);
      }
    case WorkerLeaves(id, failing) =>
      LeaveKeepsBasic(s, id);
      PumpServes(s.(workers := s.workers - {id}, cancelled := s.cancelled - {id}), failing, x, y);
    case _ =>
  }

  lemma CancelServes(s: State, id: Id, x: Id, y: Id)
    requires Inv(s) && s.up && id in s.records && s.records[id] == Queued && InTurn(s, x, y)
    ensures QueueInv(Withdrawn(s, id)) && InTurn(Withdrawn(s, id), x, y)
  {
    CancelKeepsBasic(s, id);
    RemoveFirstKeeps(s.queue, id);
    hide Ahead, WorkerInv, HistoryInv, HeldInv;
    if id != x && id != y && Ahead(s.queue, x, y) {
      RemoveServes(s.queue, id, x, y);
    }
  }

  // A task enqueued while another one waits is not taken before that one: as long as the earlier waits,
  // the later waits behind it, unless it was cancelled.
  lemma {:induction false} ServedInOrder(
    max: nat, states: seq<State>, steps: seq<Step>, j: nat, k: nat, x: Id, y: Id)
    requires max > 0 && IsRun(max, states, steps) && j < k < |states|
    requires steps[j].StartEnqueue? && steps[j].id == y && x in states[j].queue
    ensures InTurn(states[k], x, y)
    decreases k
  {
    RunKeeps(max, states, steps, k - 1);
    if k > j + 1 {
      hide Inv, Next, Init, InTurn;
      ServedInOrder(max, states, steps, j, k - 1, x, y);
      ServesStep(states[k - 1], steps[k - 1], x, y);
    } else {
      ArrivesBehind(states[j], x, y, steps[j].failing);
    }
  }

  lemma ArrivesBehind(s: State, x: Id, y: Id, failing: set<Id>)
    requires Inv(s) && s.up && y in s.saved && x in s.queue
    ensures InTurn(Next(s, StartEnqueue(y, failing)), x, y)
  {
    EnqueueKeepsBasic(s, y);
    BothAhead(s.queue, x, y);
    hide Ahead, WorkerInv, HistoryInv, HeldInv, Pump;
    PumpServes(s.(saved := s.saved - {y}, queue := s.queue + [y]), failing, x, y);
  }
}
