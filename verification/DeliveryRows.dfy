/**
 * What happens to a row and to the queue, step by step and over runs: rows outlive everything but their deletion,
 * and the records that other laws speak of are records of steps that were taken.
 */
module DeliveryRows {
  import opened Delivery
  import opened DeliveryLaws

  // One step and one row

  /** The step writes the row of the id. */
  predicate Writes(s: State, step: Step, id: Id) {
    match step
    case Mark(h, ok) => ok && h in s.handlers && s.handlers[h] == Inserted(id, true)
    case Settle(h, ok) => ok && h in s.handlers && s.handlers[h].Delivered? && s.handlers[h].id == id
    case Write(k, ok) => ok && k < |s.senders| && s.senders[k].Finished? && s.senders[k].id == id
    case _ => false
  }

  /** The status such a step writes. */
  function Written(s: State, step: Step, id: Id): Status
    requires Writes(s, step, id)
  {
    match step
    case Mark(_, _) => AsyncPending
    case Settle(h, _) => if s.handlers[h].sent then Sent else Failed
    case Write(k, _) => if s.senders[k].sent then Sent else Failed
  }

  predicate Deletes(step: Step, id: Id) {
    step.Delete? && id in step.ids
  }

  lemma HandlerRow(s: State, step: Step, id: Id)
    requires HandlersOwnIds(s) && id in s.rows && (step.Begin? || step.BeginFails? || step.Mark? || step.Enqueue?
                                                   || step.Deliver? || step.Settle?)
    ensures var rows := ApplyHandler(s, step).rows;
            id in rows && rows[id] == if Writes(s, step, id) then Written(s, step, id) else s.rows[id]
  {
  }

  lemma SenderRow(s: State, step: Step, id: Id)
    requires id in s.rows && (step.Take? || step.Fetch? || step.Send? || step.Write?)
    ensures var rows := ApplySender(s, step).rows;
            id in rows && rows[id] == if Writes(s, step, id) then Written(s, step, id) else s.rows[id]
  {
  }

  /** A row is there after every step but its deletion, and has the status written, or else the one it had. */
  lemma RowOutlives(s: State, step: Step, id: Id)
    requires HandlersOwnIds(s) && id in s.rows
    ensures var rows := Apply(s, step).rows;
            && (id in rows <==> !Deletes(step, id))
            && (id in rows ==> rows[id] == if Writes(s, step, id) then Written(s, step, id) else s.rows[id])
  {
    hide ApplyHandler, ApplySender, HandlersOwnIds;
    match step {
      case Query(_) | Push => LoaderSparesRows(s, step);
      case Take(_) | Fetch(_, _) | Send(_, _) | Write(_, _) => SenderRow(s, step, id);
      case Delete(_) =>
      case Crash =>
      case _ => HandlerRow(s, step, id);
    }
  }

  /** Rows come from inserts only, with an id never used before. */
  lemma NewRow(s: State, step: Step, id: Id)
    requires HandlersOwnIds(s) && id !in s.rows
    ensures var s' := Apply(s, step);
            && (id in s'.rows <==> step.Begin? && step.h !in s.handlers && id == s.nextId)
            && (id in s'.rows ==> s'.rows[id] == Pending && s'.nextId == id + 1)
  {
    hide ApplyLoader;
    LoaderSparesRows(s, step);
  }

  // A queued message over a run

  /** A sender that finished the message writes its row. */
  ghost predicate IsFinishedBy(s: State, step: Step, id: Id) {
    step.Write? && Writes(s, step, id)
  }

  lemma QueuedRowStays(s: State, step: Step, id: Id)
    requires Inv(s) && IsAsyncPending(s.rows, id) && !Deletes(step, id)
    ensures IsAsyncPending(Apply(s, step).rows, id) || IsFinishedBy(s, step, id)
    ensures id in Apply(s, step).rows
  {
    hide Accounted, LoaderOnce, SentIsAcked, NoneLost, IsFound, Apply;
    RowOutlives(s, step, id);
  }

  ghost predicate FinishedAt(steps: seq<Step>, j: nat, id: Id) {
    j < |steps| && IsFinishedBy(After(steps[..j]), steps[j], id)
  }

  /**
   * From the moment a row says AsyncPending it is there in every continuation that does not delete it, crashes or
   * not, and says AsyncPending until a sender that finished the message writes what became of it.
   */
  lemma {:induction false} QueuedSurvives(steps: seq<Step>, more: seq<Step>, id: Id)
    requires IsAsyncPending(After(steps).rows, id)
    requires forall j :: 0 <= j < |more| ==> !Deletes(more[j], id)
    ensures id in After(steps + more).rows
    ensures IsAsyncPending(After(steps + more).rows, id)
            || exists j :: |steps| <= j && FinishedAt(steps + more, j, id)
    decreases |more|
  {
    hide After, Apply, Inv, IsFinishedBy;
    if more == [] {
      assert steps + more == steps;
    } else {
      var m := |more| - 1;
      var all, before := steps + more, steps + more[..m];
      QueuedSurvives(steps, more[..m], id);
      RunKeepsInv(before);
      AfterMore(steps, more);
      assert all[..|all| - 1] == before && all[|all| - 1] == more[m];
      if IsAsyncPending(After(before).rows, id) {
        QueuedRowStays(After(before), more[m], id);
        assert IsFinishedBy(After(before), more[m], id) ==> FinishedAt(all, |all| - 1, id);
      } else {
        var j :| |steps| <= j && FinishedAt(before, j, id);
        assert all[..j] == before[..j];
        assert FinishedAt(all, j, id);
        OthersOutlive(After(before), more[m], id);
      }
    }
  }

  lemma OthersOutlive(s: State, step: Step, id: Id)
    requires Inv(s) && id in s.rows && !Deletes(step, id)
    ensures id in Apply(s, step).rows
  {
    hide Accounted, LoaderOnce, InsertedIsPending, SentIsAcked, NoneLost, Apply, HandlersOwnIds;
    RowOutlives(s, step, id);
  }

  // What the records record

  /** A send of the message returns nil. */
  ghost predicate Accepts(s: State, step: Step, id: Id) {
    || (step.Send? && step.sent && step.k < |s.senders| && s.senders[step.k] == Fetched(id))
    || (step.Deliver? && step.sent && step.h in s.handlers && s.handlers[step.h] == Inserted(id, false))
  }

  /** A sender's database call for the message fails. */
  ghost predicate Faults(s: State, step: Step, id: Id) {
    || (step.Fetch? && !step.ok && step.k < |s.senders| && s.senders[step.k] == Holding(id))
    || (step.Write? && !step.ok && step.k < |s.senders| && s.senders[step.k].Finished? && s.senders[step.k].id == id)
  }

  /** The message's AsyncPending status is written. */
  ghost predicate Marks(s: State, step: Step, id: Id) {
    step.Mark? && step.ok && step.h in s.handlers && s.handlers[step.h] == Inserted(id, true)
  }

  ghost predicate AcceptedAt(steps: seq<Step>, j: nat, id: Id) {
    j < |steps| && Accepts(After(steps[..j]), steps[j], id)
  }

  ghost predicate FaultAt(steps: seq<Step>, j: nat, id: Id) {
    j < |steps| && Faults(After(steps[..j]), steps[j], id)
  }

  ghost predicate MarkedAt(steps: seq<Step>, j: nat, id: Id) {
    j < |steps| && Marks(After(steps[..j]), steps[j], id)
  }

  lemma StepRecords(s: State, step: Step, id: Id)
    requires |s.senders| == 2
    ensures var s' := Apply(s, step);
            && (id in s'.acked ==> id in s.acked || Accepts(s, step, id))
            && (id in s'.faults ==> !step.Crash? && (id in s.faults || Faults(s, step, id)))
            && (id in s'.marked ==> !step.Crash? && (id in s.marked || Marks(s, step, id)))
            && (id in s'.markedBefore ==>
                  !step.Crash? && (id in s.markedBefore || (step.Query? && s.loader.Waiting? && id in s.marked)))
  {
    hide SetStatus, IsQueryResult;
  }

  lemma Earlier(steps: seq<Step>, j: nat)
    requires steps != [] && j < |steps| - 1
    ensures steps[..|steps| - 1][..j] == steps[..j] && steps[..|steps| - 1][j] == steps[j]
  {
  }

  /** Every message on record as accepted was accepted in some step. */
  lemma {:induction false} AckedWasAccepted(steps: seq<Step>, id: Id) returns (j: nat)
    requires id in After(steps).acked
    ensures AcceptedAt(steps, j, id)
    decreases |steps|
  {
    hide Apply, Accepts;
    j := |steps| - 1;
    StepRecords(After(steps[..j]), steps[j], id);
    if !Accepts(After(steps[..j]), steps[j], id) {
      var i := AckedWasAccepted(steps[..j], id);
      Earlier(steps, i);
      j := i;
    }
  }

  /** A row says Sent only if in some step a send of that message returned nil. */
  lemma {:induction false} SentWasReturned(steps: seq<Step>, id: Id)
    requires id in After(steps).rows && After(steps).rows[id] == Sent
    ensures exists j :: AcceptedAt(steps, j, id)
  {
    hide After, AcceptedAt;
    SentWasAccepted(steps, id);
    var j := AckedWasAccepted(steps, id);
  }

  lemma {:induction false} FaultWasFailure(steps: seq<Step>, id: Id) returns (j: nat)
    requires id in After(steps).faults
    ensures FaultAt(steps, j, id) && Crash !in steps[j..]
    decreases |steps|
  {
    hide Apply, Faults;
    j := |steps| - 1;
    StepRecords(After(steps[..j]), steps[j], id);
    if !Faults(After(steps[..j]), steps[j], id) {
      var i := FaultWasFailure(steps[..j], id);
      Earlier(steps, i);
      assert steps[i..] == steps[..j][i..] + [steps[j]];
      j := i;
    }
  }

  lemma {:induction false} MarkedWasWritten(steps: seq<Step>, id: Id) returns (j: nat)
    requires id in After(steps).marked
    ensures MarkedAt(steps, j, id) && Crash !in steps[j..]
    decreases |steps|
  {
    hide Apply, Marks;
    j := |steps| - 1;
    StepRecords(After(steps[..j]), steps[j], id);
    if !Marks(After(steps[..j]), steps[j], id) {
      var i := MarkedWasWritten(steps[..j], id);
      Earlier(steps, i);
      assert steps[i..] == steps[..j][i..] + [steps[j]];
      j := i;
    }
  }

  /** The loader's query of this life, and before it the write of the message's AsyncPending status. */
  ghost predicate MarkedThenQueried(steps: seq<Step>, i: nat, j: nat, id: Id) {
    && i < j < |steps| && MarkedAt(steps, i, id) && Crash !in steps[i..]
    && steps[j].Query? && After(steps[..j]).loader.Waiting?
  }

  lemma {:induction false} MarkedBeforeQuery(steps: seq<Step>, id: Id) returns (i: nat, j: nat)
    requires id in After(steps).markedBefore
    ensures MarkedThenQueried(steps, i, j, id)
    decreases |steps|
  {
    hide Apply, Marks;
    j := |steps| - 1;
    var before := steps[..j];
    StepRecords(After(before), steps[j], id);
    if id in After(before).markedBefore {
      var l;
      i, l := MarkedBeforeQuery(before, id);
      Earlier(steps, i);
      Earlier(steps, l);
      assert steps[i..] == before[i..] + [steps[j]];
      j := l;
    } else {
      i := MarkedWasWritten(before, id);
      Earlier(steps, i);
      assert steps[i..] == before[i..] + [steps[j]];
    }
  }

  /**
   * No queued message is lost: from the moment its row says AsyncPending, in every continuation that does not delete
   * it, crashes or not, the row is there; while it says AsyncPending, some part of the system still has to deal with
   * the message or, since the last crash, a sender's database call for it failed; and it says something else only
   * after a sender that finished the message wrote what became of it.
   */
  lemma {:induction false} QueuedIsNotLost(steps: seq<Step>, more: seq<Step>, id: Id)
    requires IsAsyncPending(After(steps).rows, id)
    requires forall j :: 0 <= j < |more| ==> !Deletes(more[j], id)
    ensures id in After(steps + more).rows
    ensures if IsAsyncPending(After(steps + more).rows, id)
            then IsCarried(After(steps + more), id)
                 || exists j: nat :: FaultAt(steps + more, j, id) && Crash !in (steps + more)[j..]
            else exists j :: |steps| <= j && FinishedAt(steps + more, j, id)
  {
    hide After, IsCarried, FaultAt, FinishedAt;
    QueuedSurvives(steps, more, id);
    if IsAsyncPending(After(steps + more).rows, id) {
      NoMessageLost(steps + more, id);
      if id in After(steps + more).faults {
        var j := FaultWasFailure(steps + more, id);
      }
    }
  }

  // Counting enqueues

  /** The step puts the id into the queue of at most 128. */
  predicate Enqueues(s: State, step: Step, id: Id) {
    && |s.queue| < 128
    && ((step.Enqueue? && step.h in s.handlers && s.handlers[step.h] == Marked(id))
        || (step.Push? && s.loader.Loading? && s.loader.rest != [] && s.loader.rest[0] == id))
  }

  /** The step ends a sender's work on the id. */
  predicate Finishes(s: State, step: Step, id: Id) {
    || (step.Fetch? && step.k < |s.senders| && s.senders[step.k] == Holding(id) && !(step.ok && id in s.rows))
    || (step.Write? && step.k < |s.senders| && s.senders[step.k].Finished? && s.senders[step.k].id == id)
  }

  /** Enqueues of the id since the last crash. */
  ghost function EnqueuesIn(steps: seq<Step>, id: Id): nat
    decreases |steps|
  {
    if steps == [] || steps[|steps| - 1].Crash? then 0
    else
      var n := |steps| - 1;
      EnqueuesIn(steps[..n], id) + if Enqueues(After(steps[..n]), steps[n], id) then 1 else 0
  }

  /** How often since the last crash a sender was done with the id. */
  ghost function FinishesIn(steps: seq<Step>, id: Id): nat
    decreases |steps|
  {
    if steps == [] || steps[|steps| - 1].Crash? then 0
    else
      var n := |steps| - 1;
      FinishesIn(steps[..n], id) + if Finishes(After(steps[..n]), steps[n], id) then 1 else 0
  }

  /** The counts go from s to s' as the step tells. */
  ghost predicate IsCounted(s: State, step: Step, s': State, id: Id) {
    && Enqueued(s'.byHandler, s'.byLoader)[id]
       == Enqueued(s.byHandler, s.byLoader)[id] + (if Enqueues(s, step, id) then 1 else 0)
    && s'.done[id] == s.done[id] + (if Finishes(s, step, id) then 1 else 0)
  }

  lemma HandlerCounts(s: State, step: Step, id: Id)
    requires step.Begin? || step.BeginFails? || step.Mark? || step.Enqueue? || step.Deliver? || step.Settle?
    ensures IsCounted(s, step, ApplyHandler(s, step), id)
  {
    hide SetStatus;
  }

  lemma LoaderCounts(s: State, step: Step, id: Id)
    requires LoaderOnce(s) && (step.Query? || step.Push?)
    ensures IsCounted(s, step, ApplyLoader(s, step), id)
  {
    hide IsQueryResult, Enqueued;
    if step.Push? && s.loader.Loading? && s.loader.rest != [] {
      assert s.loader.rest[0] in Remaining(s.loader);
      LoaderAdds(s.byHandler, s.byLoader, s.loader.rest[0], id);
    }
  }

  lemma SenderCounts(s: State, step: Step, id: Id)
    requires step.Take? || step.Fetch? || step.Send? || step.Write?
    ensures IsCounted(s, step, ApplySender(s, step), id)
  {
    hide SetStatus, Enqueued;
  }

  lemma StepCounts(s: State, step: Step, id: Id)
    requires LoaderOnce(s) && !step.Crash?
    ensures IsCounted(s, step, Apply(s, step), id)
  {
    hide ApplyHandler, ApplyLoader, ApplySender, LoaderOnce, IsCounted;
    match step {
      case Query(_) | Push => LoaderCounts(s, step, id);
      case Take(_) | Fetch(_, _) | Send(_, _) | Write(_, _) => SenderCounts(s, step, id);
      case Delete(_) => DeleteCounts(s, step, id);
      case _ => HandlerCounts(s, step, id);
    }
  }

  lemma DeleteCounts(s: State, step: Step, id: Id)
    requires step.Delete?
    ensures IsCounted(s, step, Apply(s, step), id)
  {
  }

  lemma LoaderAdds(byHandler: multiset<Id>, byLoader: set<Id>, x: Id, id: Id)
    requires x !in byLoader
    ensures Enqueued(byHandler, byLoader + {x})[id] == Enqueued(byHandler, byLoader)[id] + if x == id then 1 else 0
  {
    assert multiset(byLoader + {x}) == multiset(byLoader) + multiset{x};
  }

  lemma {:induction false} CountsAreRight(steps: seq<Step>, id: Id)
    ensures var s := After(steps);
            Enqueued(s.byHandler, s.byLoader)[id] == EnqueuesIn(steps, id) && s.done[id] == FinishesIn(steps, id)
    decreases |steps|
  {
    if steps != [] && !steps[|steps| - 1].Crash? {
      hide Apply, Inv, Enqueues, Finishes;
      var n := |steps| - 1;
      CountsAreRight(steps[..n], id);
      InvLoaderOnce(steps[..n]);
      StepCounts(After(steps[..n]), steps[n], id);
    }
  }

  lemma InvLoaderOnce(steps: seq<Step>)
    ensures LoaderOnce(After(steps))
  {
    hide After;
    RunKeepsInv(steps);
  }

  /**
   * The enqueues of an id since the last crash are its occurrences in the queue of at most 128, with the senders, and
   * finished; there are at most two, and two only if its AsyncPending status was written before the loader's query.
   */
  lemma {:induction false} EnqueuesAddUp(steps: seq<Step>, id: Id)
    ensures var s := After(steps);
            && |s.queue| <= 128
            && EnqueuesIn(steps, id) == multiset(s.queue)[id] + InFlight(s.senders)[id] + FinishesIn(steps, id)
            && (id != 0 ==> EnqueuesIn(steps, id) <= 2)
            && (id != 0 && EnqueuesIn(steps, id) == 2 ==> exists i, j :: MarkedThenQueried(steps, i, j, id))
  {
    hide After, EnqueuesIn, FinishesIn, MarkedThenQueried;
    DeliveryAccounting(steps, id);
    CountsAreRight(steps, id);
    if id != 0 && EnqueuesIn(steps, id) == 2 {
      var i, j := MarkedBeforeQuery(steps, id);
    }
  }

  /** First in, first out: ids join the queue at its end and leave it from its front, one by one; a crash empties it. */
  lemma QueueInOrder(s: State, step: Step)
    requires |s.senders| == 2
    ensures var s' := Apply(s, step);
            || s'.queue == s.queue
            || (exists id :: Enqueues(s, step, id) && s'.queue == s.queue + [id])
            || (step.Take? && step.k < 2 && s.queue == [s'.senders[step.k].id] + s'.queue)
            || (step.Crash? && s'.queue == [])
  {
    hide SetStatus, IsQueryResult;
    if step.Take? && step.k < 2 && s.senders[step.k].Idle? && s.queue != [] {
      assert s.queue == [s.queue[0]] + s.queue[1..];
    }
    if step.Enqueue? && step.h in s.handlers {
      assert Enqueues(s, step, s.handlers[step.h].id) || Apply(s, step).queue == s.queue;
    }
    if step.Push? && s.loader.Loading? && s.loader.rest != [] {
      assert Enqueues(s, step, s.loader.rest[0]) || Apply(s, step).queue == s.queue;
    }
  }
}
