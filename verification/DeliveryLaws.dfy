/** What holds in every run of the delivery system, crashes and restarts included. */
module DeliveryLaws {
  import opened Delivery

  lemma EnqueueCounts(byHandler: multiset<Id>, byLoader: set<Id>, queue: seq<Id>, id: Id,
                      f: multiset<Id>, d: multiset<Id>)
    requires Enqueued(byHandler, byLoader) == multiset(queue) + f + d
    ensures Enqueued(byHandler + multiset{id}, byLoader) == multiset(queue + [id]) + f + d
  {
    assert multiset(queue + [id]) == multiset(queue) + multiset{id};
    var all := Enqueued(byHandler, byLoader);
    assert Enqueued(byHandler + multiset{id}, byLoader) == all + multiset{id};
  }

  lemma PushCounts(byHandler: multiset<Id>, byLoader: set<Id>, queue: seq<Id>, id: Id,
                   f: multiset<Id>, d: multiset<Id>)
    requires Enqueued(byHandler, byLoader) == multiset(queue) + f + d && id !in byLoader
    ensures Enqueued(byHandler, byLoader + {id}) == multiset(queue + [id]) + f + d
  {
    assert multiset(queue + [id]) == multiset(queue) + multiset{id};
    assert multiset(byLoader + {id}) == multiset(byLoader) + multiset{id};
    var all := Enqueued(byHandler, byLoader);
    assert Enqueued(byHandler, byLoader + {id}) == all + multiset{id};
  }

  lemma HandlerKeepsAccounted(s: State, step: Step)
    requires Accounted(s)
    ensures Accounted(ApplyHandler(s, step))
  {
    hide InFlight, Enqueued, SetStatus;
    var s' := ApplyHandler(s, step);
    if step.Enqueue? && s' != s {
      var id := s.handlers[step.h].id;
      EnqueueCounts(s.byHandler, s.byLoader, s.queue, id, InFlight(s.senders), s.done);
    }
  }

  lemma LoaderKeepsAccounted(s: State, step: Step)
    requires Accounted(s) && LoaderOnce(s)
    ensures Accounted(ApplyLoader(s, step))
  {
    hide InFlight, Enqueued;
    var s' := ApplyLoader(s, step);
    if step.Push? && s' != s {
      var id := s.loader.rest[0];
      assert id in Remaining(s.loader);
      PushCounts(s.byHandler, s.byLoader, s.queue, id, InFlight(s.senders), s.done);
    }
  }

  lemma InFlightUpdate(senders: seq<Sender>, k: nat, x: Sender)
    requires |senders| == 2 && k < 2
    ensures IdOf(senders[k]) == IdOf(x) ==> InFlight(senders[k := x]) == InFlight(senders)
    ensures x.Idle? ==> InFlight(senders) == InFlight(senders[k := x]) + IdOf(senders[k])
    ensures senders[k].Idle? ==> InFlight(senders[k := x]) == InFlight(senders) + IdOf(x)
  {
    Sums(IdOf(senders[0]), IdOf(senders[1]), IdOf(x));
    if k == 0 {
      assert InFlight(senders[k := x]) == IdOf(x) + IdOf(senders[1]);
    } else {
      assert InFlight(senders[k := x]) == IdOf(senders[0]) + IdOf(x);
    }
  }

  lemma Sums(a: multiset<Id>, b: multiset<Id>, x: multiset<Id>)
    ensures x == multiset{} ==> a + b == (x + b) + a && a + b == (a + x) + b
    ensures a == multiset{} ==> x + b == (a + b) + x
    ensures b == multiset{} ==> a + x == (a + b) + x
  {
  }

  lemma TakeCounts(all: multiset<Id>, q: multiset<Id>, q': multiset<Id>, id: Id,
                   f: multiset<Id>, f': multiset<Id>, d: multiset<Id>)
    requires all == q + f + d && q == multiset{id} + q' && f' == f + multiset{id}
    ensures all == q' + f' + d
  {
  }

  lemma DoneCounts(all: multiset<Id>, q: multiset<Id>, id: Id, f: multiset<Id>, f': multiset<Id>, d: multiset<Id>)
    requires all == q + f + d && f == f' + multiset{id}
    ensures all == q + f' + (d + multiset{id})
  {
  }

  lemma TakeKeepsAccounted(s: State, k: nat)
    requires Accounted(s) && k < 2 && s.senders[k].Idle? && s.queue != []
    ensures Accounted(s.(senders := s.senders[k := Holding(s.queue[0])], queue := s.queue[1..]))
  {
    hide InFlight, Enqueued;
    var id, rest := s.queue[0], s.queue[1..];
    assert s.queue == [id] + rest;
    InFlightUpdate(s.senders, k, Holding(id));
    TakeCounts(Enqueued(s.byHandler, s.byLoader), multiset(s.queue), multiset(rest), id,
               InFlight(s.senders), InFlight(s.senders[k := Holding(id)]), s.done);
  }

  lemma FreeKeepsAccounted(s: State, k: nat)
    requires Accounted(s) && k < 2 && !s.senders[k].Idle?
    ensures Accounted(s.(senders := s.senders[k := Idle], done := s.done + multiset{s.senders[k].id}))
  {
    hide InFlight, Enqueued;
    InFlightUpdate(s.senders, k, Idle);
    DoneCounts(Enqueued(s.byHandler, s.byLoader), multiset(s.queue), s.senders[k].id,
               InFlight(s.senders), InFlight(s.senders[k := Idle]), s.done);
  }

  lemma {:induction false} SenderKeepsAccounted(s: State, step: Step)
    requires Accounted(s)
    ensures Accounted(ApplySender(s, step))
  {
    hide InFlight, Enqueued, SetStatus;
    var s' := ApplySender(s, step);
    if s' != s {
      if step.Take? {
        TakeKeepsAccounted(s, step.k);
      } else if s'.senders[step.k].Idle? {
        FreeKeepsAccounted(s, step.k);
      } else {
        InFlightUpdate(s.senders, step.k, s'.senders[step.k]);
      }
    }
  }

  /** A new handler with a fresh id, or with none. */
  lemma OwnIdsGrow(handlers: map<nat, Handler>, byHandler: multiset<Id>, firstId: Id, nextId: Id, h: nat)
    requires OwnIds(handlers, byHandler, firstId, nextId) && 0 < firstId <= nextId
    ensures h !in handlers ==> OwnIds(handlers[h := Marked(0)], byHandler, firstId, nextId)
    ensures h !in handlers ==>
              forall async :: OwnIds(handlers[h := Inserted(nextId, async)], byHandler, firstId, nextId + 1)
  {
  }

  /** A handler that goes on with its id, leaves, or leaves its id in the queue. */
  lemma OwnIdsMove(handlers: map<nat, Handler>, byHandler: multiset<Id>, firstId: Id, nextId: Id, h: nat)
    requires OwnIds(handlers, byHandler, firstId, nextId) && h in handlers
    ensures handlers[h].Marked? || handlers[h].id != 0
    ensures forall x: Handler :: x.id == handlers[h].id && (x.Marked? || x.id != 0) ==>
              OwnIds(handlers[h := x], byHandler, firstId, nextId)
    ensures OwnIds(handlers - {h}, byHandler, firstId, nextId)
    ensures OwnIds(handlers - {h}, byHandler + multiset{handlers[h].id}, firstId, nextId)
  {
    OwnIdsChange(handlers, byHandler, firstId, nextId, h);
    OwnIdsLeave(handlers, byHandler, firstId, nextId, h);
  }

  lemma OwnIdsChange(handlers: map<nat, Handler>, byHandler: multiset<Id>, firstId: Id, nextId: Id, h: nat)
    requires OwnIds(handlers, byHandler, firstId, nextId) && h in handlers
    ensures forall x: Handler :: x.id == handlers[h].id && (x.Marked? || x.id != 0) ==>
              OwnIds(handlers[h := x], byHandler, firstId, nextId)
  {
  }

  lemma OwnIdsLeave(handlers: map<nat, Handler>, byHandler: multiset<Id>, firstId: Id, nextId: Id, h: nat)
    requires OwnIds(handlers, byHandler, firstId, nextId) && h in handlers
    ensures OwnIds(handlers - {h}, byHandler, firstId, nextId)
    ensures OwnIds(handlers - {h}, byHandler + multiset{handlers[h].id}, firstId, nextId)
  {
  }

  lemma {:induction false} HandlerKeepsHandlersOwnIds(s: State, step: Step)
    requires HandlersOwnIds(s)
    ensures HandlersOwnIds(ApplyHandler(s, step))
  {
    hide OwnIds;
    var s' := ApplyHandler(s, step);
    if s' != s {
      OwnIdsGrow(s.handlers, s.byHandler, s.firstId, s.nextId, step.h);
      if step.h in s.handlers {
        OwnIdsMove(s.handlers, s.byHandler, s.firstId, s.nextId, step.h);
      }
    }
  }

  lemma LoaderKeepsHandlersOwnIds(s: State, step: Step)
    requires HandlersOwnIds(s)
    ensures HandlersOwnIds(ApplyLoader(s, step))
  {
  }

  lemma SenderKeepsHandlersOwnIds(s: State, step: Step)
    requires HandlersOwnIds(s)
    ensures HandlersOwnIds(ApplySender(s, step))
  {
  }

  lemma HandlerKeepsLoaderOnce(s: State, step: Step)
    requires LoaderOnce(s) && HandlersOwnIds(s)
    ensures LoaderOnce(ApplyHandler(s, step))
  {
  }

  lemma LoaderKeepsLoaderOnce(s: State, step: Step)
    requires LoaderOnce(s) && HandlersOwnIds(s)
    ensures LoaderOnce(ApplyLoader(s, step))
  {
    var s' := ApplyLoader(s, step);
    if step.Push? && s' != s {
      assert Remaining(s.loader)[0] in Remaining(s.loader);
      forall id: Id | IsFound(s'.byLoader, s'.loader, id) ensures IsFound(s.byLoader, s.loader, id) {
      }
    }
  }

  lemma SenderKeepsLoaderOnce(s: State, step: Step)
    requires LoaderOnce(s) && HandlersOwnIds(s)
    ensures LoaderOnce(ApplySender(s, step))
  {
  }

  lemma HandlerKeepsInsertedIsPending(s: State, step: Step)
    requires InsertedIsPending(s) && HandlersOwnIds(s) && Accounted(s) && LoaderOnce(s)
    ensures InsertedIsPending(ApplyHandler(s, step))
  {
    hide IsFound, Accounted;
  }

  lemma LoaderKeepsInsertedIsPending(s: State, step: Step)
    requires InsertedIsPending(s) && HandlersOwnIds(s) && Accounted(s) && LoaderOnce(s)
    ensures InsertedIsPending(ApplyLoader(s, step))
  {
  }

  lemma WrittenWasEnqueued(s: State, k: nat)
    requires Accounted(s) && k < 2 && !s.senders[k].Idle?
    ensures s.senders[k].id in Enqueued(s.byHandler, s.byLoader)
  {
    assert s.senders[k].id in InFlight(s.senders);
  }

  /** An id that was enqueued is not that of a handler still to run its deferred block. */
  lemma NotBoth(s: State, id: Id)
    requires InsertedIsPending(s) && HandlersOwnIds(s) && LoaderOnce(s)
    requires id in Enqueued(s.byHandler, s.byLoader)
    ensures forall h :: h in s.handlers && !s.handlers[h].Marked? ==> s.handlers[h].id != id
  {
  }

  lemma SenderKeepsInsertedIsPending(s: State, step: Step)
    requires InsertedIsPending(s) && HandlersOwnIds(s) && Accounted(s) && LoaderOnce(s)
    ensures InsertedIsPending(ApplySender(s, step))
  {
    hide HandlersOwnIds, LoaderOnce, IsFound, InFlight, Enqueued;
    if step.Write? && ApplySender(s, step) != s {
      var id := s.senders[step.k].id;
      WrittenWasEnqueued(s, step.k);
      NotBoth(s, id);
    }
  }

  lemma HandlerKeepsSentIsAcked(s: State, step: Step)
    requires SentIsAcked(s) && Accounted(s)
    ensures SentIsAcked(ApplyHandler(s, step))
  {
    hide Accounted;
  }

  lemma LoaderKeepsSentIsAcked(s: State, step: Step)
    requires SentIsAcked(s) && Accounted(s)
    ensures SentIsAcked(ApplyLoader(s, step))
  {
  }

  lemma SenderKeepsSentIsAcked(s: State, step: Step)
    requires SentIsAcked(s) && Accounted(s)
    ensures SentIsAcked(ApplySender(s, step))
  {
  }

  lemma OthersStayMarked(before: map<nat, Handler>, after: map<nat, Handler>, h: nat, id: Id)
    requires forall g :: g in before && g != h ==> g in after && after[g] == before[g]
    requires IsMarked(before, id) && !(h in before && before[h] == Marked(id))
    ensures IsMarked(after, id)
  {
    var g :| g in before && before[g] == Marked(id);
    assert after[g] == Marked(id);
  }

  /** A row a handler's step leaves AsyncPending was so before, or the handler is about to enqueue it. */
  lemma HandlerWrites(s: State, step: Step, id: Id)
    requires ApplyHandler(s, step) != s && IsAsyncPending(ApplyHandler(s, step).rows, id)
    ensures IsAsyncPending(s.rows, id) || IsMarked(ApplyHandler(s, step).handlers, id)
  {
    if !IsAsyncPending(s.rows, id) {
      assert ApplyHandler(s, step).handlers[step.h] == Marked(id);
    }
  }

  lemma HandlerKeepsNoneLost(s: State, step: Step)
    requires NoneLost(s)
    ensures NoneLost(ApplyHandler(s, step))
  {
    hide InFlight;
    var s' := ApplyHandler(s, step);
    forall id | IsAsyncPending(s'.rows, id) ensures IsCarried(s', id) || id in s'.faults {
      if s' != s {
        HandlerWrites(s, step, id);
        if IsMarked(s.handlers, id) && !(step.h in s.handlers && s.handlers[step.h] == Marked(id)) {
          OthersStayMarked(s.handlers, s'.handlers, step.h, id);
        }
      }
    }
  }

  lemma LoaderKeepsNoneLost(s: State, step: Step)
    requires NoneLost(s)
    ensures NoneLost(ApplyLoader(s, step))
  {
  }

  lemma InFlightMembers(senders: seq<Sender>, k: nat, x: Sender, id: Id)
    requires |senders| == 2 && k < 2
    ensures id in IdOf(x) ==> id in InFlight(senders[k := x])
    ensures id in InFlight(senders) ==> id in InFlight(senders[k := x]) || id in IdOf(senders[k])
  {
    hide IdOf;
  }

  /** An id a sender takes on stays with the senders until its row is written or gone, or the database fails. */
  lemma {:induction false} SenderPassesOn(s: State, step: Step, id: Id)
    requires |s.senders| == 2 && (id in s.queue || id in InFlight(s.senders))
    requires IsAsyncPending(ApplySender(s, step).rows, id)
    ensures var s' := ApplySender(s, step);
            id in s'.queue || id in InFlight(s'.senders) || id in s'.faults
  {
    hide InFlight;
    var s' := ApplySender(s, step);
    if s' != s {
      var k := step.k;
      match step {
        case Take(_) =>
          InFlightMembers(s.senders, k, Holding(s.queue[0]), id);
          QueueMembers(s.queue, id);
        case Fetch(_, _) =>
          InFlightMembers(s.senders, k, s'.senders[k], id);
        case Send(_, sent) =>
          InFlightMembers(s.senders, k, Finished(s.senders[k].id, sent), id);
        case Write(_, _) =>
          InFlightMembers(s.senders, k, Idle, id);
      }
    }
  }

  lemma QueueMembers(queue: seq<Id>, id: Id)
    requires queue != []
    ensures id in queue ==> id == queue[0] || id in queue[1..]
  {
    assert queue == [queue[0]] + queue[1..];
  }

  lemma SenderWrites(s: State, step: Step)
    ensures var s' := ApplySender(s, step);
            s'.handlers == s.handlers && s'.loader == s.loader && s.faults <= s'.faults
            && forall id :: IsAsyncPending(s'.rows, id) ==> IsAsyncPending(s.rows, id)
  {
  }

  lemma {:induction false} SenderKeepsNoneLost(s: State, step: Step)
    requires NoneLost(s)
    ensures NoneLost(ApplySender(s, step))
  {
    hide InFlight, IsMarked, SetStatus;
    SenderWrites(s, step);
    var s' := ApplySender(s, step);
    forall id | IsAsyncPending(s'.rows, id) ensures IsCarried(s', id) || id in s'.faults {
      if id in s.queue || id in InFlight(s.senders) {
        SenderPassesOn(s, step, id);
      }
    }
  }

  // Every run

  lemma {:induction false} HandlerKeeps(s: State, step: Step)
    requires Inv(s)
    ensures Inv(ApplyHandler(s, step))
  {
    HandlerKeepsAccounted(s, step);
    HandlerKeepsHandlersOwnIds(s, step);
    HandlerKeepsLoaderOnce(s, step);
    HandlerKeepsInsertedIsPending(s, step);
    HandlerKeepsSentIsAcked(s, step);
    HandlerKeepsNoneLost(s, step);
  }

  lemma LoaderKeeps(s: State, step: Step)
    requires Inv(s)
    ensures Inv(ApplyLoader(s, step))
  {
    LoaderKeepsAccounted(s, step);
    LoaderKeepsHandlersOwnIds(s, step);
    LoaderKeepsLoaderOnce(s, step);
    LoaderKeepsInsertedIsPending(s, step);
    LoaderKeepsSentIsAcked(s, step);
    LoaderKeepsNoneLost(s, step);
  }

  lemma {:induction false} SenderKeeps(s: State, step: Step)
    requires Inv(s)
    ensures Inv(ApplySender(s, step))
  {
    SenderKeepsAccounted(s, step);
    SenderKeepsHandlersOwnIds(s, step);
    SenderKeepsLoaderOnce(s, step);
    SenderKeepsInsertedIsPending(s, step);
    SenderKeepsSentIsAcked(s, step);
    SenderKeepsNoneLost(s, step);
  }

  lemma DeleteKeeps(s: State, ids: set<Id>)
    requires Inv(s)
    ensures Inv(Apply(s, Delete(ids)))
  {
  }

  lemma CrashKeeps(s: State)
    requires Inv(s)
    ensures Inv(Apply(s, Crash))
  {
  }

  lemma StepKeeps(s: State, step: Step)
    requires Inv(s)
    ensures Inv(Apply(s, step))
  {
    hide Inv, ApplyHandler, ApplyLoader, ApplySender;
    match step {
      case Delete(ids) => DeleteKeeps(s, ids);
      case Crash => CrashKeeps(s);
      case Query(_) | Push => LoaderKeeps(s, step);
      case Take(_) | Fetch(_, _) | Send(_, _) | Write(_, _) => SenderKeeps(s, step);
      case _ => HandlerKeeps(s, step);
    }
  }

  lemma StartInv()
    ensures Inv(START)
  {
  }

  lemma {:induction false} RunKeepsInv(steps: seq<Step>)
    ensures Inv(After(steps))
    decreases |steps|
  {
    hide Inv, Apply;
    if steps == [] {
      StartInv();
    } else {
      RunKeepsInv(steps[..|steps| - 1]);
      StepKeeps(After(steps[..|steps| - 1]), steps[|steps| - 1]);
    }
  }

  /** Nothing is under way. */
  predicate AtRest(s: State) {
    s.queue == [] && s.handlers == map[] && s.senders == [Idle, Idle] && s.loader == Loading([])
  }

  /**
   * No queued message is lost: in every run, a row with status AsyncPending is in the queue, with a sender,
   * with a handler about to enqueue it, awaited by a loader that has not queried, or left for the loader to
   * enqueue, unless a sender that had it could not reach the database.
   */
  lemma {:induction false} NoMessageLost(steps: seq<Step>, id: Id)
    requires IsAsyncPending(After(steps).rows, id)
    ensures IsCarried(After(steps), id) || id in After(steps).faults
    ensures AtRest(After(steps)) ==> id in After(steps).faults
  {
    RunKeepsInv(steps);
  }

  /**
   * Delivery accounting: the enqueues of an id in this process life are its occurrences in the queue, with the
   * senders, and done; an id is enqueued at most twice, and twice only if its AsyncPending write preceded the
   * loader's query.
   */
  lemma {:induction false} DeliveryAccounting(steps: seq<Step>, id: Id)
    ensures var s := After(steps);
            && |s.queue| <= QUEUE_SIZE
            && Enqueued(s.byHandler, s.byLoader)[id]
               == multiset(s.queue)[id] + InFlight(s.senders)[id] + s.done[id]
            && (id != 0 ==> Enqueued(s.byHandler, s.byLoader)[id] <= 2)
            && (id != 0 && Enqueued(s.byHandler, s.byLoader)[id] == 2 ==> id in s.markedBefore)
  {
    RunKeepsInv(steps);
    var s := After(steps);
    assert IsFound(s.byLoader, s.loader, id) <== id in s.byLoader;
    assert s.byHandler[id] <= 1 || id == 0;
  }

  lemma StepKeepsFinal(s: State, step: Step, id: Id)
    requires Inv(s) && IsFinal(s.rows, id)
    ensures id in Apply(s, step).rows ==> IsFinal(Apply(s, step).rows, id)
    ensures s.nextId <= Apply(s, step).nextId
  {
    hide Accounted, LoaderOnce, SentIsAcked, NoneLost, IsFound, ApplyLoader;
    if step.Mark? && step.h in s.handlers && s.handlers[step.h].Inserted? {
      assert s.handlers[step.h].id != id;
    }
    LoaderSparesRows(s, step);
  }

  lemma LoaderSparesRows(s: State, step: Step)
    ensures ApplyLoader(s, step).rows == s.rows && ApplyLoader(s, step).nextId == s.nextId
  {
  }

  lemma StepKeepsGone(s: State, step: Step, id: Id)
    requires Inv(s) && id !in s.rows && id < s.nextId
    ensures id !in Apply(s, step).rows && id < Apply(s, step).nextId
  {
    hide Inv, ApplyLoader;
    LoaderSparesRows(s, step);
  }

  lemma RowsBelow(s: State, id: Id)
    requires Inv(s) && id in s.rows
    ensures id < s.nextId
  {
  }

  lemma AfterStep(steps: seq<Step>)
    requires steps != []
    ensures After(steps) == Apply(After(steps[..|steps| - 1]), steps[|steps| - 1])
  {
    hide Apply;
  }

  /** The definition of After, for proofs that keep it hidden. */
  lemma {:induction false} AfterMore(steps: seq<Step>, more: seq<Step>)
    requires more != []
    ensures var m := |more| - 1;
            After(steps + more) == Apply(After(steps + more[..m]), more[m])
  {
    hide Apply, After;
    AfterStep(steps + more);
    assert (steps + more)[..|steps + more| - 1] == steps + more[..|more| - 1];
  }

  /** Once a row says Sent or Failed it does so in every later state that still has the row, crashes or not. */
  lemma {:induction false} FinalStaysFinal(steps: seq<Step>, more: seq<Step>, id: Id)
    requires IsFinal(After(steps).rows, id)
    ensures id in After(steps + more).rows ==> IsFinal(After(steps + more).rows, id)
    ensures id < After(steps + more).nextId
    decreases |more|
  {
    hide Inv, Apply, After;
    if more == [] {
      assert steps + more == steps;
      RunKeepsInv(steps);
      RowsBelow(After(steps), id);
    } else {
      var before := After(steps + more[..|more| - 1]);
      FinalStaysFinal(steps, more[..|more| - 1], id);
      RunKeepsInv(steps + more[..|more| - 1]);
      AfterMore(steps, more);
      if id in before.rows {
        StepKeepsFinal(before, more[|more| - 1], id);
      } else {
        StepKeepsGone(before, more[|more| - 1], id);
      }
    }
  }

  /** A row says Sent only if some send of that message returned nil. */
  lemma SentWasAccepted(steps: seq<Step>, id: Id)
    requires id in After(steps).rows && After(steps).rows[id] == Sent
    ensures id in After(steps).acked
  {
    RunKeepsInv(steps);
  }
}
