/** Messages that are enqueued, and sent, more than once: when a row that says Sent keeps saying so. */
module DeliveryTwice {
  import opened Delivery
  import opened DeliveryLaws
  import opened DeliveryProgress
  import opened DeliveryCode

  /** A send of the message is still to come, or has failed and is to be written. */
  ghost predicate MayFail(s: State, id: Id) {
    || id in s.queue
    || IsMarked(s.handlers, id)
    || id in Remaining(s.loader)
    || (exists k :: 0 <= k < |s.senders| && Handles(s.senders[k], id))
  }

  predicate Handles(sender: Sender, id: Id) {
    !sender.Idle? && sender.id == id && !(sender.Finished? && sender.sent)
  }

  ghost predicate IsSent(s: State, id: Id) {
    id in s.rows && s.rows[id] == Sent
  }

  // Without such a send the row stays

  lemma HandlerKeepsSent(s: State, step: Step, id: Id)
    requires Inv(s) && IsSent(s, id) && !MayFail(s, id)
    ensures IsSent(ApplyHandler(s, step), id) && !MayFail(ApplyHandler(s, step), id)
  {
    NotItsHandler(s, id);
    hide Inv;
    HandlerWritesElsewhere(s, step, id);
    HandlerMarksElsewhere(s, step, id);
    HandlerSparesSenders(s, step);
    hide ApplyHandler;
    forall k | 0 <= k < |s.senders| ensures !Handles(s.senders[k], id) {
    }
  }

  lemma HandlerSparesSenders(s: State, step: Step)
    ensures ApplyHandler(s, step).senders == s.senders && ApplyHandler(s, step).loader == s.loader
  {
  }

  lemma HandlerWritesElsewhere(s: State, step: Step, id: Id)
    requires IsSent(s, id) && id < s.nextId
    requires forall h :: h in s.handlers && !s.handlers[h].Marked? ==> s.handlers[h].id != id
    ensures IsSent(ApplyHandler(s, step), id)
  {
  }

  lemma HandlerMarksElsewhere(s: State, step: Step, id: Id)
    requires 0 < id && !IsMarked(s.handlers, id) && id !in s.queue
    requires forall h :: h in s.handlers && !s.handlers[h].Marked? ==> s.handlers[h].id != id
    ensures !IsMarked(ApplyHandler(s, step).handlers, id) && id !in ApplyHandler(s, step).queue
  {
    hide SetStatus;
    forall h | h in s.handlers ensures s.handlers[h] != Marked(id) {
    }
  }

  /** No request is still to write the row, nor is one about to get its id. */
  lemma NotItsHandler(s: State, id: Id)
    requires Inv(s) && IsSent(s, id)
    ensures 0 < id < s.nextId
    ensures forall h :: h in s.handlers && !s.handlers[h].Marked? ==> s.handlers[h].id != id
  {
    hide Accounted, LoaderOnce, SentIsAcked, NoneLost, IsFound;
  }

  lemma LoaderKeepsSent(s: State, step: Step, id: Id)
    requires Inv(s) && IsSent(s, id) && !MayFail(s, id)
    ensures IsSent(ApplyLoader(s, step), id) && !MayFail(ApplyLoader(s, step), id)
  {
    hide Accounted, HandlersOwnIds, InsertedIsPending, SentIsAcked, NoneLost;
  }

  lemma SendersStayHarmless(s: State, step: Step, id: Id, k: nat)
    requires |s.senders| == 2 && id !in s.queue && k < 2
    requires forall j :: 0 <= j < 2 ==> !Handles(s.senders[j], id)
    ensures var s' := ApplySender(s, step); |s'.senders| == 2 && !Handles(s'.senders[k], id)
  {
    assert !Handles(s.senders[k], id);
    if s.queue != [] {
      assert s.queue[0] != id;
    }
  }

  lemma SenderWritesSent(s: State, step: Step, id: Id)
    requires |s.senders| == 2 && IsSent(s, id)
    requires forall j :: 0 <= j < 2 ==> !Handles(s.senders[j], id)
    ensures IsSent(ApplySender(s, step), id)
  {
    if step.Write? && step.k < 2 {
      assert !Handles(s.senders[step.k], id);
    }
  }

  lemma SenderKeepsSent(s: State, step: Step, id: Id)
    requires |s.senders| == 2 && IsSent(s, id) && !MayFail(s, id)
    ensures IsSent(ApplySender(s, step), id) && !MayFail(ApplySender(s, step), id)
  {
    SendersStayHarmless(s, step, id, 0);
    SendersStayHarmless(s, step, id, 1);
    SenderWritesSent(s, step, id);
    SenderWrites(s, step);
    var s' := ApplySender(s, step);
    assert s'.queue == s.queue || (s.queue != [] && s'.queue == s.queue[1..]);
    hide ApplySender, Handles;
    assert id !in s'.queue;
  }

  lemma DeleteKeepsSent(s: State, ids: set<Id>, id: Id)
    requires IsSent(s, id) && !MayFail(s, id)
    ensures var s' := Apply(s, Delete(ids)); id in s'.rows ==> IsSent(s', id) && !MayFail(s', id)
  {
  }

  lemma CrashKeepsSent(s: State, id: Id)
    requires IsSent(s, id)
    ensures IsSent(Apply(s, Crash), id) && !MayFail(Apply(s, Crash), id)
  {
  }

  lemma StepKeepsSent(s: State, step: Step, id: Id)
    requires Inv(s) && IsSent(s, id) && !MayFail(s, id)
    ensures id in Apply(s, step).rows ==> IsSent(Apply(s, step), id) && !MayFail(Apply(s, step), id)
  {
    assert |s.senders| == 2;
    hide Inv, ApplyHandler, ApplyLoader, ApplySender, MayFail, IsSent;
    match step {
      case Query(_) | Push => LoaderKeepsSent(s, step, id);
      case Take(_) | Fetch(_, _) | Send(_, _) | Write(_, _) => SenderKeepsSent(s, step, id);
      case Delete(ids) => DeleteKeepsSent(s, ids, id);
      case Crash => CrashKeepsSent(s, id);
      case _ => HandlerKeepsSent(s, step, id);
    }
  }

  lemma {:induction false} RunKeepsSent(steps: seq<Step>, more: seq<Step>, id: Id)
    requires IsSent(After(steps), id) && !MayFail(After(steps), id)
    ensures var s := After(steps + more); id in s.rows ==> IsSent(s, id) && !MayFail(s, id)
    ensures id < After(steps + more).nextId
    decreases |more|
  {
    hide Inv, Apply, After, MayFail;
    FinalStaysFinal(steps, more, id);
    if more == [] {
      assert steps + more == steps;
    } else {
      var m := |more| - 1;
      var before := After(steps + more[..m]);
      RunKeepsSent(steps, more[..m], id);
      RunKeepsInv(steps + more[..m]);
      AfterMore(steps, more);
      if id in before.rows {
        StepKeepsSent(before, more[m], id);
      } else {
        StepKeepsGone(before, more[m], id);
      }
    }
  }

  // With such a send the row can still turn Failed

  ghost predicate HasFailed(s: State, id: Id) {
    id in s.rows && s.rows[id] == Failed
  }

  /** One step closer: the row has failed, or still may. */
  ghost predicate IsCloser(s: State, step: Step, id: Id) {
    var s' := Apply(s, step);
    IsInternal(step) && Succeeds(step) && s' != s && (HasFailed(s', id) || (IsSent(s', id) && MayFail(s', id)))
  }

  lemma SenderFails(s: State, id: Id, k: nat) returns (step: Step)
    requires |s.senders| == 2 && k < 2 && IsSent(s, id) && Handles(s.senders[k], id)
    ensures IsCloser(s, step, id)
  {
    match s.senders[k] {
      case Holding(_) => step := Fetch(k, true);
      case Fetched(_) => step := Send(k, false);
      case Finished(_, _) => step := Write(k, true);
    }
    var s' := ApplySender(s, step);
    assert s'.senders[k] != s.senders[k];
    assert !step.Write? ==> Handles(s'.senders[k], id);
  }

  /** A sender that is busy with something else makes way. */
  lemma SenderMakesWay(s: State, id: Id, k: nat) returns (step: Step)
    requires |s.senders| == 2 && k < 2 && !s.senders[k].Idle? && IsSent(s, id)
    requires (forall j :: 0 <= j < 2 ==> !Handles(s.senders[j], id)) && MayFail(s, id)
    ensures IsCloser(s, step, id)
  {
    assert !Handles(s.senders[k], id);
    match s.senders[k] {
      case Holding(_) => step := Fetch(k, true);
      case Fetched(_) => step := Send(k, true);
      case Finished(_, _) => step := Write(k, true);
    }
    var s' := ApplySender(s, step);
    assert s'.senders[k] != s.senders[k];
    assert s'.queue == s.queue && s'.handlers == s.handlers && s'.loader == s.loader;
    assert IsSent(s', id);
  }

  lemma QueueMovesOn(s: State, id: Id) returns (step: Step)
    requires s.senders == [Idle, Idle] && s.queue != [] && IsSent(s, id) && MayFail(s, id)
    ensures IsCloser(s, step, id)
  {
    step := Take(0);
    var s' := ApplySender(s, step);
    assert s'.senders[0] == Holding(s.queue[0]);
    QueueMembers(s.queue, id);
    if s.queue[0] == id {
      assert Handles(s'.senders[0], id);
    }
  }

  lemma QueueFills(s: State, id: Id) returns (step: Step)
    requires s.senders == [Idle, Idle] && s.queue == [] && IsSent(s, id) && MayFail(s, id)
    ensures IsCloser(s, step, id)
  {
    if h :| h in s.handlers && s.handlers[h] == Marked(id) {
      step := Enqueue(h);
      assert ApplyHandler(s, step).queue == [id];
    } else {
      step := Push;
      QueueMembers(s.loader.rest, id);
      assert ApplyLoader(s, step).queue == [s.loader.rest[0]];
    }
  }

  lemma Closer(s: State, id: Id) returns (step: Step)
    requires |s.senders| == 2 && IsSent(s, id) && MayFail(s, id)
    ensures IsCloser(s, step, id)
  {
    hide MayFail, IsSent, IsCloser;
    if k :| 0 <= k < 2 && Handles(s.senders[k], id) {
      step := SenderFails(s, id, k);
    } else if k :| 0 <= k < 2 && !s.senders[k].Idle? {
      step := SenderMakesWay(s, id, k);
    } else {
      assert s.senders == [Idle, Idle];
      if s.queue != [] {
        step := QueueMovesOn(s, id);
      } else {
        step := QueueFills(s, id);
      }
    }
  }

  lemma {:induction false} CanFail(steps: seq<Step>, id: Id) returns (more: seq<Step>)
    requires IsSent(After(steps), id) && MayFail(After(steps), id)
    ensures HasFailed(After(steps + more), id)
    decreases Work(After(steps))
  {
    hide Work, Apply, After, MayFail;
    var s := After(steps);
    var step := Closer(s, id);
    StepShrinks(s, step);
    AfterMore(steps, [step]);
    assert steps + [step][..0] == steps;
    if HasFailed(Apply(s, step), id) {
      more := [step];
    } else {
      var others := CanFail(steps + [step], id);
      more := [step] + others;
      assert steps + more == steps + [step] + others;
    }
  }

  /** A row that says Sent goes on saying so, as long as it is there, exactly when no send of it can still fail. */
  lemma {:induction false} SentStaysExactly(steps: seq<Step>, id: Id)
    requires IsSent(After(steps), id)
    ensures (forall more :: id in After(steps + more).rows ==> IsSent(After(steps + more), id))
            <==> !MayFail(After(steps), id)
  {
    hide After, MayFail;
    if MayFail(After(steps), id) {
      var more := CanFail(steps, id);
      assert !IsSent(After(steps + more), id);
    } else {
      forall more | id in After(steps + more).rows ensures IsSent(After(steps + more), id) {
        RunKeepsSent(steps, more, id);
      }
    }
  }

  // When a message is enqueued twice

  /** A message marked in this life was enqueued by its request, or is about to be. */
  ghost predicate MarkedGoesOn(s: State) {
    && s.markedBefore <= s.marked
    && forall id :: id in s.marked ==> id in s.byHandler || IsMarked(s.handlers, id)
  }

  lemma HandlerKeepsMarked(s: State, step: Step)
    requires MarkedGoesOn(s)
    ensures MarkedGoesOn(ApplyHandler(s, step))
  {
    hide SetStatus, IsMarked;
    var s' := ApplyHandler(s, step);
    forall id | id in s'.marked ensures id in s'.byHandler || IsMarked(s'.handlers, id) {
      HandlerPassesOn(s, step, id);
    }
  }

  lemma HandlerPassesOn(s: State, step: Step, id: Id)
    requires id in s.marked ==> id in s.byHandler || IsMarked(s.handlers, id)
    ensures var s' := ApplyHandler(s, step);
            id in s'.marked ==> id in s'.byHandler || IsMarked(s'.handlers, id)
  {
    hide SetStatus;
    var s' := ApplyHandler(s, step);
    if id in s.marked && id !in s.byHandler {
      var h :| h in s.handlers && s.handlers[h] == Marked(id);
      if h in s'.handlers {
        assert s'.handlers[h] == Marked(id);
      }
    } else if id in s'.marked && id !in s.marked {
      assert s'.handlers[step.h] == Marked(id);
    }
  }

  lemma {:induction false} RunKeepsMarked(steps: seq<Step>)
    ensures MarkedGoesOn(After(steps))
    decreases |steps|
  {
    if steps != [] {
      hide MarkedGoesOn;
      var before := After(steps[..|steps| - 1]);
      RunKeepsMarked(steps[..|steps| - 1]);
      StepKeepsMarked(before, steps[|steps| - 1]);
    }
  }

  lemma StepKeepsMarked(s: State, step: Step)
    requires MarkedGoesOn(s)
    ensures MarkedGoesOn(Apply(s, step))
  {
    HandlerKeepsMarked(s, step);
    hide ApplyHandler, SetStatus;
  }

  /** What the loader found of this life is enqueued by its request as well, sooner or later. */
  lemma FoundIsMarked(steps: seq<Step>, id: Id)
    requires var s := After(steps); id >= s.firstId && IsFound(s.byLoader, s.loader, id)
    ensures var s := After(steps); id in s.byHandler || IsMarked(s.handlers, id)
  {
    hide After;
    RunKeepsInv(steps);
    RunKeepsMarked(steps);
    hide Accounted, HandlersOwnIds, InsertedIsPending, SentIsAcked, NoneLost;
    assert id in After(steps).markedBefore;
  }

  /**
   * An id given out in this life: it is enqueued twice exactly when the loader enqueues it and its request has
   * done so, and at rest exactly when the loader did.
   */
  lemma {:induction false} EnqueuedTwiceExactly(steps: seq<Step>, id: Id)
    requires id >= After(steps).firstId
    ensures var s := After(steps);
            && (Enqueued(s.byHandler, s.byLoader)[id] == 2 <==> id in s.byLoader && !IsMarked(s.handlers, id))
            && (AtRest(s) ==> (Enqueued(s.byHandler, s.byLoader)[id] == 2 <==> id in s.byLoader))
  {
    hide After;
    var s := After(steps);
    RunKeepsInv(steps);
    MarkedIsNotEnqueued(s, id);
    if id in s.byLoader {
      FoundIsMarked(steps, id);
    }
  }

  lemma MarkedIsNotEnqueued(s: State, id: Id)
    requires Inv(s) && id >= s.firstId
    ensures s.byHandler[id] <= 1 && (IsMarked(s.handlers, id) ==> id !in s.byHandler)
  {
    hide Accounted, LoaderOnce, InsertedIsPending, SentIsAcked, NoneLost;
    assert id !in s.byHandler ==> s.byHandler[id] == 0;
  }

  // A run in which a message is sent twice and its row fails

  /** A new message is enqueued by its request and by the loader, and the first of its two sends succeeds. */
  const SENT_ONCE: seq<Step> := [Begin(0, true), Mark(0, true), Query([1]), Push, Enqueue(0),
                                 Take(0), Fetch(0, true), Send(0, true), Write(0, true)]

  const SENT_AGAIN: seq<Step> := [Take(0), Fetch(0, true), Send(0, false), Write(0, true)]

  const BOTH_QUEUED := START.(rows := map[1 := AsyncPending], nextId := 2, queue := [1, 1], loader := Loading([]),
                              byHandler := multiset{1}, byLoader := {1}, marked := {1}, markedBefore := {1})

  /** One message, enqueued twice: both occurrences are in the queue. */
  lemma {:induction false} EnqueuedTwice()
    ensures RunFrom(START, SENT_ONCE[..5]) == BOTH_QUEUED
  {
    hide Apply, RunFrom;
    var s2 := START.(rows := map[1 := AsyncPending], nextId := 2, handlers := map[0 := Marked(1)], marked := {1});
    var s4 := s2.(queue := [1], loader := Loading([]), byLoader := {1}, markedBefore := {1});
    RunTwo(START, Begin(0, true), Mark(0, true));
    assert Apply(Apply(START, Begin(0, true)), Mark(0, true)) == s2 by { Marks(); }
    RunTwo(s2, Query([1]), Push);
    assert Apply(Apply(s2, Query([1])), Push) == s4 by { Loads(s2); }
    RunOne(s4, Enqueue(0));
    assert Apply(s4, Enqueue(0)) == BOTH_QUEUED by { EnqueuesAgain(s4); }
    RunConcat(START, [Begin(0, true), Mark(0, true)], [Query([1]), Push]);
    RunConcat(START, [Begin(0, true), Mark(0, true)] + [Query([1]), Push], [Enqueue(0)]);
    assert SENT_ONCE[..5] == [Begin(0, true), Mark(0, true)] + [Query([1]), Push] + [Enqueue(0)];
  }

  lemma RunTwo(s: State, a: Step, b: Step)
    ensures RunFrom(s, [a, b]) == Apply(Apply(s, a), b)
  {
    RunThree(s, a, b, b);
  }

  lemma Marks()
    ensures Apply(Apply(START, Begin(0, true)), Mark(0, true))
            == START.(rows := map[1 := AsyncPending], nextId := 2, handlers := map[0 := Marked(1)], marked := {1})
  {
    hide ApplyLoader, ApplySender;
    var s1 := START.(rows := map[1 := Pending], nextId := 2, handlers := map[0 := Inserted(1, true)]);
    assert Apply(START, Begin(0, true)) == s1;
  }

  lemma Loads(s: State)
    requires s.rows == map[1 := AsyncPending] && s.loader.Waiting? && s.queue == [] && s.byLoader == {}
    ensures Apply(Apply(s, Query([1])), Push)
            == s.(queue := [1], loader := Loading([]), byLoader := {1}, markedBefore := s.marked)
  {
    hide Apply;
    Finds(s);
    LoadsOne(s.(loader := Loading([1]), markedBefore := s.marked));
  }

  lemma Finds(s: State)
    requires s.rows == map[1 := AsyncPending] && s.loader.Waiting?
    ensures Apply(s, Query([1])) == s.(loader := Loading([1]), markedBefore := s.marked)
  {
    hide ApplyHandler, ApplySender;
    assert IsQueryResult(s.rows, [1]);
  }

  lemma LoadsOne(s: State)
    requires s.loader == Loading([1]) && s.queue == [] && s.byLoader == {}
    ensures Apply(s, Push) == s.(queue := [1], loader := Loading([]), byLoader := {1})
  {
    hide ApplyHandler, ApplySender;
    assert [1][1..] == [] && [] + [1] == [1];
  }

  lemma EnqueuesAgain(s: State)
    requires s.queue == [1] && s.handlers == map[0 := Marked(1)] && s.byHandler == multiset{}
    ensures Apply(s, Enqueue(0)) == s.(queue := [1, 1], handlers := map[], byHandler := multiset{1})
  {
    hide ApplyLoader, ApplySender;
    assert [1] + [1] == [1, 1];
    assert s.handlers - {0} == map[];
  }

  lemma {:induction false} FromStart(steps: seq<Step>)
    ensures After(steps) == RunFrom(START, steps)
    decreases |steps|
  {
    hide Apply;
    if steps != [] {
      var before, last := steps[..|steps| - 1], steps[|steps| - 1];
      FromStart(before);
      RunConcat(START, before, [last]);
      RunOne(RunFrom(START, before), last);
      assert before + [last] == steps;
    }
  }

  /** In that run the id is enqueued twice, the row says Sent after the first send and Failed after the second. */
  lemma {:induction false} SentThenFailed()
    ensures Enqueued(After(SENT_ONCE).byHandler, After(SENT_ONCE).byLoader)[1] == 2
    ensures IsSent(After(SENT_ONCE), 1) && HasFailed(After(SENT_ONCE + SENT_AGAIN), 1)
  {
    hide After, RunFrom, Apply;
    var good, bad := Fate(true, true, true), Fate(true, false, true);
    EnqueuedTwice();
    SenderTurn(BOTH_QUEUED, good);
    var once := RunFrom(BOTH_QUEUED, SenderSteps(good));
    SenderTurn(once, bad);
    RunConcat(START, SENT_ONCE[..5], SenderSteps(good));
    assert SENT_ONCE == SENT_ONCE[..5] + SenderSteps(good) && SENT_AGAIN == SenderSteps(bad);
    RunConcat(START, SENT_ONCE, SENT_AGAIN);
    FromStart(SENT_ONCE);
    FromStart(SENT_ONCE + SENT_AGAIN);
  }
}
