/**
 * The delivery system drains: each step of its own goroutines reduces the work left, and while there is work
 * some goroutine can go on, so the bounded queue never blocks all of them.
 */
module DeliveryProgress {
  import opened Delivery
  import opened DeliveryLaws

  /** A step of a goroutine that is already there. */
  predicate IsInternal(step: Step) {
    !step.Begin? && !step.BeginFails? && !step.Delete? && !step.Crash?
  }

  /** The database answers, if the step calls it. */
  predicate Succeeds(step: Step) {
    match step
    case Mark(_, ok) => ok
    case Settle(_, ok) => ok
    case Fetch(_, ok) => ok
    case Write(_, ok) => ok
    case _ => true
  }

  // The work left

  /** A message to be enqueued costs five steps, twice that if the loader may find it as well. */
  function HandlerWork(x: Handler, waiting: bool): nat {
    match x
    case Inserted(_, async) => if !async then 2 else if waiting then 11 else 6
    case Marked(_) => 5
    case Delivered(_, _) => 1
  }

  function SenderWork(x: Sender): nat {
    match x
    case Idle => 0
    case Holding(_) => 3
    case Fetched(_) => 2
    case Finished(_, _) => 1
  }

  ghost function Pick(handlers: map<nat, Handler>): (h: nat)
    requires handlers != map[]
    ensures h in handlers
  {
    assert exists h :: h in handlers by {
      assert handlers.Keys != {};
    }
    var h :| h in handlers;
    h
  }

  ghost function TotalWork(handlers: map<nat, Handler>, waiting: bool): nat
    decreases |handlers|
  {
    if handlers == map[] then 0
    else HandlerWork(handlers[Pick(handlers)], waiting) + TotalWork(handlers - {Pick(handlers)}, waiting)
  }

  ghost function Queued(rows: map<Id, Status>): set<Id> {
    set id | id in rows && rows[id] == AsyncPending
  }

  ghost function LoaderWork(loader: Loader, rows: map<Id, Status>): nat {
    match loader
    case Waiting => 1 + 5 * |Queued(rows)|
    case Loading(rest) => 5 * |rest|
  }

  ghost function Work(s: State): nat
    requires |s.senders| == 2
  {
    TotalWork(s.handlers, s.loader.Waiting?) + LoaderWork(s.loader, s.rows) + 4 * |s.queue|
    + SenderWork(s.senders[0]) + SenderWork(s.senders[1])
  }

  lemma {:induction false} TotalSplits(handlers: map<nat, Handler>, waiting: bool, h: nat)
    requires h in handlers
    ensures TotalWork(handlers, waiting) == HandlerWork(handlers[h], waiting) + TotalWork(handlers - {h}, waiting)
    decreases |handlers|
  {
    var g := Pick(handlers);
    if g != h {
      var fewer := handlers - {g};
      assert |fewer| < |handlers| && |handlers - {h}| < |handlers| by {
        assert fewer.Keys == handlers.Keys - {g} && (handlers - {h}).Keys == handlers.Keys - {h};
        assert |fewer.Keys| == |handlers.Keys| - 1 && |(handlers - {h}).Keys| == |handlers.Keys| - 1;
      }
      TotalSplits(fewer, waiting, h);
      TotalSplits(handlers - {h}, waiting, g);
      assert fewer - {h} == handlers - {h} - {g};
    }
  }

  lemma TotalAfterMove(handlers: map<nat, Handler>, waiting: bool, h: nat, x: Handler)
    requires h in handlers
    ensures TotalWork(handlers[h := x], waiting) + HandlerWork(handlers[h], waiting)
            == TotalWork(handlers, waiting) + HandlerWork(x, waiting)
    ensures TotalWork(handlers - {h}, waiting) + HandlerWork(handlers[h], waiting) == TotalWork(handlers, waiting)
  {
    TotalSplits(handlers, waiting, h);
    TotalSplits(handlers[h := x], waiting, h);
    assert handlers[h := x] - {h} == handlers - {h};
  }

  lemma {:induction false} TotalAfterQuery(handlers: map<nat, Handler>)
    ensures TotalWork(handlers, false) <= TotalWork(handlers, true)
    decreases |handlers|
  {
    if handlers != map[] {
      var g := Pick(handlers);
      assert |handlers - {g}| < |handlers| by {
        assert (handlers - {g}).Keys == handlers.Keys - {g};
        assert |(handlers - {g}).Keys| == |handlers.Keys| - 1;
      }
      TotalAfterQuery(handlers - {g});
    }
  }

  lemma QueuedAfterWrite(rows: map<Id, Status>, id: Id, status: Status)
    ensures |Queued(SetStatus(rows, id, status))| <= |Queued(rows)| + (if status == AsyncPending then 1 else 0)
  {
    var after := Queued(SetStatus(rows, id, status));
    if status == AsyncPending {
      assert after <= Queued(rows) + {id};
      Subset(after, Queued(rows) + {id});
    } else {
      assert after <= Queued(rows);
      Subset(after, Queued(rows));
    }
  }

  lemma Subset(a: set<Id>, b: set<Id>)
    requires a <= b
    ensures |a| <= |b|
  {
    assert a + (b - a) == b;
  }

  lemma {:induction false} DistinctCount(ids: seq<Id>, all: set<Id>)
    requires NoDuplicates(ids) && forall id :: id in ids <==> id in all
    ensures |ids| == |all|
    decreases |ids|
  {
    if ids == [] {
      assert all == {};
    } else {
      var n := |ids| - 1;
      assert forall id :: id in ids <==> id in ids[..n] || id == ids[n];
      DistinctCount(ids[..n], all - {ids[n]});
    }
  }

  lemma {:induction false} Enumerate(all: set<Id>) returns (ids: seq<Id>)
    ensures NoDuplicates(ids) && forall id :: id in ids <==> id in all
    decreases all
  {
    if all == {} {
      ids := [];
    } else {
      var id :| id in all;
      var others := Enumerate(all - {id});
      ids := others + [id];
    }
  }

  // Steps shrink the work

  lemma HandlerShrinks(s: State, step: Step)
    requires |s.senders| == 2 && IsInternal(step) && ApplyHandler(s, step) != s
    ensures Work(ApplyHandler(s, step)) < Work(s)
  {
    hide TotalWork, Queued, SetStatus;
    var s' := ApplyHandler(s, step);
    var w := s.loader.Waiting?;
    match step {
      case Mark(h, _) =>
        TotalAfterMove(s.handlers, w, h, Marked(s.handlers[h].id));
        QueuedAfterWrite(s.rows, s.handlers[h].id, AsyncPending);
      case Deliver(h, sent) =>
        TotalAfterMove(s.handlers, w, h, Delivered(s.handlers[h].id, sent));
      case Enqueue(h) =>
        TotalAfterMove(s.handlers, w, h, s.handlers[h]);
      case Settle(h, _) =>
        TotalAfterMove(s.handlers, w, h, s.handlers[h]);
        QueuedAfterWrite(s.rows, s.handlers[h].id, Outcome(s.handlers[h].sent));
      case _ =>
    }
  }

  lemma LoaderShrinks(s: State, step: Step)
    requires |s.senders| == 2 && IsInternal(step) && ApplyLoader(s, step) != s
    ensures Work(ApplyLoader(s, step)) < Work(s)
  {
    hide TotalWork;
    match step {
      case Query(found) =>
        TotalAfterQuery(s.handlers);
        DistinctCount(found, Queued(s.rows));
      case _ =>
    }
  }

  lemma SenderShrinks(s: State, step: Step)
    requires |s.senders| == 2 && IsInternal(step) && ApplySender(s, step) != s
    ensures Work(ApplySender(s, step)) < Work(s)
  {
    hide TotalWork, Queued, SetStatus;
    if step.Write? {
      QueuedAfterWrite(s.rows, s.senders[step.k].id, Outcome(s.senders[step.k].sent));
    }
  }

  /** Every step that does something leaves less to do. */
  lemma StepShrinks(s: State, step: Step)
    requires |s.senders| == 2 && IsInternal(step) && Apply(s, step) != s
    ensures |Apply(s, step).senders| == 2 && Work(Apply(s, step)) < Work(s)
    ensures Succeeds(step) ==> Apply(s, step).faults == s.faults
  {
    hide Work;
    if ApplyHandler(s, step) != s {
      HandlerShrinks(s, step);
    } else if ApplyLoader(s, step) != s {
      LoaderShrinks(s, step);
    } else if ApplySender(s, step) != s {
      SenderShrinks(s, step);
    }
  }

  // Some step can be taken

  lemma SenderMoves(s: State, k: nat) returns (step: Step)
    requires k < |s.senders| && !s.senders[k].Idle?
    ensures IsInternal(step) && Succeeds(step) && Apply(s, step) != s
  {
    match s.senders[k] {
      case Holding(_) => step := Fetch(k, true);
      case Fetched(_) => step := Send(k, true);
      case Finished(_, _) => step := Write(k, true);
    }
    assert ApplySender(s, step).senders[k] != s.senders[k];
  }

  lemma HandlerMoves(s: State, h: nat) returns (step: Step)
    requires h in s.handlers && |s.queue| < QUEUE_SIZE
    ensures IsInternal(step) && Succeeds(step) && Apply(s, step) != s
  {
    match s.handlers[h] {
      case Inserted(_, async) => step := if async then Mark(h, true) else Deliver(h, true);
      case Marked(_) => step := Enqueue(h);
      case Delivered(_, _) => step := Settle(h, true);
    }
    var after := ApplyHandler(s, step).handlers;
    assert h !in after || after[h] != s.handlers[h];
  }

  lemma LoaderMoves(s: State) returns (step: Step)
    requires s.loader != Loading([]) && |s.queue| < QUEUE_SIZE
    ensures IsInternal(step) && Succeeds(step) && Apply(s, step) != s
  {
    if s.loader.Waiting? {
      var found := Enumerate(Queued(s.rows));
      step := Query(found);
      assert IsQueryResult(s.rows, found);
    } else {
      step := Push;
      assert |ApplyLoader(s, step).queue| == |s.queue| + 1;
    }
  }

  /** Unless the system is at rest, some goroutine can take a step: the bounded queue cannot deadlock it. */
  lemma NeverStuck(s: State) returns (step: Step)
    requires |s.senders| == 2 && !AtRest(s)
    ensures IsInternal(step) && Succeeds(step) && Apply(s, step) != s
  {
    if !s.senders[0].Idle? {
      step := SenderMoves(s, 0);
    } else if !s.senders[1].Idle? {
      step := SenderMoves(s, 1);
    } else if s.queue != [] {
      step := Take(0);
      assert ApplySender(s, step).senders[0] != s.senders[0];
    } else if s.loader != Loading([]) {
      step := LoaderMoves(s);
    } else {
      assert s.senders == [Idle, Idle];
      step := HandlerMoves(s, Pick(s.handlers));
    }
  }

  /** The steps from here on are internal and each does something. */
  ghost predicate AllMove(steps: seq<Step>, more: seq<Step>) {
    forall i :: 0 <= i < |more| ==>
      IsInternal(more[i]) && Apply(After(steps + more[..i]), more[i]) != After(steps + more[..i])
  }

  /** Whatever order the goroutines run in, and whatever fails, they come to an end within Work steps. */
  lemma {:induction false} EndsWithinWork(steps: seq<Step>, more: seq<Step>)
    requires AllMove(steps, more)
    ensures |more| + Work(After(steps + more)) <= Work(After(steps))
    ensures (forall i :: 0 <= i < |more| ==> Succeeds(more[i])) ==> After(steps + more).faults == After(steps).faults
    decreases |more|
  {
    hide Work, Apply, After;
    if more == [] {
      assert steps + more == steps;
    } else {
      var m := |more| - 1;
      forall i | 0 <= i < m
        ensures var s := After(steps + more[..m][..i]); IsInternal(more[..m][i]) && Apply(s, more[..m][i]) != s
      {
        assert more[..m][..i] == more[..i];
      }
      EndsWithinWork(steps, more[..m]);
      AfterMore(steps, more);
      StepShrinks(After(steps + more[..m]), more[m]);
    }
  }

  /**
   * From every reachable state the goroutines alone bring the system to rest; then no row is left
   * AsyncPending but for those whose sender had already lost the database.
   */
  lemma {:induction false} Drains(steps: seq<Step>) returns (more: seq<Step>)
    ensures |more| <= Work(After(steps))
    ensures forall i :: 0 <= i < |more| ==> IsInternal(more[i]) && Succeeds(more[i])
    ensures AtRest(After(steps + more))
    ensures forall id :: IsAsyncPending(After(steps + more).rows, id) ==> id in After(steps).faults
    decreases Work(After(steps))
  {
    hide Work, Apply, After, AtRest;
    if AtRest(After(steps)) {
      more := [];
      assert steps + more == steps;
      forall id | IsAsyncPending(After(steps).rows, id) ensures id in After(steps).faults {
        NoMessageLost(steps, id);
      }
    } else {
      var step := NeverStuck(After(steps));
      StepShrinks(After(steps), step);
      AfterMore(steps, [step]);
      assert steps + [step][..0] == steps;
      var others := Drains(steps + [step]);
      more := [step] + others;
      assert steps + more == steps + [step] + others;
    }
  }
}
