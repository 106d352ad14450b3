/**
 * The code of the handlers, senders and loader as it runs when no other goroutine comes in between: each
 * has the effect of its steps, one after the other.
 */
module DeliveryCode {
  import opened Delivery

  function RunFrom(s: State, steps: seq<Step>): State
    decreases |steps|
  {
    if steps == [] then s else RunFrom(Apply(s, steps[0]), steps[1..])
  }

  /** What becomes of a sender's turn: whether it reads the row, sends the message and writes the row. */
  datatype Fate = Fate(fetches: bool, sends: bool, updates: bool)

  /** The steps of a sender's turn, as sender 0. */
  function SenderSteps(fate: Fate): seq<Step> {
    [Take(0), Fetch(0, fate.fetches), Send(0, fate.sends), Write(0, fate.updates)]
  }

  /** Waiting for room in the queue: when it is full, a sender takes its turn. */
  function WaitSteps(queued: nat, fate: Fate): seq<Step> {
    if queued < QUEUE_SIZE then [] else SenderSteps(fate)
  }

  /** The steps of a request that asks for its message to be stored, as handler 0. */
  function HandlerSteps(async: bool, inserts: bool, sends: bool, updates: bool, queued: nat, fate: Fate): seq<Step> {
    if async then
      (if inserts then [Begin(0, true), Mark(0, updates)] else [BeginFails(0)]) + WaitSteps(queued, fate) + [Enqueue(0)]
    else if inserts then [Begin(0, false), Deliver(0, sends), Settle(0, updates)]
    else []
  }

  /** The loader enqueues left ids, each when there is room. */
  function PushSteps(left: nat, queued: nat, turn: nat, fates: nat -> Fate): seq<Step> {
    if left == 0 then []
    else WaitSteps(queued, fates(turn)) + [Push] + PushSteps(left - 1, Grown(queued), turn + 1, fates)
  }

  /** The length of the queue once one id more is in it. */
  function Grown(queued: nat): nat {
    if queued < QUEUE_SIZE then queued + 1 else queued
  }

  function LoaderSteps(found: seq<Id>, queued: nat, fates: nat -> Fate): seq<Step> {
    [Query(found)] + PushSteps(|found|, queued, 0, fates)
  }

  lemma RunFirst(s: State, a: Step, rest: seq<Step>)
    ensures RunFrom(s, [a] + rest) == RunFrom(Apply(s, a), rest)
    ensures RunFrom(Apply(s, a), []) == Apply(s, a)
  {
    assert ([a] + rest)[1..] == rest;
  }

  lemma RunThree(s: State, a: Step, b: Step, c: Step)
    ensures RunFrom(s, [a, b, c]) == Apply(Apply(Apply(s, a), b), c)
    ensures RunFrom(s, [a, b]) == Apply(Apply(s, a), b)
  {
    hide Apply, RunFrom;
    RunFirst(s, a, [b, c]);
    RunFirst(s, a, [b]);
    RunFirst(Apply(s, a), b, [c]);
    RunFirst(Apply(s, a), b, []);
    RunFirst(Apply(Apply(s, a), b), c, []);
    assert [a, b, c] == [a] + [b, c] && [a, b] == [a] + [b] && [b, c] == [b] + [c];
    assert [b] == [b] + [] && [c] == [c] + [];
  }

  lemma RunFour(s: State, a: Step, b: Step, c: Step, d: Step)
    ensures RunFrom(s, [a, b, c, d]) == Apply(Apply(Apply(Apply(s, a), b), c), d)
  {
    hide Apply, RunFrom;
    RunFirst(s, a, [b, c, d]);
    RunThree(Apply(s, a), b, c, d);
    assert [a, b, c, d] == [a] + [b, c, d];
  }

  /** A process with nothing under way. */
  function Quiet(rows: map<Id, Status>, nextId: Id, queue: seq<Id>): State {
    START.(rows := rows, nextId := nextId, queue := queue)
  }

  /** The rows after a sender's turn with this id. */
  function RowsAfter(rows: map<Id, Status>, id: Id, fate: Fate): map<Id, Status> {
    if fate.fetches && fate.updates then SetStatus(rows, id, Outcome(fate.sends)) else rows
  }

  /** Nothing but the rows, the queue and the records of the senders differs. */
  predicate SameOtherwise(s: State, s': State) {
    && s'.nextId == s.nextId && s'.handlers == s.handlers && s'.loader == s.loader
    && s'.byHandler == s.byHandler && s'.byLoader == s.byLoader
  }

  /** One turn of a sender, whatever else is under way. */
  lemma SenderTurn(s: State, fate: Fate)
    requires s.senders == [Idle, Idle] && s.queue != []
    ensures var s' := RunFrom(s, SenderSteps(fate));
            && s'.rows == RowsAfter(s.rows, s.queue[0], fate) && s'.queue == s.queue[1..]
            && s'.senders == [Idle, Idle] && SameOtherwise(s, s')
  {
    hide RunFrom, Apply, RowsAfter;
    var id := s.queue[0];
    RunFour(s, Take(0), Fetch(0, fate.fetches), Send(0, fate.sends), Write(0, fate.updates));
    Taken(s);
    if fate.fetches && id in s.rows {
      FetchedTurn(Apply(s, Take(0)), id, fate);
    } else {
      UnfetchedTurn(Apply(s, Take(0)), id, fate);
    }
  }

  lemma Taken(s: State)
    requires s.senders == [Idle, Idle] && s.queue != []
    ensures Apply(s, Take(0)) == s.(senders := [Holding(s.queue[0]), Idle], queue := s.queue[1..])
  {
    hide ApplyHandler, ApplyLoader;
  }

  lemma UnfetchedTurn(s: State, id: Id, fate: Fate)
    requires s.senders == [Holding(id), Idle] && !(fate.fetches && id in s.rows)
    ensures var s' := Apply(Apply(Apply(s, Fetch(0, fate.fetches)), Send(0, fate.sends)), Write(0, fate.updates));
            && s'.rows == RowsAfter(s.rows, id, fate) && s'.queue == s.queue
            && s'.senders == [Idle, Idle] && SameOtherwise(s, s')
  {
    hide Apply;
    Unfetching(s, id, fate.fetches);
    IdleDoesNothing(Apply(s, Fetch(0, fate.fetches)), fate);
  }

  lemma Unfetching(s: State, id: Id, fetches: bool)
    requires s.senders == [Holding(id), Idle] && !(fetches && id in s.rows)
    ensures var s' := Apply(s, Fetch(0, fetches));
            s'.rows == s.rows && s'.queue == s.queue && s'.senders == [Idle, Idle] && SameOtherwise(s, s')
  {
    hide ApplyHandler, ApplyLoader;
  }

  lemma IdleDoesNothing(s: State, fate: Fate)
    requires s.senders == [Idle, Idle]
    ensures Apply(s, Send(0, fate.sends)) == s && Apply(s, Write(0, fate.updates)) == s
  {
    hide ApplyHandler, ApplyLoader;
  }

  lemma FetchedTurn(s: State, id: Id, fate: Fate)
    requires s.senders == [Holding(id), Idle] && id in s.rows && fate.fetches
    ensures var s' := Apply(Apply(Apply(s, Fetch(0, fate.fetches)), Send(0, fate.sends)), Write(0, fate.updates));
            && s'.rows == RowsAfter(s.rows, id, fate) && s'.queue == s.queue
            && s'.senders == [Idle, Idle] && SameOtherwise(s, s')
  {
    Fetching(s, id);
    var fetched := Apply(s, Fetch(0, true));
    Sending(fetched, id, fate.sends);
    Writing(Apply(fetched, Send(0, fate.sends)), id, fate);
  }

  lemma Fetching(s: State, id: Id)
    requires s.senders == [Holding(id), Idle] && id in s.rows
    ensures Apply(s, Fetch(0, true)) == s.(senders := [Fetched(id), Idle])
  {
    hide ApplyHandler, ApplyLoader;
  }

  lemma Sending(s: State, id: Id, sent: bool)
    requires s.senders == [Fetched(id), Idle]
    ensures Apply(s, Send(0, sent))
            == s.(senders := [Finished(id, sent), Idle], acked := if sent then s.acked + {id} else s.acked)
  {
    hide ApplyHandler, ApplyLoader;
  }

  lemma Writing(s: State, id: Id, fate: Fate)
    requires s.senders == [Finished(id, fate.sends), Idle] && fate.fetches
    ensures var s' := Apply(s, Write(0, fate.updates));
            && s'.rows == RowsAfter(s.rows, id, fate) && s'.queue == s.queue
            && s'.senders == [Idle, Idle] && SameOtherwise(s, s')
  {
    hide ApplyHandler, ApplyLoader;
  }

  lemma {:induction false} RunConcat(s: State, a: seq<Step>, b: seq<Step>)
    ensures RunFrom(s, a + b) == RunFrom(RunFrom(s, a), b)
    decreases |a|
  {
    hide Apply;
    if a == [] {
      assert a + b == b;
    } else {
      assert (a + b)[1..] == a[1..] + b;
      RunConcat(Apply(s, a[0]), a[1..], b);
    }
  }

  lemma RunOne(s: State, step: Step)
    ensures RunFrom(s, [step]) == Apply(s, step)
  {
    hide Apply;
    assert [step][1..] == [];
  }

  // Waiting for room, and enqueueing

  /** The rows when there is room, the head of the queue having made way if need be. */
  function RowsOnceFree(rows: map<Id, Status>, queue: seq<Id>, fate: Fate): map<Id, Status> {
    if |queue| < QUEUE_SIZE then rows else RowsAfter(rows, queue[0], fate)
  }

  function QueueOnceFree(queue: seq<Id>): seq<Id> {
    if |queue| < QUEUE_SIZE then queue else queue[1..]
  }

  lemma Waited(s: State, fate: Fate)
    requires s.senders == [Idle, Idle] && |s.queue| <= QUEUE_SIZE
    ensures var s' := RunFrom(s, WaitSteps(|s.queue|, fate));
            && s'.rows == RowsOnceFree(s.rows, s.queue, fate) && s'.queue == QueueOnceFree(s.queue)
            && s'.senders == [Idle, Idle] && SameOtherwise(s, s')
  {
    hide Apply;
    if |s.queue| == QUEUE_SIZE {
      SenderTurn(s, fate);
    }
  }

  lemma Enqueues(s: State, id: Id)
    requires s.handlers == map[0 := Marked(id)] && |s.queue| < QUEUE_SIZE
    ensures var s' := Apply(s, Enqueue(0));
            s'.rows == s.rows && s'.nextId == s.nextId && s'.queue == s.queue + [id]
  {
    hide ApplyLoader, ApplySender;
  }

  // A request on its own

  lemma Marking(rows: map<Id, Status>, nextId: Id, queue: seq<Id>, updates: bool)
    ensures var s := Apply(Apply(Quiet(rows, nextId, queue), Begin(0, true)), Mark(0, updates));
            && s.rows == rows[nextId := if updates then AsyncPending else Pending] && s.nextId == nextId + 1
            && s.queue == queue && s.handlers == map[0 := Marked(nextId)] && s.senders == [Idle, Idle]
  {
    hide ApplyLoader, ApplySender;
    var s := Quiet(rows, nextId, queue);
    assert Apply(s, Begin(0, true))
        == s.(rows := rows[nextId := Pending], nextId := nextId + 1, handlers := map[0 := Inserted(nextId, true)]);
  }

  lemma MarkingNothing(rows: map<Id, Status>, nextId: Id, queue: seq<Id>)
    ensures Apply(Quiet(rows, nextId, queue), BeginFails(0))
            == Quiet(rows, nextId, queue).(handlers := map[0 := Marked(0)])
  {
    hide ApplyLoader, ApplySender;
  }

  lemma Settling(rows: map<Id, Status>, nextId: Id, queue: seq<Id>, sends: bool, updates: bool)
    ensures var s := Apply(Apply(Apply(Quiet(rows, nextId, queue), Begin(0, false)), Deliver(0, sends)),
                           Settle(0, updates));
            && s.rows == rows[nextId := if updates then Outcome(sends) else Pending] && s.nextId == nextId + 1
            && s.queue == queue
  {
    hide ApplyLoader, ApplySender;
    var s := Quiet(rows, nextId, queue);
    var s1 := s.(rows := rows[nextId := Pending], nextId := nextId + 1, handlers := map[0 := Inserted(nextId, false)]);
    assert Apply(s, Begin(0, false)) == s1;
    assert Apply(s1, Deliver(0, sends))
        == s1.(handlers := map[0 := Delivered(nextId, sends)], acked := if sends then {nextId} else {});
  }

  /** From the moment its row is marked, an asynchronous request waits for room and enqueues. */
  lemma Enqueueing(s: State, first: seq<Step>, id: Id, fate: Fate)
    requires var marked := RunFrom(s, first);
             marked.handlers == map[0 := Marked(id)] && marked.senders == [Idle, Idle]
             && marked.queue == s.queue && |s.queue| <= QUEUE_SIZE
    ensures var marked := RunFrom(s, first);
            var s' := RunFrom(s, first + WaitSteps(|s.queue|, fate) + [Enqueue(0)]);
            && s'.rows == RowsOnceFree(marked.rows, s.queue, fate) && s'.nextId == marked.nextId
            && s'.queue == QueueOnceFree(s.queue) + [id]
  {
    hide RunFrom, Apply, WaitSteps;
    var wait := WaitSteps(|s.queue|, fate);
    Waited(RunFrom(s, first), fate);
    RunConcat(s, first, wait);
    RunConcat(s, first + wait, [Enqueue(0)]);
    RunOne(RunFrom(s, first + wait), Enqueue(0));
    Enqueues(RunFrom(s, first + wait), id);
  }

  /** A request whose message is stored: its row, and its place in the queue if it is asynchronous. */
  lemma StoredRequest(rows: map<Id, Status>, nextId: Id, queue: seq<Id>,
                      async: bool, sends: bool, updates: bool, fate: Fate)
    requires |queue| <= QUEUE_SIZE
    ensures var s := RunFrom(Quiet(rows, nextId, queue), HandlerSteps(async, true, sends, updates, |queue|, fate));
            var row := if !updates then Pending else if async then AsyncPending else Outcome(sends);
            && s.rows == (if async then RowsOnceFree(rows[nextId := row], queue, fate) else rows[nextId := row])
            && s.nextId == nextId + 1
            && s.queue == if async then QueueOnceFree(queue) + [nextId] else queue
  {
    hide RunFrom, Apply;
    var s := Quiet(rows, nextId, queue);
    if async {
      RunThree(s, Begin(0, true), Mark(0, updates), Push);
      Marking(rows, nextId, queue, updates);
      Enqueueing(s, [Begin(0, true), Mark(0, updates)], nextId, fate);
    } else {
      RunThree(s, Begin(0, false), Deliver(0, sends), Settle(0, updates));
      Settling(rows, nextId, queue, sends, updates);
    }
  }

  /** A request whose message could not be stored: no row, and id 0 in the queue if it is asynchronous. */
  lemma UnstoredRequest(rows: map<Id, Status>, nextId: Id, queue: seq<Id>,
                        async: bool, sends: bool, updates: bool, fate: Fate)
    requires |queue| <= QUEUE_SIZE
    ensures var s := RunFrom(Quiet(rows, nextId, queue), HandlerSteps(async, false, sends, updates, |queue|, fate));
            && s.rows == (if async then RowsOnceFree(rows, queue, fate) else rows) && s.nextId == nextId
            && s.queue == if async then QueueOnceFree(queue) + [0] else queue
  {
    if async {
      hide RunFrom, Apply;
      var s := Quiet(rows, nextId, queue);
      RunOne(s, BeginFails(0));
      MarkingNothing(rows, nextId, queue);
      Enqueueing(s, [BeginFails(0)], 0, fate);
    }
  }

  // The loader on its own

  lemma Queried(rows: map<Id, Status>, nextId: Id, queue: seq<Id>, found: seq<Id>)
    requires IsQueryResult(rows, found)
    ensures var s := RunFrom(Quiet(rows, nextId, queue), [Query(found)]);
            && s.rows == rows && s.nextId == nextId && s.queue == queue && s.loader == Loading(found)
            && s.senders == [Idle, Idle]
  {
    hide ApplyHandler, ApplySender;
    assert [Query(found)][1..] == [];
  }

  lemma Pushed(s: State, ids: seq<Id>, i: nat)
    requires i < |ids| && s.loader == Loading(ids[i..]) && |s.queue| < QUEUE_SIZE
    ensures var s' := Apply(s, Push);
            s'.rows == s.rows && s'.nextId == s.nextId && s'.queue == s.queue + [ids[i]]
            && s'.loader == Loading(ids[i + 1..]) && s'.senders == s.senders
  {
    hide ApplyHandler, ApplySender;
    assert ids[i..][1..] == ids[i + 1..];
  }

  /** The loader gets rid of one id. */
  lemma LoadedOne(s: State, ids: seq<Id>, i: nat, fate: Fate)
    requires i < |ids| && s.loader == Loading(ids[i..]) && s.senders == [Idle, Idle] && |s.queue| <= QUEUE_SIZE
    ensures var s' := RunFrom(s, WaitSteps(|s.queue|, fate) + [Push]);
            && s'.rows == RowsOnceFree(s.rows, s.queue, fate) && s'.nextId == s.nextId
            && s'.queue == QueueOnceFree(s.queue) + [ids[i]]
            && s'.loader == Loading(ids[i + 1..]) && s'.senders == [Idle, Idle]
  {
    hide RunFrom, Apply, WaitSteps;
    var wait := WaitSteps(|s.queue|, fate);
    Waited(s, fate);
    RunConcat(s, wait, [Push]);
    RunOne(RunFrom(s, wait), Push);
    Pushed(RunFrom(s, wait), ids, i);
  }

  lemma OneFirst(steps: seq<Step>, left: nat, queued: nat, turn: nat, fates: nat -> Fate)
    requires left > 0
    ensures steps + PushSteps(left, queued, turn, fates)
            == steps + (WaitSteps(queued, fates(turn)) + [Push]) + PushSteps(left - 1, Grown(queued), turn + 1, fates)
  {
    hide WaitSteps;
  }

  lemma NothingLeft(steps: seq<Step>, queued: nat, turn: nat, fates: nat -> Fate)
    ensures steps + PushSteps(0, queued, turn, fates) == steps
  {
  }

  /** The table and the queue, as the code changes them. */
  class Server {
    var rows: map<Id, Status>
    var nextId: Id
    var queue: seq<Id>

    /** A process at work on this table and queue, with no other goroutine under way. */
    ghost function View(): State
      reads this
    {
      Quiet(rows, nextId, queue)
    }

    /** The table and the queue are as after the steps. */
    twostate predicate DidSteps(steps: seq<Step>)
      reads this
    {
      var s := RunFrom(old(View()), steps);
      rows == s.rows && nextId == s.nextId && queue == s.queue
    }

    ghost predicate Valid()
      reads this
    {
      nextId > 0 && |queue| <= QUEUE_SIZE && forall id :: id in rows ==> 0 < id < nextId
    }

    constructor ()
      ensures Valid() && rows == map[] && queue == []
    {
      rows, nextId, queue := map[], 1, [];
    }

    /** UpdateAndInsert: a fresh id, or 0 and no row when the database fails. */
    method UpdateAndInsert(inserts: bool) returns (id: Id)
      requires Valid()
      modifies this
      ensures Valid() && queue == old(queue)
      ensures inserts ==> id == old(nextId) && rows == old(rows)[id := Pending] && nextId == id + 1
      ensures !inserts ==> id == 0 && rows == old(rows) && nextId == old(nextId)
    {
      if !inserts {
        return 0;
      }
      id := nextId;
      rows := rows[id := Pending];
      nextId := nextId + 1;
    }

    /** UpdateStatus: without a key, or when the database fails, nothing is written. */
    method UpdateStatus(id: Id, status: Status, updates: bool)
      requires Valid()
      modifies `rows
      ensures Valid() && rows == if updates then SetStatus(old(rows), id, status) else old(rows)
    {
      if updates && id in rows {
        rows := rows[id := status];
      }
    }

    /**
     * saveAndSendMessage, its deferred block included; the result is whether it returns nil. When the queue is
     * full an asynchronous request waits for a sender's turn, which has this fate.
     */
    method SaveAndSendMessage(enabled: bool, persisted: bool, async: bool, inserts: bool, sends: bool, updates: bool,
                              fate: Fate)
      returns (success: bool)
      requires Valid()
      modifies this
      ensures Valid()
      ensures success <==> enabled && (if persisted then inserts && (async || sends) else !async && sends)
      ensures DidSteps(if enabled && persisted then HandlerSteps(async, inserts, sends, updates, old(|queue|), fate)
                       else [])
    {
      hide Apply, HandlerSteps, RowsOnceFree;
      if !enabled {
        return false;
      }
      if !persisted {
        return !async && sends;
      }
      var id := UpdateAndInsert(inserts);
      success := inserts;
      if success && !async {
        success := sends;
      }
      UpdateStatus(id, if async then AsyncPending else if success then Sent else Failed, updates);
      assert inserts && updates ==> rows == old(rows)[id := if async then AsyncPending else Outcome(sends)];
      assert !inserts ==> rows == old(rows);
      if async {
        EnqueueOnceFree(id, fate);
      }
      hide RunFrom, QueueOnceFree;
      if inserts {
        StoredRequest(old(rows), old(nextId), old(queue), async, sends, updates, fate);
      } else {
        UnstoredRequest(old(rows), old(nextId), old(queue), async, sends, updates, fate);
      }
    }

    /** AsyncMessageQueue <- id */
    method EnqueueOnceFree(id: Id, fate: Fate)
      requires Valid()
      modifies this
      ensures Valid() && nextId == old(nextId)
      ensures rows == RowsOnceFree(old(rows), old(queue), fate) && queue == QueueOnceFree(old(queue)) + [id]
    {
      if |queue| == QUEUE_SIZE {
        AsyncMessageSender(fate);
      }
      queue := queue + [id];
    }

    /** One turn of asyncMessageSender, from the moment there is something to receive. */
    method AsyncMessageSender(fate: Fate)
      requires Valid() && queue != []
      modifies this
      ensures Valid() && DidSteps(SenderSteps(fate))
      ensures rows == RowsAfter(old(rows), old(queue)[0], fate) && queue == old(queue)[1..] && nextId == old(nextId)
    {
      var id := queue[0];
      queue := queue[1..];
      if fate.fetches && id in rows {
        var status := Failed;
        if fate.sends {
          status := Sent;
        }
        UpdateStatus(id, status, fate.updates);
      }
      hide RunFrom, SenderSteps;
      SenderTurn(old(View()), fate);
    }

    /** GetAsyncPendingMessageIds. */
    method GetAsyncPendingMessageIds() returns (ids: seq<Id>)
      ensures IsQueryResult(rows, ids)
    {
      ids := [];
      var rest := rows.Keys;
      while rest != {}
        invariant rest <= rows.Keys && NoDuplicates(ids)
        invariant forall id :: id in ids ==> id !in rest && IsAsyncPending(rows, id)
        invariant forall id :: id in rows && id !in rest && rows[id] == AsyncPending ==> id in ids
        decreases rest
      {
        var id :| id in rest;
        if rows[id] == AsyncPending {
          ids := ids + [id];
        }
        rest := rest - {id};
      }
    }

    /** LoadAsyncMessages; whenever the queue is full it waits for a sender's turn, which has the next of the fates. */
    method LoadAsyncMessages(fates: nat -> Fate) returns (ids: seq<Id>)
      requires Valid()
      modifies this
      ensures Valid() && IsQueryResult(old(rows), ids)
      ensures DidSteps(LoaderSteps(ids, old(|queue|), fates))
      ensures ids != [] ==> queue != [] && queue[|queue| - 1] == ids[|ids| - 1]
      ensures old(|queue|) + |ids| <= QUEUE_SIZE ==> rows == old(rows) && queue == old(queue) + ids
    {
      hide RunFrom, Apply, WaitSteps, PushSteps, IsQueryResult, RowsAfter;
      ids := GetAsyncPendingMessageIds();
      Queried(rows, nextId, queue, ids);
      ghost var steps := [Query(ids)];
      ghost var s := RunFrom(View(), steps);
      for i := 0 to |ids|
        invariant Valid() && nextId == old(nextId)
        invariant steps + PushSteps(|ids| - i, |queue|, i, fates) == LoaderSteps(ids, old(|queue|), fates)
        invariant s == RunFrom(old(View()), steps) && s.senders == [Idle, Idle]
        invariant s.rows == rows && s.nextId == nextId && s.queue == queue && s.loader == Loading(ids[i..])
        invariant i > 0 ==> queue != [] && queue[|queue| - 1] == ids[i - 1]
        invariant old(|queue|) + |ids| <= QUEUE_SIZE ==> rows == old(rows) && queue == old(queue) + ids[..i]
      {
        ghost var one := WaitSteps(|queue|, fates(i)) + [Push];
        OneFirst(steps, |ids| - i, |queue|, i, fates);
        LoadedOne(s, ids, i, fates(i));
        RunConcat(old(View()), steps, one);
        steps := steps + one;
        s := RunFrom(s, one);
        EnqueueOnceFree(ids[i], fates(i));
        assert ids[..i + 1] == ids[..i] + [ids[i]];
      }
      NothingLeft(steps, |queue|, |ids|, fates);
      assert ids[..|ids|] == ids;
    }
  }
}
