/**
 * Asynchronous delivery: request handlers (controller/message.go), the queue, its senders and the start-up
 * loader (channel/message-queue.go), and the message table (model/message.go), as a step system. Each step is
 * what one goroutine does between two points where another may come in; a crash may come between any two.
 */
module Delivery {

  /** The primary key of a message; 0 is the key of a message that was not inserted. */
  type Id = nat

  datatype Status = Pending | Sent | Failed | AsyncPending

  const QUEUE_SIZE := 128

  /** A request in saveAndSendMessage, by the point it has reached. */
  datatype Handler =
    | Inserted(id: Id, async: bool)    // the row is in, the deferred block is still to run
    | Marked(id: Id)                   // the deferred block is about to enqueue
    | Delivered(id: Id, sent: bool)    // a synchronous message went out or failed, the status is to be written

  /** A goroutine in asyncMessageSender. */
  datatype Sender =
    | Idle
    | Holding(id: Id)                  // received from the queue
    | Fetched(id: Id)                  // the row was read, the message is to be sent
    | Finished(id: Id, sent: bool)     // sent or failed, the status is to be written

  datatype Loader = Waiting | Loading(rest: seq<Id>)

  datatype State = State(
    // the database
    rows: map<Id, Status>, nextId: Id,
    // the process
    queue: seq<Id>, handlers: map<nat, Handler>, senders: seq<Sender>, loader: Loader,
    // record: ids that some send returned nil for
    acked: set<Id>,
    // records of this process life: the first id it gave out, enqueues by source, ids a sender is done with,
    // AsyncPending writes, those of them that came before the loader's query, and ids whose sender lost the database
    firstId: Id, byHandler: multiset<Id>, byLoader: set<Id>, done: multiset<Id>,
    marked: set<Id>, markedBefore: set<Id>, faults: set<Id>)

  /** An empty table and a process that has just started. */
  const START := State(map[], 1, [], map[], [Idle, Idle], Waiting, {}, 1, multiset{}, {}, multiset{}, {}, {}, {})

  datatype Step =
    | Begin(h: nat, async: bool)       // UpdateAndInsert succeeds
    | BeginFails(h: nat)               // it fails for an asynchronous message: the deferred block runs with Id 0
    | Mark(h: nat, ok: bool)           // UpdateStatus(AsyncPending) in the deferred block
    | Enqueue(h: nat)
    | Deliver(h: nat, sent: bool)      // SendMessage of a synchronous message
    | Settle(h: nat, ok: bool)         // UpdateStatus(Sent or Failed) in the deferred block
    | Query(found: seq<Id>)            // GetAsyncPendingMessageIds, in whatever order
    | Push                             // the loader enqueues one id
    | Take(k: nat)                     // a sender receives
    | Fetch(k: nat, ok: bool)          // GetMessageById, failing for want of the database if not ok
    | Send(k: nat, sent: bool)
    | Write(k: nat, ok: bool)          // the sender's UpdateStatus
    | Delete(ids: set<Id>)             // users delete messages
    | Crash                            // and restart

  /** UPDATE ... SET status WHERE id: a row that is gone is not an error. */
  function SetStatus(rows: map<Id, Status>, id: Id, status: Status): map<Id, Status> {
    if id in rows then rows[id := status] else rows
  }

  function Outcome(sent: bool): Status {
    if sent then Sent else Failed
  }

  predicate IsAsyncPending(rows: map<Id, Status>, id: Id) {
    id in rows && rows[id] == AsyncPending
  }

  predicate IsFinal(rows: map<Id, Status>, id: Id) {
    id in rows && (rows[id] == Sent || rows[id] == Failed)
  }

  predicate NoDuplicates(ids: seq<Id>) {
    forall i, j :: 0 <= i < j < |ids| ==> ids[i] != ids[j]
  }

  /** The ids of the AsyncPending rows, each once. */
  predicate IsQueryResult(rows: map<Id, Status>, found: seq<Id>) {
    && NoDuplicates(found)
    && (forall id :: id in found ==> IsAsyncPending(rows, id))
    && (forall id :: id in rows && rows[id] == AsyncPending ==> id in found)
  }

  predicate IsAt(s: State, k: nat) {
    k < |s.senders|
  }

  // What each step does; a step the state is not ready for does nothing

  function ApplyHandler(s: State, step: Step): State {
    match step
    case Begin(h, async) =>
      if h in s.handlers then s
      else s.(rows := s.rows[s.nextId := Pending], nextId := s.nextId + 1,
              handlers := s.handlers[h := Inserted(s.nextId, async)])
    case BeginFails(h) =>
      if h in s.handlers then s else s.(handlers := s.handlers[h := Marked(0)])
    case Mark(h, ok) =>
      if h in s.handlers && s.handlers[h].Inserted? && s.handlers[h].async then
        var id := s.handlers[h].id;
        var s' := s.(handlers := s.handlers[h := Marked(id)]);
        if ok then s'.(rows := SetStatus(s.rows, id, AsyncPending), marked := s.marked + {id}) else s'
      else s
    case Enqueue(h) =>
      if h in s.handlers && s.handlers[h].Marked? && |s.queue| < QUEUE_SIZE then
        var id := s.handlers[h].id;
        s.(queue := s.queue + [id], handlers := s.handlers - {h}, byHandler := s.byHandler + multiset{id})
      else s
    case Deliver(h, sent) =>
      if h in s.handlers && s.handlers[h].Inserted? && !s.handlers[h].async then
        var id := s.handlers[h].id;
        s.(handlers := s.handlers[h := Delivered(id, sent)], acked := if sent then s.acked + {id} else s.acked)
      else s
    case Settle(h, ok) =>
      if h in s.handlers && s.handlers[h].Delivered? then
        var s' := s.(handlers := s.handlers - {h});
        if ok then s'.(rows := SetStatus(s.rows, s.handlers[h].id, Outcome(s.handlers[h].sent))) else s'
      else s
    case _ => s
  }

  function ApplyLoader(s: State, step: Step): State {
    match step
    case Query(found) =>
      if s.loader.Waiting? && IsQueryResult(s.rows, found)
      then s.(loader := Loading(found), markedBefore := s.marked)
      else s
    case Push =>
      if s.loader.Loading? && s.loader.rest != [] && |s.queue| < QUEUE_SIZE then
        var id := s.loader.rest[0];
        s.(queue := s.queue + [id], loader := Loading(s.loader.rest[1..]), byLoader := s.byLoader + {id})
      else s
    case _ => s
  }

  function ApplySender(s: State, step: Step): State {
    match step
    case Take(k) =>
      if IsAt(s, k) && s.senders[k].Idle? && s.queue != []
      then s.(senders := s.senders[k := Holding(s.queue[0])], queue := s.queue[1..])
      else s
    case Fetch(k, ok) =>
      if IsAt(s, k) && s.senders[k].Holding? then
        var id := s.senders[k].id;
        if ok && id in s.rows then s.(senders := s.senders[k := Fetched(id)])
        else s.(senders := s.senders[k := Idle], done := s.done + multiset{id},
                faults := if ok then s.faults else s.faults + {id})
      else s
    case Send(k, sent) =>
      if IsAt(s, k) && s.senders[k].Fetched? then
        var id := s.senders[k].id;
        s.(senders := s.senders[k := Finished(id, sent)], acked := if sent then s.acked + {id} else s.acked)
      else s
    case Write(k, ok) =>
      if IsAt(s, k) && s.senders[k].Finished? then
        var id := s.senders[k].id;
        var s' := s.(senders := s.senders[k := Idle], done := s.done + multiset{id});
        if ok then s'.(rows := SetStatus(s.rows, id, Outcome(s.senders[k].sent))) else s'.(faults := s.faults + {id})
      else s
    case _ => s
  }

  function Apply(s: State, step: Step): (after: State)
    ensures |after.senders| == if step.Crash? then 2 else |s.senders|
  {
    match step
    case Delete(ids) => s.(rows := s.rows - ids)
    case Crash => START.(rows := s.rows, nextId := s.nextId, acked := s.acked, firstId := s.nextId)
    case Query(_) => ApplyLoader(s, step)
    case Push => ApplyLoader(s, step)
    case Take(_) => ApplySender(s, step)
    case Fetch(_, _) => ApplySender(s, step)
    case Send(_, _) => ApplySender(s, step)
    case Write(_, _) => ApplySender(s, step)
    case _ => ApplyHandler(s, step)
  }

  /** The state after a run: any sequence of steps is one. */
  function After(steps: seq<Step>): (s: State)
    ensures |s.senders| == 2
    decreases |steps|
  {
    if steps == [] then START else Apply(After(steps[..|steps| - 1]), steps[|steps| - 1])
  }

  // The invariant

  function IdOf(sender: Sender): multiset<Id> {
    match sender
    case Idle => multiset{}
    case Holding(id) => multiset{id}
    case Fetched(id) => multiset{id}
    case Finished(id, _) => multiset{id}
  }

  /** The ids the two senders are working on. */
  function InFlight(senders: seq<Sender>): multiset<Id>
    requires |senders| == 2
  {
    IdOf(senders[0]) + IdOf(senders[1])
  }

  function Remaining(loader: Loader): seq<Id> {
    if loader.Loading? then loader.rest else []
  }

  /** All enqueues of this life. */
  function Enqueued(byHandler: multiset<Id>, byLoader: set<Id>): multiset<Id> {
    byHandler + multiset(byLoader)
  }

  /** The loader found the id: it has enqueued it or will. */
  predicate IsFound(byLoader: set<Id>, loader: Loader, id: Id) {
    id in byLoader || id in Remaining(loader)
  }

  /** Every enqueue of this life is in the queue, with a sender, or done. */
  ghost predicate Accounted(s: State) {
    && |s.senders| == 2 && |s.queue| <= QUEUE_SIZE
    && Enqueued(s.byHandler, s.byLoader) == multiset(s.queue) + InFlight(s.senders) + s.done
  }

  /** Ids are given out once: a live handler's id is its own, of this life, and not enqueued by a handler yet. */
  ghost predicate OwnIds(handlers: map<nat, Handler>, byHandler: multiset<Id>, firstId: Id, nextId: Id) {
    && (forall h :: h in handlers && handlers[h].id != 0 ==>
          firstId <= handlers[h].id < nextId && handlers[h].id !in byHandler)
    && (forall h, g :: h in handlers && g in handlers && h != g && handlers[h].id == handlers[g].id ==>
          handlers[h].id == 0)
    && (forall id :: id in byHandler && id != 0 ==> firstId <= id < nextId && byHandler[id] == 1)
    && (forall h :: h in handlers && !handlers[h].Marked? ==> handlers[h].id != 0)
  }

  ghost predicate HandlersOwnIds(s: State) {
    && 0 < s.firstId <= s.nextId
    && (forall id :: id in s.rows ==> 0 < id < s.nextId)
    && OwnIds(s.handlers, s.byHandler, s.firstId, s.nextId)
  }

  /** The loader enqueues each id it found once; what it found of this life was marked before its query. */
  ghost predicate LoaderOnce(s: State) {
    && (s.loader.Waiting? ==> s.byLoader == {})
    && NoDuplicates(Remaining(s.loader))
    && (forall id :: id in Remaining(s.loader) ==> id !in s.byLoader)
    && (forall id: Id :: IsFound(s.byLoader, s.loader, id) ==>
          0 < id < s.nextId && (id >= s.firstId ==> id in s.markedBefore))
    && (forall id :: id in s.rows && s.rows[id] == AsyncPending && id >= s.firstId ==> id in s.marked)
  }

  /** The row of a request whose deferred block has not run is Pending and known to no sender or loader. */
  ghost predicate InsertedIsPending(s: State) {
    forall h :: h in s.handlers && !s.handlers[h].Marked? ==>
      && (s.handlers[h].id in s.rows ==> s.rows[s.handlers[h].id] == Pending)
      && !IsFound(s.byLoader, s.loader, s.handlers[h].id)
  }

  /** A row says Sent only of a message some send accepted. */
  ghost predicate SentIsAcked(s: State) {
    && (forall id :: id in s.rows && s.rows[id] == Sent ==> id in s.acked)
    && (forall h :: h in s.handlers && s.handlers[h].Delivered? && s.handlers[h].sent ==> s.handlers[h].id in s.acked)
    && (forall k :: 0 <= k < |s.senders| && s.senders[k].Finished? && s.senders[k].sent ==> s.senders[k].id in s.acked)
  }

  /** A handler is about to enqueue the id. */
  ghost predicate IsMarked(handlers: map<nat, Handler>, id: Id) {
    exists h :: h in handlers && handlers[h] == Marked(id)
  }

  /** Some part of the system still has to deal with the id. */
  ghost predicate IsCarried(s: State, id: Id)
    requires |s.senders| == 2
  {
    || id in s.queue
    || id in InFlight(s.senders)
    || IsMarked(s.handlers, id)
    || s.loader.Waiting?
    || id in Remaining(s.loader)
  }

  /** No queued message is lost, but for those whose sender could not reach the database. */
  ghost predicate NoneLost(s: State) {
    |s.senders| == 2 && forall id :: IsAsyncPending(s.rows, id) ==> IsCarried(s, id) || id in s.faults
  }

  ghost predicate Inv(s: State) {
    Accounted(s) && HandlersOwnIds(s) && LoaderOnce(s) && InsertedIsPending(s) && SentIsAcked(s) && NoneLost(s)
  }
}
