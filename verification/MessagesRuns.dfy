/**
 * The message list while requests overlap: list loads, page appends, searches, deletions and pushed messages,
 * with the server answering each request at some moment between its start and its end.
 */
module MessagesRuns {
  import opened MessagesTable

  /** A request under way, with the answer once the server has given it (None: it failed). */
  datatype Answer<T> = Awaited | Failed | Given(value: T)

  datatype Request =
    | ListRequest(number: nat, startIdx: nat, page: Answer<seq<Row>>)
    | SearchRequest(found: Answer<seq<Row>>)
    | DeleteRequest(id: Id, deleted: Answer<()>)

  /** gone records the ids whose deletion this client saw acknowledged. */
  datatype State = State(stored: set<Id>, nextId: Id,
                         rows: seq<Row>, loadSeq: nat, requests: map<nat, Request>, gone: set<Id>)

  const START := State({}, 1, [], 0, map[], {})

  datatype Step =
    | Store                                         // the server stores a new message
    | Drop(id: Id)                                  // another client deletes a message
    | AskList(r: nat, startIdx: nat)                // loadMessages
    | ServeList(r: nat, page: Answer<seq<Row>>)
    | ReceiveList(r: nat)
    | AskSearch(r: nat)
    | ServeSearch(r: nat, found: Answer<seq<Row>>)
    | ReceiveSearch(r: nat)
    | AskDelete(r: nat, id: Id)
    | ServeDelete(r: nat, works: bool)
    | ReceiveDelete(r: nat, reload: nat)            // with the reload it issues at once
    | Push(row: Row)                                // insertNewMessage
    | Sort(sorted: seq<Row>)

  /** What the server may answer: rows it stores, each once, or an error. */
  ghost predicate CanServe(s: State, answer: Answer<seq<Row>>) {
    match answer
    case Awaited => false
    case Failed => true
    case Given(page) => UniqueIds(page) && IdsOf(page) <= s.stored
  }

  ghost function Ask(s: State, r: nat, startIdx: nat): State {
    s.(loadSeq := s.loadSeq + 1, requests := s.requests[r := ListRequest(s.loadSeq + 1, startIdx, Awaited)])
  }

  predicate IsOpen(s: State, r: nat) {
    r in s.requests
  }

  // What each step does; a step the state is not ready for does nothing

  /** loadMessages and the list handler of the server */
  ghost function ApplyList(s: State, step: Step): State {
    match step
    case AskList(r, startIdx) => if IsOpen(s, r) then s else Ask(s, r, startIdx)
    case ServeList(r, page) =>
      if IsOpen(s, r) && s.requests[r].ListRequest? && s.requests[r].page.Awaited? && CanServe(s, page)
      then s.(requests := s.requests[r := s.requests[r].(page := page)])
      else s
    case ReceiveList(r) =>
      if IsOpen(s, r) && s.requests[r].ListRequest? && !s.requests[r].page.Awaited? then
        var closed := s.(requests := s.requests - {r});
        if s.requests[r].number == s.loadSeq && s.requests[r].page.Given?
        then closed.(rows := Loaded(s.rows, s.requests[r].startIdx, s.requests[r].page.value))
        else closed
      else s
    case _ => s
  }

  /** searchMessages and the search handler */
  ghost function ApplySearch(s: State, step: Step): State {
    match step
    case AskSearch(r) => if IsOpen(s, r) then s else s.(requests := s.requests[r := SearchRequest(Awaited)])
    case ServeSearch(r, found) =>
      if IsOpen(s, r) && s.requests[r].SearchRequest? && s.requests[r].found.Awaited? && CanServe(s, found)
      then s.(requests := s.requests[r := SearchRequest(found)])
      else s
    case ReceiveSearch(r) =>
      if IsOpen(s, r) && s.requests[r].SearchRequest? && !s.requests[r].found.Awaited? then
        var closed := s.(requests := s.requests - {r});
        if s.requests[r].found.Given? then closed.(rows := s.requests[r].found.value) else closed
      else s
    case _ => s
  }

  /** deleteMessage and the delete handler */
  ghost function ApplyDelete(s: State, step: Step): State {
    match step
    case AskDelete(r, id) => if IsOpen(s, r) then s else s.(requests := s.requests[r := DeleteRequest(id, Awaited)])
    case ServeDelete(r, works) =>
      if IsOpen(s, r) && s.requests[r].DeleteRequest? && s.requests[r].deleted.Awaited? then
        var id := s.requests[r].id;
        if works && id in s.stored
        then s.(stored := s.stored - {id}, requests := s.requests[r := DeleteRequest(id, Given(()))])
        else s.(requests := s.requests[r := DeleteRequest(id, Failed)])
      else s
    case ReceiveDelete(r, reload) =>
      if IsOpen(s, r) && s.requests[r].DeleteRequest? && !s.requests[r].deleted.Awaited? && !IsOpen(s, reload) then
        var id := s.requests[r].id;
        var closed := s.(requests := s.requests - {r});
        if s.requests[r].deleted.Given?
        then Ask(closed.(rows := Without(s.rows, {id}), gone := s.gone + {id}), reload, 0)
        else closed
      else s
    case _ => s
  }

  /** What needs no request of this client */
  ghost function ApplyOther(s: State, step: Step): State {
    match step
    case Store => s.(stored := s.stored + {s.nextId}, nextId := s.nextId + 1)
    case Drop(id) => s.(stored := s.stored - {id})
    case Push(row) => s.(rows := Inserted(s.rows, row))
    case Sort(sorted) => if multiset(sorted) == multiset(s.rows) then s.(rows := sorted) else s
    case _ => s
  }

  ghost function Apply(s: State, step: Step): State {
    match step
    case AskList(_, _) | ServeList(_, _) | ReceiveList(_) => ApplyList(s, step)
    case AskSearch(_) | ServeSearch(_, _) | ReceiveSearch(_) => ApplySearch(s, step)
    case AskDelete(_, _) | ServeDelete(_, _) | ReceiveDelete(_, _) => ApplyDelete(s, step)
    case _ => ApplyOther(s, step)
  }

  ghost function After(steps: seq<Step>): State
    decreases |steps|
  {
    if steps == [] then START else Apply(After(steps[..|steps| - 1]), steps[|steps| - 1])
  }

  ghost predicate Inv(s: State) {
    && UniqueIds(s.rows)
    && (forall id :: id in s.stored ==> id < s.nextId)
    && (forall id :: id in s.gone ==> id < s.nextId && id !in s.stored)
    && (forall r :: r in s.requests ==> RequestInv(s, s.requests[r]))
  }

  /** Only a page without deleted rows can still be applied. */
  ghost predicate RequestInv(s: State, q: Request) {
    match q
    case ListRequest(number, _, page) =>
      && number <= s.loadSeq
      && (page.Given? ==> UniqueIds(page.value))
      && (page.Given? && number == s.loadSeq ==> IdsOf(page.value) !! s.gone)
    case SearchRequest(found) => found.Given? ==> UniqueIds(found.value)
    case DeleteRequest(id, deleted) => deleted.Given? ==> id < s.nextId && id !in s.stored
  }

  lemma {:induction false} PermutedIds(a: seq<Row>, b: seq<Row>)
    requires multiset(a) == multiset(b)
    ensures IdsOf(a) == IdsOf(b)
    ensures UniqueIds(a) ==> UniqueIds(b)
  {
    forall i | 0 <= i < |b| ensures b[i] in a {
      assert b[i] in multiset(b);
    }
    forall i | 0 <= i < |a| ensures a[i] in b {
      assert a[i] in multiset(a);
    }
    if UniqueIds(a) {
      forall i, j | 0 <= i < j < |b| ensures b[i].id != b[j].id {
        if b[i].id == b[j].id {
          SameRow(a, b[i], b[j]);
          TwiceCounts(b, i, j);
          OnceCounts(a, b[i]);
        }
      }
    }
  }

  lemma SameRow(a: seq<Row>, x: Row, y: Row)
    requires UniqueIds(a) && x in a && y in a && x.id == y.id
    ensures x == y
  {
  }

  lemma TwiceCounts(b: seq<Row>, i: nat, j: nat)
    requires i < j < |b| && b[i] == b[j]
    ensures multiset(b)[b[i]] >= 2
  {
    var rest := b[..j] + b[j + 1..];
    assert b == b[..j] + [b[j]] + b[j + 1..];
    assert multiset(b) == multiset(rest) + multiset{b[j]};
    assert rest[i] == b[i];
    assert b[i] in multiset(rest);
  }

  lemma {:induction false} OnceCounts(a: seq<Row>, x: Row)
    requires UniqueIds(a)
    ensures multiset(a)[x] <= 1
    decreases |a|
  {
    if a != [] {
      var n := |a| - 1;
      assert a == a[..n] + [a[n]];
      OnceCounts(a[..n], x);
      if x == a[n] {
        assert x !in a[..n];
        assert multiset(a[..n])[x] == 0;
      }
    }
  }

  lemma ListKeepsInv(s: State, step: Step)
    requires Inv(s)
    ensures Inv(ApplyList(s, step))
  {
    hide Loaded, IdsOf, UniqueIds;
    if step.ReceiveList? && IsOpen(s, step.r) && s.requests[step.r].ListRequest? && s.requests[step.r].page.Given? {
      LoadedIds(s.rows, s.requests[step.r].startIdx, s.requests[step.r].page.value);
    }
  }

  lemma SearchKeepsInv(s: State, step: Step)
    requires Inv(s)
    ensures Inv(ApplySearch(s, step))
  {
    hide IdsOf, UniqueIds;
  }

  lemma DeleteKeepsInv(s: State, step: Step)
    requires Inv(s)
    ensures Inv(ApplyDelete(s, step))
  {
    hide Without, IdsOf, UniqueIds;
    if step.ReceiveDelete? && IsOpen(s, step.r) && s.requests[step.r].DeleteRequest? {
      WithoutIds(s.rows, {s.requests[step.r].id});
    }
  }

  lemma OtherKeepsInv(s: State, step: Step)
    requires Inv(s)
    ensures Inv(ApplyOther(s, step))
  {
    hide Inserted, IdsOf, UniqueIds;
    match step {
      case Push(row) => InsertedIds(s.rows, row);
      case Sort(sorted) => if multiset(sorted) == multiset(s.rows) { PermutedIds(s.rows, sorted); }
      case _ =>
    }
  }

  lemma StepKeepsInv(s: State, step: Step)
    requires Inv(s)
    ensures Inv(Apply(s, step))
  {
    hide Inv, ApplyList, ApplySearch, ApplyDelete, ApplyOther;
    ListKeepsInv(s, step);
    SearchKeepsInv(s, step);
    DeleteKeepsInv(s, step);
    OtherKeepsInv(s, step);
  }

  lemma {:induction false} RunKeepsInv(steps: seq<Step>)
    ensures Inv(After(steps))
    decreases |steps|
  {
    hide Apply;
    if steps != [] {
      RunKeepsInv(steps[..|steps| - 1]);
      StepKeepsInv(After(steps[..|steps| - 1]), steps[|steps| - 1]);
    }
  }

  /** In every interleaving the list shows each id at most once. */
  lemma ListNeverRepeats(steps: seq<Step>)
    ensures UniqueIds(After(steps).rows)
  {
    RunKeepsInv(steps);
  }

  /** The only steps that can bring an id back: a push of that message, or a search result that has it. */
  ghost predicate BringsBack(s: State, step: Step, id: Id) {
    || (step.Push? && step.row.id == id)
    || (step.ReceiveSearch? && IsOpen(s, step.r) && s.requests[step.r].SearchRequest?
        && s.requests[step.r].found.Given? && id in IdsOf(s.requests[step.r].found.value))
  }

  lemma StepKeepsGone(s: State, step: Step, id: Id)
    requires Inv(s) && id in s.gone && id !in IdsOf(s.rows)
    ensures id in Apply(s, step).gone
    ensures id in IdsOf(Apply(s, step).rows) <==> BringsBack(s, step, id)
  {
    hide Loaded, Without, Inserted, IdsOf, UniqueIds;
    match step {
      case ReceiveList(r) =>
        if IsOpen(s, r) && s.requests[r].ListRequest? && s.requests[r].page.Given? {
          assert RequestInv(s, s.requests[r]);
          LoadedIds(s.rows, s.requests[r].startIdx, s.requests[r].page.value);
        }
      case ReceiveDelete(r, reload) =>
        if IsOpen(s, r) && s.requests[r].DeleteRequest? {
          WithoutIds(s.rows, {s.requests[r].id});
        }
      case Push(row) => InsertedIds(s.rows, row);
      case Sort(sorted) => if multiset(sorted) == multiset(s.rows) { PermutedIds(s.rows, sorted); }
      case _ =>
    }
  }

  /** An acknowledged deletion takes the row off the list. */
  lemma AcknowledgedIsGone(s: State, r: nat, reload: nat)
    requires IsOpen(s, r) && !IsOpen(s, reload) && s.requests[r].DeleteRequest? && s.requests[r].deleted.Given?
    ensures var s' := Apply(s, ReceiveDelete(r, reload));
            s.requests[r].id in s'.gone && s.requests[r].id !in IdsOf(s'.rows)
  {
    WithoutIds(s.rows, {s.requests[r].id});
  }

  lemma AfterStep(steps: seq<Step>)
    requires steps != []
    ensures After(steps) == Apply(After(steps[..|steps| - 1]), steps[|steps| - 1])
  {
    hide Apply;
  }

  lemma AfterMore(steps: seq<Step>, more: seq<Step>)
    requires more != []
    ensures After(steps + more) == Apply(After(steps + more[..|more| - 1]), more[|more| - 1])
  {
    hide Apply, After;
    AfterStep(steps + more);
    assert (steps + more)[..|steps + more| - 1] == steps + more[..|more| - 1];
  }

  /**
   * Once the client has seen a deletion acknowledged, no later list response shows the row again: if it is on
   * the list, a push or a search result brought it back since.
   */
  lemma {:induction false} DeletedStaysGone(steps: seq<Step>, more: seq<Step>, id: Id)
    requires id in After(steps).gone && id !in IdsOf(After(steps).rows)
    requires forall j :: 0 <= j < |more| ==> !BringsBack(After(steps + more[..j]), more[j], id)
    ensures id in After(steps + more).gone && id !in IdsOf(After(steps + more).rows)
    decreases |more|
  {
    hide Apply, After, BringsBack;
    if more == [] {
      assert steps + more == steps;
    } else {
      var m := |more| - 1;
      forall j | 0 <= j < m ensures !BringsBack(After(steps + more[..m][..j]), more[..m][j], id) {
        assert more[..m][..j] == more[..j];
      }
      DeletedStaysGone(steps, more[..m], id);
      RunKeepsInv(steps + more[..m]);
      AfterMore(steps, more);
      StepKeepsGone(After(steps + more[..m]), more[m], id);
    }
  }

  lemma {:induction false} NumbersGrow(steps: seq<Step>, more: seq<Step>)
    ensures After(steps).loadSeq <= After(steps + more).loadSeq
    decreases |more|
  {
    hide After;
    if more == [] {
      assert steps + more == steps;
    } else {
      NumbersGrow(steps, more[..|more| - 1]);
      AfterMore(steps, more);
    }
  }

  /** A list request made before a deletion's reload was issued is never applied after it. */
  lemma OlderRequestIsDropped(steps: seq<Step>, r: nat, reload: nat, more: seq<Step>, earlier: nat)
    requires var s := After(steps);
             IsOpen(s, r) && !IsOpen(s, reload) && s.requests[r].DeleteRequest? && s.requests[r].deleted.Given?
             && IsOpen(s, earlier) && s.requests[earlier].ListRequest?
    requires var later := After(steps + [ReceiveDelete(r, reload)] + more);
             IsOpen(later, earlier) && later.requests[earlier].ListRequest?
             && later.requests[earlier].number == After(steps).requests[earlier].number
    ensures var later := After(steps + [ReceiveDelete(r, reload)] + more);
            Apply(later, ReceiveList(earlier)).rows == later.rows
  {
    hide After;
    RunKeepsInv(steps);
    var acked := steps + [ReceiveDelete(r, reload)];
    AfterMore(steps, [ReceiveDelete(r, reload)]);
    assert steps + [ReceiveDelete(r, reload)][..0] == steps;
    assert RequestInv(After(steps), After(steps).requests[earlier]);
    NumbersGrow(acked, more);
  }

  // A run in which that happens

  const PAGE := [Row(1, 0)]

  /** A search found the message, which was deleted meanwhile. */
  const FOUND := State({1}, 2, [], 0, map[0 := SearchRequest(Given(PAGE))], {})
  const DELETED := State({}, 2, [], 1, map[0 := SearchRequest(Given(PAGE)), 2 := ListRequest(1, 0, Awaited)], {1})

  lemma Finds()
    ensures Apply(Apply(Apply(START, Store), AskSearch(0)), ServeSearch(0, Given(PAGE))) == FOUND
  {
    var s1 := State({1}, 2, [], 0, map[], {});
    assert Apply(START, Store) == s1;
    var s2 := s1.(requests := map[0 := SearchRequest(Awaited)]);
    assert Apply(s1, AskSearch(0)) == s2;
    assert UniqueIds(PAGE) && IdsOf(PAGE) <= {1};
  }

  lemma Deletes()
    ensures Apply(Apply(Apply(FOUND, AskDelete(1, 1)), ServeDelete(1, true)), ReceiveDelete(1, 2)) == DELETED
  {
    var s4 := FOUND.(requests := FOUND.requests[1 := DeleteRequest(1, Awaited)]);
    assert Apply(FOUND, AskDelete(1, 1)) == s4;
    var s5 := FOUND.(stored := {}, requests := FOUND.requests[1 := DeleteRequest(1, Given(()))]);
    assert Apply(s4, ServeDelete(1, true)) == s5;
  }

  lemma Shows()
    ensures 1 in Apply(DELETED, ReceiveSearch(0)).gone && 1 in IdsOf(Apply(DELETED, ReceiveSearch(0)).rows)
  {
    assert PAGE[0].id == 1;
  }

  /** A search answered before the deletion and received after it does show the row again. */
  lemma SearchBringsBack()
    ensures var steps := [Store, AskSearch(0), ServeSearch(0, Given(PAGE)), AskDelete(1, 1),
                          ServeDelete(1, true), ReceiveDelete(1, 2), ReceiveSearch(0)];
            1 in After(steps).gone && 1 in IdsOf(After(steps).rows)
  {
    hide Apply;
    var steps := [Store, AskSearch(0), ServeSearch(0, Given(PAGE)), AskDelete(1, 1), ServeDelete(1, true),
                  ReceiveDelete(1, 2), ReceiveSearch(0)];
    assert After(steps[..0]) == START;
    hide After;
    AfterNext(steps, 0);
    AfterNext(steps, 1);
    AfterNext(steps, 2);
    Finds();
    AfterNext(steps, 3);
    AfterNext(steps, 4);
    AfterNext(steps, 5);
    Deletes();
    AfterNext(steps, 6);
    Shows();
    assert steps[..7] == steps;
  }

  lemma AfterNext(steps: seq<Step>, i: nat)
    requires i < |steps|
    ensures After(steps[..i + 1]) == Apply(After(steps[..i]), steps[i])
  {
    hide Apply;
    assert steps[..i + 1][..i] == steps[..i];
  }
}
