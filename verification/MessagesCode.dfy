/** The component's handlers and the steps of its runs go together: each handler does to the list what its step says. */
module MessagesCode {
  import opened MessagesTable
  import opened MessagesRuns

  /** The component shows the state. */
  ghost predicate Shows(table: MessagesTable, s: State)
    reads table
  {
    table.messages == s.rows && table.loadSeq == s.loadSeq
  }

  method Load(table: MessagesTable, r: nat, startIdx: nat, ghost s: State) returns (number: nat)
    requires Shows(table, s) && !IsOpen(s, r)
    modifies table
    ensures var s' := Apply(s, AskList(r, startIdx));
            Shows(table, s') && IsOpen(s', r) && s'.requests[r] == ListRequest(number, startIdx, Awaited)
  {
    number := table.StartLoad();
  }

  /** The response to a load: with a page, or without success. */
  method Loaded(table: MessagesTable, number: nat, startIdx: nat, success: bool, data: seq<Row>,
                r: nat, ghost s: State)
    requires Shows(table, s) && IsOpen(s, r)
    requires s.requests[r] == ListRequest(number, startIdx, if success then Given(data) else Failed)
    modifies table
    ensures Shows(table, Apply(s, ReceiveList(r)))
  {
    table.FinishLoad(number, startIdx, success, data);
  }

  method Deleted(table: MessagesTable, id: Id, success: bool, r: nat, reload: nat, ghost s: State)
    returns (number: nat)
    requires Shows(table, s) && IsOpen(s, r) && !IsOpen(s, reload)
    requires s.requests[r] == DeleteRequest(id, if success then Given(()) else Failed)
    modifies table
    ensures var s' := Apply(s, ReceiveDelete(r, reload));
            && Shows(table, s')
            && (success ==> IsOpen(s', reload) && s'.requests[reload] == ListRequest(number, 0, Awaited))
  {
    number := table.FinishDelete(id, success);
  }

  method Pushed(table: MessagesTable, message: Row, ghost s: State)
    requires Shows(table, s)
    modifies table
    ensures Shows(table, Apply(s, Push(message)))
  {
    table.InsertNewMessage(message);
  }

  /** The response to the latest load is what the list shows. */
  lemma LatestPageShows(steps: seq<Step>, r: nat, page: seq<Row>)
    requires var s := After(steps); IsOpen(s, r) && s.requests[r] == ListRequest(s.loadSeq, 0, Given(page))
    ensures After(steps + [ReceiveList(r)]).rows == page
  {
    hide After;
    AfterMore(steps, [ReceiveList(r)]);
    assert steps + [ReceiveList(r)][..0] == steps;
    LoadedExactly(After(steps).rows, 0, page);
  }
}
