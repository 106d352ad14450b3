/** The message list in the browser (web/src/components/MessagesTable.jsx). */
module MessagesTable {

  type Id = nat

  /** A row of the list: its id and whatever else it shows. */
  datatype Row = Row(id: Id, shown: nat)

  ghost function IdsOf(rows: seq<Row>): set<Id> {
    set i | 0 <= i < |rows| :: rows[i].id
  }

  ghost predicate UniqueIds(rows: seq<Row>) {
    forall i, j :: 0 <= i < j < |rows| ==> rows[i].id != rows[j].id
  }

  // The updater functions

  /** rows.filter((m) => !ids.has(m.id)) */
  ghost function Without(rows: seq<Row>, ids: set<Id>): seq<Row> {
    if rows == [] then []
    else
      var kept := Without(rows[..|rows| - 1], ids);
      if rows[|rows| - 1].id in ids then kept else kept + [rows[|rows| - 1]]
  }

  /** insertNewMessage: the row with that id is replaced where it is; a new one goes in front. */
  ghost function Inserted(rows: seq<Row>, row: Row): seq<Row> {
    if row.id in IdsOf(rows) then rows[FirstIndex(rows, row.id) := row] else [row] + rows
  }

  /** rows.findIndex((m) => m.id === id) */
  ghost function FirstIndex(rows: seq<Row>, id: Id): (i: nat)
    requires id in IdsOf(rows)
    ensures i < |rows| && rows[i].id == id && forall j :: 0 <= j < i ==> rows[j].id != id
  {
    if rows[0].id == id then 0
    else
      assert id in IdsOf(rows[1..]) by {
        var i :| 0 <= i < |rows| && rows[i].id == id;
        assert rows[1..][i - 1] == rows[i];
      }
      var i := 1 + FirstIndex(rows[1..], id);
      assert forall j :: 1 <= j < i ==> rows[j] == rows[1..][j - 1];
      i
  }

  /** The list a page of data leaves: the first page replaces it, later pages add what is not known yet. */
  ghost function Loaded(rows: seq<Row>, startIdx: nat, data: seq<Row>): seq<Row> {
    if startIdx == 0 then data else rows + Without(data, IdsOf(rows))
  }

  /** Filtering goes row by row and keeps the order. */
  lemma {:induction false} WithoutIsFilter(a: seq<Row>, b: seq<Row>, ids: set<Id>)
    ensures Without(a + b, ids) == Without(a, ids) + Without(b, ids)
    ensures |b| == 1 ==> Without(b, ids) == if b[0].id in ids then [] else b
    decreases |b|
  {
    hide Without;
    if b == [] {
      assert a + b == a;
      WithoutSplits(b, ids);
    } else {
      var n := |b| - 1;
      assert (a + b)[..|a + b| - 1] == a + b[..n] && (a + b)[|a + b| - 1] == b[n];
      WithoutIsFilter(a, b[..n], ids);
      WithoutSplits(a + b, ids);
      WithoutSplits(b, ids);
      if n == 0 {
        assert b == [b[0]] && b[..0] == [];
        WithoutSplits([], ids);
      }
    }
  }

  lemma WithoutSplits(rows: seq<Row>, ids: set<Id>)
    ensures Without(rows, ids) ==
              if rows == [] then []
              else var n := |rows| - 1; Without(rows[..n], ids) + if rows[n].id in ids then [] else [rows[n]]
  {
  }

  /** A pushed message takes the place of the first row with its id, or comes in front; every other row stays. */
  lemma InsertedExactly(rows: seq<Row>, row: Row)
    ensures if row.id in IdsOf(rows)
            then exists before, known, after :: TakesPlace(rows, Inserted(rows, row), row, before, known, after)
            else Inserted(rows, row) == [row] + rows
  {
    hide TakesPlace, IdsOf;
    if row.id in IdsOf(rows) {
      var k := FirstIndex(rows, row.id);
      FirstIsReplaced(rows, row, k);
      assert TakesPlace(rows, Inserted(rows, row), row, rows[..k], rows[k], rows[k + 1..]);
    }
  }

  lemma FirstIsReplaced(rows: seq<Row>, row: Row, k: nat)
    requires k < |rows| && rows[k].id == row.id && forall j :: 0 <= j < k ==> rows[j].id != row.id
    ensures TakesPlace(rows, rows[k := row], row, rows[..k], rows[k], rows[k + 1..])
  {
    assert rows == rows[..k] + [rows[k]] + rows[k + 1..];
    assert rows[k := row] == rows[..k] + [row] + rows[k + 1..];
  }

  /** In shown the row stands where known, the first one with its id, stood in rows. */
  ghost predicate TakesPlace(rows: seq<Row>, shown: seq<Row>, row: Row, before: seq<Row>, known: Row, after: seq<Row>) {
    && rows == before + [known] + after && shown == before + [row] + after
    && known.id == row.id && row.id !in IdsOf(before)
  }

  /** The first page is the list; of a later one, the rows with ids not shown yet follow those that are, in order. */
  lemma LoadedExactly(rows: seq<Row>, startIdx: nat, data: seq<Row>)
    ensures startIdx == 0 ==> Loaded(rows, startIdx, data) == data
    ensures startIdx > 0 ==> exists added :: Loaded(rows, startIdx, data) == rows + added && IsAdded(rows, data, added)
  {
    if startIdx > 0 {
      var added := Without(data, IdsOf(rows));
      AddedIsWithout(rows, data);
      assert Loaded(rows, startIdx, data) == rows + added;
    }
  }

  /** added is data without the rows whose ids are those of rows. */
  ghost predicate IsAdded(rows: seq<Row>, data: seq<Row>, added: seq<Row>)
    decreases data
  {
    if data == [] then added == []
    else if exists i :: 0 <= i < |rows| && rows[i].id == data[0].id then IsAdded(rows, data[1..], added)
    else added != [] && added[0] == data[0] && IsAdded(rows, data[1..], added[1..])
  }

  lemma {:induction false} AddedIsWithout(rows: seq<Row>, data: seq<Row>)
    ensures IsAdded(rows, data, Without(data, IdsOf(rows)))
    decreases data
  {
    if data != [] {
      AddedIsWithout(rows, data[1..]);
      WithoutIsFilter([data[0]], data[1..], IdsOf(rows));
      WithoutIsFilter([], [data[0]], IdsOf(rows));
      assert [data[0]] + data[1..] == data;
      assert data[0].id in IdsOf(rows) <==> exists i :: 0 <= i < |rows| && rows[i].id == data[0].id;
      if data[0].id in IdsOf(rows) {
        assert [] + Without(data[1..], IdsOf(rows)) == Without(data[1..], IdsOf(rows));
      } else {
        assert ([data[0]] + Without(data[1..], IdsOf(rows)))[1..] == Without(data[1..], IdsOf(rows));
      }
    }
  }

  lemma {:induction false} WithoutIds(rows: seq<Row>, ids: set<Id>)
    ensures IdsOf(Without(rows, ids)) == IdsOf(rows) - ids
    ensures UniqueIds(rows) ==> UniqueIds(Without(rows, ids))
  {
    if rows != [] {
      var n := |rows| - 1;
      WithoutIds(rows[..n], ids);
      assert IdsOf(rows) == IdsOf(rows[..n]) + {rows[n].id} by {
        assert rows == rows[..n] + [rows[n]];
        IdsOfConcat(rows[..n], [rows[n]]);
      }
      var kept := Without(rows[..n], ids);
      IdsOfConcat(kept, [rows[n]]);
      if UniqueIds(rows) {
        assert rows[n].id !in IdsOf(rows[..n]);
        forall i | 0 <= i < |kept| ensures kept[i].id != rows[n].id {
          assert kept[i].id in IdsOf(kept);
        }
      }
    }
  }

  lemma IdsOfConcat(a: seq<Row>, b: seq<Row>)
    ensures IdsOf(a + b) == IdsOf(a) + IdsOf(b)
    ensures UniqueIds(a) && UniqueIds(b) && IdsOf(a) !! IdsOf(b) ==> UniqueIds(a + b)
    ensures |b| == 1 ==> IdsOf(b) == {b[0].id}
  {
    forall id | id in IdsOf(a) + IdsOf(b) ensures id in IdsOf(a + b) {
      if id in IdsOf(a) {
        var i :| 0 <= i < |a| && a[i].id == id;
        assert (a + b)[i] == a[i];
      } else {
        var i :| 0 <= i < |b| && b[i].id == id;
        assert (a + b)[|a| + i] == b[i];
      }
    }
    forall i, j | 0 <= i < j < |a + b| && UniqueIds(a) && UniqueIds(b) && IdsOf(a) !! IdsOf(b)
      ensures (a + b)[i].id != (a + b)[j].id
    {
      if i < |a| <= j {
        assert a[i].id in IdsOf(a) && b[j - |a|].id in IdsOf(b);
      }
    }
  }

  lemma InsertedIds(rows: seq<Row>, row: Row)
    ensures IdsOf(Inserted(rows, row)) == IdsOf(rows) + {row.id}
    ensures UniqueIds(rows) ==> UniqueIds(Inserted(rows, row))
  {
    if row.id in IdsOf(rows) {
      var k := FirstIndex(rows, row.id);
      var after := rows[k := row];
      forall i | 0 <= i < |rows| ensures after[i].id == rows[i].id {
      }
      forall id ensures id in IdsOf(after) <==> id in IdsOf(rows) {
        if id in IdsOf(rows) {
          var i :| 0 <= i < |rows| && rows[i].id == id;
          assert after[i].id == id;
        }
      }
    } else {
      assert IdsOf([row]) == {row.id} by { assert [row][0] == row; }
      IdsOfConcat([row], rows);
    }
  }

  lemma LoadedIds(rows: seq<Row>, startIdx: nat, data: seq<Row>)
    ensures IdsOf(Loaded(rows, startIdx, data)) == if startIdx == 0 then IdsOf(data) else IdsOf(rows) + IdsOf(data)
    ensures UniqueIds(rows) && UniqueIds(data) ==> UniqueIds(Loaded(rows, startIdx, data))
  {
    WithoutIds(data, IdsOf(rows));
    IdsOfConcat(rows, Without(data, IdsOf(rows)));
  }

  // The component

  class MessagesTable {
    var messages: seq<Row>
    var loadSeq: nat

    constructor ()
      ensures messages == [] && loadSeq == 0
    {
      messages, loadSeq := [], 0;
    }

    /** loadMessages up to its request: the number the response will be checked against. */
    method StartLoad() returns (number: nat)
      modifies `loadSeq
      ensures loadSeq == old(loadSeq) + 1 && number == loadSeq
    {
      loadSeq := loadSeq + 1;
      number := loadSeq;
    }

    /** loadMessages from its response on. */
    method FinishLoad(number: nat, startIdx: nat, success: bool, data: seq<Row>)
      modifies `messages
      ensures messages == if number == loadSeq && success then Loaded(old(messages), startIdx, data) else old(messages)
    {
      if number != loadSeq {
        return;
      }
      if success {
        if startIdx == 0 {
          messages := data;
        } else {
          var known := KnownIds(messages);
          var added := Filter(data, known);
          messages := messages + added;
        }
      }
    }

    /** deleteMessage from its response on; a successful one starts a reload. */
    method FinishDelete(id: Id, success: bool) returns (number: nat)
      modifies this
      ensures success ==> messages == Without(old(messages), {id}) && loadSeq == old(loadSeq) + 1 && number == loadSeq
      ensures !success ==> messages == old(messages) && loadSeq == old(loadSeq)
    {
      number := loadSeq;
      if success {
        messages := Filter(messages, {id});
        number := StartLoad();
      }
    }

    method InsertNewMessage(message: Row)
      modifies `messages
      ensures messages == Inserted(old(messages), message)
    {
      var idx := 0;
      while idx < |messages| && messages[idx].id != message.id
        invariant idx <= |messages| && forall j :: 0 <= j < idx ==> messages[j].id != message.id
      {
        idx := idx + 1;
      }
      if idx < |messages| {
        assert message.id in IdsOf(messages);
        messages := messages[idx := message];
      } else {
        messages := [message] + messages;
      }
    }
  }

  method KnownIds(rows: seq<Row>) returns (known: set<Id>)
    ensures known == IdsOf(rows)
  {
    known := {};
    for i := 0 to |rows|
      invariant known == IdsOf(rows[..i])
    {
      IdsOfConcat(rows[..i], [rows[i]]);
      assert rows[..i + 1] == rows[..i] + [rows[i]];
      known := known + {rows[i].id};
    }
    assert rows[..|rows|] == rows;
  }

  method Filter(rows: seq<Row>, ids: set<Id>) returns (kept: seq<Row>)
    ensures kept == Without(rows, ids)
  {
    kept := [];
    for i := 0 to |rows|
      invariant kept == Without(rows[..i], ids)
    {
      assert rows[..i + 1][..i] == rows[..i];
      if rows[i].id !in ids {
        kept := kept + [rows[i]];
      }
    }
    assert rows[..|rows|] == rows;
  }
}
