/**
 * The refresh cycle of the token store interleaved with adds and removes. Each locked section is one step;
 * the refreshes between the snapshot and the merge run outside the lock.
 */
module TokenStoreRuns {
  import opened Bytes
  import opened TokenStore

  /** The identity of an item; keyOf gives the key it was made with. */
  type Ptr = nat

  datatype Cycle = Asleep | Refreshing(snapshot: map<Text, Ptr>, done: set<Text>)

  /** The store, the cycle, and two records kept since the last snapshot: items refreshed, keys inserted. */
  datatype State = State(items: map<Text, Ptr>, cycle: Cycle, refreshed: set<Ptr>, inserted: set<Text>)

  datatype Step =
    | Fill(found: seq<Ptr>)
    | Add(item: Ptr)         // of a filled item, refreshed before
    | Remove(item: Ptr)
    | TakeSnapshot
    | Refresh(key: Text)
    | Merge

  function KeysOfAll(found: seq<Ptr>, keyOf: Ptr -> Text): set<Text> {
    set i | 0 <= i < |found| :: keyOf(found[i])
  }

  /** What the step does; a step the cycle is not ready for does nothing. */
  function Apply(s: State, step: Step, keyOf: Ptr -> Text): State {
    match step
    case Fill(found) =>
      s.(items := FillWith(s.items, found, keyOf), inserted := s.inserted + KeysOfAll(found, keyOf))
    case Add(item) =>
      s.(items := s.items[keyOf(item) := item], inserted := s.inserted + {keyOf(item)})
    case Remove(item) =>
      s.(items := s.items - {keyOf(item)})
    case TakeSnapshot =>
      if s.cycle.Asleep? then s.(cycle := Refreshing(s.items, {}), refreshed := {}, inserted := {}) else s
    case Refresh(key) =>
      if s.cycle.Refreshing? && key in s.cycle.snapshot
      then s.(cycle := s.cycle.(done := s.cycle.done + {key}), refreshed := s.refreshed + {s.cycle.snapshot[key]})
      else s
    case Merge =>
      if IsMergeTime(s) then s.(items := Merged(s.items, s.cycle.snapshot), cycle := Asleep) else s
  }

  /** Every item of the snapshot has been refreshed. */
  predicate IsMergeTime(s: State) {
    s.cycle.Refreshing? && s.cycle.snapshot.Keys <= s.cycle.done
  }

  function After(steps: seq<Step>, keyOf: Ptr -> Text): State
    decreases |steps|
  {
    if steps == [] then State(map[], Asleep, {}, {})
    else Apply(After(steps[..|steps| - 1], keyOf), steps[|steps| - 1], keyOf)
  }

  /** The keys that the fills, adds and removes alone leave: the refresh cycle is not looked at. */
  function KeysLeft(steps: seq<Step>, keyOf: Ptr -> Text): set<Text>
    decreases |steps|
  {
    if steps == [] then {}
    else
      var keys := KeysLeft(steps[..|steps| - 1], keyOf);
      match steps[|steps| - 1]
      case Fill(found) => keys + KeysOfAll(found, keyOf)
      case Add(item) => keys + {keyOf(item)}
      case Remove(item) => keys - {keyOf(item)}
      case _ => keys
  }

  ghost predicate WellKeyed(items: map<Text, Ptr>, keyOf: Ptr -> Text) {
    forall k :: k in items ==> keyOf(items[k]) == k
  }

  ghost predicate Inv(s: State, keyOf: Ptr -> Text) {
    && WellKeyed(s.items, keyOf)
    && (s.cycle.Refreshing? ==>
          && WellKeyed(s.cycle.snapshot, keyOf)
          && (forall k :: k in s.items && k !in s.cycle.snapshot ==> k in s.inserted)
          && (forall k :: k in s.cycle.done && k in s.cycle.snapshot ==> s.cycle.snapshot[k] in s.refreshed))
  }

  lemma {:induction false} FillKeys(items: map<Text, Ptr>, found: seq<Ptr>, keyOf: Ptr -> Text)
    requires WellKeyed(items, keyOf)
    ensures WellKeyed(FillWith(items, found, keyOf), keyOf)
    ensures FillWith(items, found, keyOf).Keys == items.Keys + KeysOfAll(found, keyOf)
    decreases found
  {
    if found != [] {
      FillKeys(items[keyOf(found[0]) := found[0]], found[1..], keyOf);
      forall k ensures k in KeysOfAll(found, keyOf) <==> k == keyOf(found[0]) || k in KeysOfAll(found[1..], keyOf) {
        if k in KeysOfAll(found, keyOf) {
          var i :| 0 <= i < |found| && keyOf(found[i]) == k;
          if i > 0 { assert found[1..][i - 1] == found[i]; }
        }
        if k in KeysOfAll(found[1..], keyOf) {
          var i :| 0 <= i < |found[1..]| && keyOf(found[1..][i]) == k;
          assert found[i + 1] == found[1..][i];
        }
      }
    }
  }

  /** Of the items found at start-up, each key holds the last one with that key, or else what it held. */
  lemma {:induction false} FillHoldsLast(items: map<Text, Ptr>, found: seq<Ptr>, keyOf: Ptr -> Text, k: Text)
    ensures var filled := FillWith(items, found, keyOf);
            if exists i :: 0 <= i < |found| && keyOf(found[i]) == k
            then exists i :: 0 <= i < |found| && keyOf(found[i]) == k && k in filled && filled[k] == found[i]
                             && forall j :: i < j < |found| ==> keyOf(found[j]) != k
            else (k in filled <==> k in items) && (k in items ==> filled[k] == items[k])
    decreases found
  {
    if found != [] {
      var rest := found[1..];
      FillHoldsLast(items[keyOf(found[0]) := found[0]], rest, keyOf, k);
      assert forall j :: 1 <= j < |found| ==> found[j] == rest[j - 1];
      if exists i :: 0 <= i < |rest| && keyOf(rest[i]) == k {
        var filled := FillWith(items, found, keyOf);
        var i :| 0 <= i < |rest| && keyOf(rest[i]) == k && k in filled && filled[k] == rest[i]
                 && forall j :: i < j < |rest| ==> keyOf(rest[j]) != k;
        assert found[i + 1] == rest[i];
      }
    }
  }

  /** Entries stay under their own keys in every interleaving. */
  lemma {:induction false} RunKeepsInv(steps: seq<Step>, keyOf: Ptr -> Text)
    ensures Inv(After(steps, keyOf), keyOf)
    decreases |steps|
  {
    if steps != [] {
      var before := After(steps[..|steps| - 1], keyOf);
      RunKeepsInv(steps[..|steps| - 1], keyOf);
      if steps[|steps| - 1].Fill? {
        FillKeys(before.items, steps[|steps| - 1].found, keyOf);
      }
    }
  }

  /**
   * The refresh cycle never changes which keys are stored: a key removed while items were being refreshed
   * is not brought back by the merge, and one added meanwhile is not lost.
   */
  lemma {:induction false} KeysAreThoseLeft(steps: seq<Step>, keyOf: Ptr -> Text)
    ensures After(steps, keyOf).items.Keys == KeysLeft(steps, keyOf)
    decreases |steps|
  {
    if steps != [] {
      var before := After(steps[..|steps| - 1], keyOf);
      KeysAreThoseLeft(steps[..|steps| - 1], keyOf);
      RunKeepsInv(steps[..|steps| - 1], keyOf);
      if steps[|steps| - 1].Fill? {
        FillKeys(before.items, steps[|steps| - 1].found, keyOf);
      }
    }
  }

  /** After a merge every entry was refreshed since the snapshot or inserted since then. */
  lemma MergeLeavesFresh(steps: seq<Step>, keyOf: Ptr -> Text, k: Text)
    requires IsMergeTime(After(steps, keyOf)) && k in After(steps + [Merge], keyOf).items
    ensures var s := After(steps + [Merge], keyOf);
            s.items[k] in s.refreshed || k in s.inserted
    ensures After(steps + [Merge], keyOf).items.Keys == After(steps, keyOf).items.Keys
  {
    RunKeepsInv(steps, keyOf);
    assert (steps + [Merge])[..|steps|] == steps;
  }

  /** From the j-th step on no snapshot is taken. */
  ghost predicate NoSnapshotFrom(steps: seq<Step>, keyOf: Ptr -> Text, j: nat) {
    forall i :: j <= i < |steps| ==> !(steps[i].TakeSnapshot? && After(steps[..i], keyOf).cycle.Asleep?)
  }

  /** The item was refreshed in the j-th step, and the snapshot it was refreshed for is the last one. */
  ghost predicate RefreshedAt(steps: seq<Step>, keyOf: Ptr -> Text, j: nat, item: Ptr) {
    && j < |steps| && NoSnapshotFrom(steps, keyOf, j) && steps[j].Refresh?
    && var s := After(steps[..j], keyOf);
       s.cycle.Refreshing? && (steps[j].key, item) in s.cycle.snapshot.Items
  }

  /** The j-th step put an item under the key, and no snapshot was taken since. */
  ghost predicate InsertedAt(steps: seq<Step>, keyOf: Ptr -> Text, j: nat, k: Text) {
    && j < |steps| && NoSnapshotFrom(steps, keyOf, j)
    && match steps[j]
       case Fill(found) => k in KeysOfAll(found, keyOf)
       case Add(item) => k == keyOf(item)
       case _ => false
  }

  lemma SnapshotFrom(steps: seq<Step>, keyOf: Ptr -> Text, j: nat)
    requires steps != [] && j < |steps|
    ensures var n := |steps| - 1;
            NoSnapshotFrom(steps, keyOf, j) <==>
            (j < n ==> NoSnapshotFrom(steps[..n], keyOf, j))
            && !(steps[n].TakeSnapshot? && After(steps[..n], keyOf).cycle.Asleep?)
  {
    var n := |steps| - 1;
    assert forall i :: 0 <= i < n ==> steps[..n][i] == steps[i] && steps[..n][..i] == steps[..i];
  }

  /** The two records are records of steps that were taken since the last snapshot. */
  lemma {:induction false} RecordsAreRight(steps: seq<Step>, keyOf: Ptr -> Text, item: Ptr, k: Text)
    ensures item in After(steps, keyOf).refreshed ==> exists j :: RefreshedAt(steps, keyOf, j, item)
    ensures k in After(steps, keyOf).inserted ==> exists j :: InsertedAt(steps, keyOf, j, k)
    decreases |steps|
  {
    if steps != [] {
      RecordsAreRight(steps[..|steps| - 1], keyOf, item, k);
      if item in After(steps, keyOf).refreshed {
        RefreshIsRecorded(steps, keyOf, item);
      }
      if k in After(steps, keyOf).inserted {
        InsertIsRecorded(steps, keyOf, k);
      }
    }
  }

  lemma RefreshIsRecorded(steps: seq<Step>, keyOf: Ptr -> Text, item: Ptr)
    requires steps != [] && item in After(steps, keyOf).refreshed
    requires var before := steps[..|steps| - 1];
             item in After(before, keyOf).refreshed ==> exists j :: RefreshedAt(before, keyOf, j, item)
    ensures exists j :: RefreshedAt(steps, keyOf, j, item)
  {
    var n := |steps| - 1;
    var before := steps[..n];
    if item in After(before, keyOf).refreshed {
      var j: nat :| RefreshedAt(before, keyOf, j, item);
      assert before[..j] == steps[..j];
      SnapshotFrom(steps, keyOf, j);
      assert RefreshedAt(steps, keyOf, j, item);
    } else {
      SnapshotFrom(steps, keyOf, n);
      assert RefreshedAt(steps, keyOf, n, item);
    }
  }

  lemma InsertIsRecorded(steps: seq<Step>, keyOf: Ptr -> Text, k: Text)
    requires steps != [] && k in After(steps, keyOf).inserted
    requires var before := steps[..|steps| - 1];
             k in After(before, keyOf).inserted ==> exists j :: InsertedAt(before, keyOf, j, k)
    ensures exists j :: InsertedAt(steps, keyOf, j, k)
  {
    var n := |steps| - 1;
    var before := steps[..n];
    if k in After(before, keyOf).inserted {
      var j: nat :| InsertedAt(before, keyOf, j, k);
      SnapshotFrom(steps, keyOf, j);
      assert InsertedAt(steps, keyOf, j, k);
    } else {
      SnapshotFrom(steps, keyOf, n);
      assert InsertedAt(steps, keyOf, n, k);
    }
  }

  lemma AfterLast(steps: seq<Step>, step: Step, keyOf: Ptr -> Text)
    ensures After(steps + [step], keyOf) == Apply(After(steps, keyOf), step, keyOf)
  {
    assert (steps + [step])[..|steps|] == steps;
  }

  /** The step may change what the key holds. */
  predicate Concerns(step: Step, keyOf: Ptr -> Text, k: Text) {
    match step
    case Fill(found) => k in KeysOfAll(found, keyOf)
    case Add(item) => keyOf(item) == k
    case Remove(item) => keyOf(item) == k
    case Merge => true
    case _ => false
  }

  /** An item that was added is held under its key until the next merge or the next step that concerns the key. */
  lemma {:induction false} AddedIsHeld(before: seq<Step>, item: Ptr, more: seq<Step>, keyOf: Ptr -> Text)
    requires forall i :: 0 <= i < |more| ==> !Concerns(more[i], keyOf, keyOf(item))
    ensures var s := After(before + [Add(item)] + more, keyOf); keyOf(item) in s.items && s.items[keyOf(item)] == item
    decreases |more|
  {
    if more == [] {
      assert before + [Add(item)] + more == before + [Add(item)];
      AfterLast(before, Add(item), keyOf);
    } else {
      var m := |more| - 1;
      var s := After(before + [Add(item)] + more[..m], keyOf);
      AddedIsHeld(before, item, more[..m], keyOf);
      AfterLast(before + [Add(item)] + more[..m], more[m], keyOf);
      assert before + [Add(item)] + more == before + [Add(item)] + more[..m] + [more[m]];
      if more[m].Fill? {
        FillHoldsLast(s.items, more[m].found, keyOf, keyOf(item));
        assert forall i :: 0 <= i < |more[m].found| ==> keyOf(more[m].found[i]) in KeysOfAll(more[m].found, keyOf);
      }
    }
  }

  /** Until the merge the snapshot stays what the store was. */
  lemma {:induction false} SnapshotStays(before: seq<Step>, mid: seq<Step>, keyOf: Ptr -> Text)
    requires After(before, keyOf).cycle.Asleep? && Merge !in mid
    ensures var cycle := After(before + [TakeSnapshot] + mid, keyOf).cycle;
            cycle.Refreshing? && cycle.snapshot == After(before, keyOf).items
    decreases |mid|
  {
    hide FillWith, Merged, KeysOfAll, After;
    AfterLast(before, TakeSnapshot, keyOf);
    if mid == [] {
      assert before + [TakeSnapshot] + mid == before + [TakeSnapshot];
    } else {
      var m := |mid| - 1;
      SnapshotStays(before, mid[..m], keyOf);
      AfterLast(before + [TakeSnapshot] + mid[..m], mid[m], keyOf);
      assert before + [TakeSnapshot] + mid == before + [TakeSnapshot] + mid[..m] + [mid[m]];
    }
  }

  /**
   * The item of each key after a merge: the one of the snapshot if the key was in it, whatever was added since,
   * and otherwise the one last put there. So a key keeps the item it had just before the merge exactly when the
   * snapshot did not know the key or had that very item.
   */
  lemma ItemAfterMerge(before: seq<Step>, mid: seq<Step>, keyOf: Ptr -> Text, k: Text)
    requires After(before, keyOf).cycle.Asleep? && Merge !in mid
    requires IsMergeTime(After(before + [TakeSnapshot] + mid, keyOf))
    requires k in After(before + [TakeSnapshot] + mid, keyOf).items
    ensures var known, s := After(before, keyOf).items, After(before + [TakeSnapshot] + mid, keyOf).items;
            var merged := After(before + [TakeSnapshot] + mid + [Merge], keyOf).items;
            && k in merged && merged[k] == (if k in known then known[k] else s[k])
            && (merged[k] == s[k] <==> k !in known || s[k] == known[k])
  {
    SnapshotStays(before, mid, keyOf);
    AfterLast(before + [TakeSnapshot] + mid, Merge, keyOf);
  }

  /** A new item added under a known key during the refresh gives way to the old one. */
  lemma NewItemIsLost(k: Text)
    ensures var keyOf: Ptr -> Text := _ => k;
            var mid := [Refresh(k), Remove(0), Add(1)];
            && After([Fill([0])] + [TakeSnapshot] + mid, keyOf).items == map[k := 1]
            && After([Fill([0])] + [TakeSnapshot] + mid + [Merge], keyOf).items == map[k := 0]
  {
    var keyOf: Ptr -> Text := _ => k;
    var s1 := State(map[k := 0], Asleep, {}, {k});
    var s2 := State(map[k := 0], Refreshing(map[k := 0], {}), {}, {});
    var s3 := s2.(cycle := Refreshing(map[k := 0], {k}), refreshed := {0});
    var s5 := s3.(items := map[k := 1], inserted := {k});
    AfterLast([], Fill([0]), keyOf);
    assert [] + [Fill([0])] == [Fill([0])];
    FillOne(keyOf, k);
    AfterLast([Fill([0])], TakeSnapshot, keyOf);
    var r2 := [Fill([0])] + [TakeSnapshot];
    AfterLast(r2, Refresh(k), keyOf);
    AfterLast(r2 + [Refresh(k)], Remove(0), keyOf);
    AfterLast(r2 + [Refresh(k)] + [Remove(0)], Add(1), keyOf);
    assert r2 + [Refresh(k), Remove(0), Add(1)] == r2 + [Refresh(k)] + [Remove(0)] + [Add(1)];
    AfterLast(r2 + [Refresh(k), Remove(0), Add(1)], Merge, keyOf);
    assert After(r2 + [Refresh(k), Remove(0), Add(1)], keyOf) == s5;
  }

  lemma FillOne(keyOf: Ptr -> Text, k: Text)
    requires forall p :: keyOf(p) == k
    ensures Apply(State(map[], Asleep, {}, {}), Fill([0]), keyOf) == State(map[k := 0], Asleep, {}, {k})
  {
    assert [0][1..] == [];
    assert KeysOfAll([0], keyOf) == {k} by {
      assert keyOf([0][0]) == k;
    }
  }
}
