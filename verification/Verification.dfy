/** Expiring verification codes (common/verification.go). Times are in nanoseconds. */
module Verification {
  import opened Bytes

  const SECOND := 1_000_000_000
  const TEN_MINUTES := 600_000_000_000
  const VALID_MINUTES := 10
  const MAX_SIZE := 10

  datatype Purpose = Email | PasswordReset

  /** purpose + key: "v" or "r" before the key. */
  function Slot(purpose: Purpose, key: Text): Text {
    [if purpose.Email? then 118 else 114] + key
  }

  /** The two purposes, and different keys, never share a slot. */
  lemma SlotInjective(p1: Purpose, k1: Text, p2: Purpose, k2: Text)
    ensures Slot(p1, k1) == Slot(p2, k2) ==> p1 == p2 && k1 == k2
  {
    assert Slot(p1, k1)[1..] == k1 && Slot(p2, k2)[1..] == k2;
    assert Slot(p1, k1)[0] == (if p1.Email? then 118 else 114);
    assert Slot(p2, k2)[0] == (if p2.Email? then 118 else 114);
  }

  datatype Entry = Entry(code: Text, time: int)

  /** int(now.Sub(t).Seconds()) >= VerificationValidMinutes*60, for now no earlier than t. */
  predicate IsExpired(t: int, now: int) {
    (now - t) / SECOND >= VALID_MINUTES * 60
  }

  function Purged(entries: map<Text, Entry>, now: int): map<Text, Entry> {
    map k | k in entries && !IsExpired(entries[k].time, now) :: entries[k]
  }

  function Registered(entries: map<Text, Entry>, slot: Text, code: Text, now: int): map<Text, Entry> {
    var grown := entries[slot := Entry(code, now)];
    if |grown| > MAX_SIZE then Purged(grown, now) else grown
  }

  predicate Accepts(entries: map<Text, Entry>, slot: Text, code: Text, now: int) {
    slot in entries && !IsExpired(entries[slot].time, now) && code == entries[slot].code
  }

  class VerificationStore {
    var verificationMap: map<Text, Entry>

    constructor ()
      ensures verificationMap == map[]
    {
      verificationMap := map[];
    }

    method RegisterVerificationCodeWithKey(key: Text, code: Text, purpose: Purpose, now: int)
      modifies this
      ensures verificationMap == Registered(old(verificationMap), Slot(purpose, key), code, now)
    {
      verificationMap := verificationMap[Slot(purpose, key) := Entry(code, now)];
      if |verificationMap| > MAX_SIZE {
        RemoveExpiredPairs(now);
      }
    }

    method VerifyCodeWithKey(key: Text, code: Text, purpose: Purpose, now: int) returns (okay: bool)
      ensures okay == Accepts(verificationMap, Slot(purpose, key), code, now)
    {
      var slot := Slot(purpose, key);
      if slot !in verificationMap || (now - verificationMap[slot].time) / SECOND >= VALID_MINUTES * 60 {
        return false;
      }
      return code == verificationMap[slot].code;
    }

    method DeleteKey(key: Text, purpose: Purpose)
      modifies this
      ensures verificationMap == old(verificationMap) - {Slot(purpose, key)}
    {
      verificationMap := verificationMap - {Slot(purpose, key)};
    }

    method RemoveExpiredPairs(now: int)
      modifies this
      ensures verificationMap == Purged(old(verificationMap), now)
    {
      var rest := verificationMap.Keys;
      while rest != {}
        invariant rest <= verificationMap.Keys <= old(verificationMap).Keys
        invariant forall k :: k in verificationMap ==> verificationMap[k] == old(verificationMap)[k]
        invariant forall k :: k in old(verificationMap) && k !in rest ==>
          (k in verificationMap <==> !IsExpired(old(verificationMap)[k].time, now))
        decreases rest
      {
        var key :| key in rest;
        if (now - verificationMap[key].time) / SECOND >= VALID_MINUTES * 60 {
          verificationMap := verificationMap - {key};
        }
        rest := rest - {key};
      }
    }
  }

  // Traces

  datatype Op =
    | Register(key: Text, code: Text, purpose: Purpose, now: int)
    | Delete(key: Text, purpose: Purpose, now: int)
    | Purge(now: int)

  ghost predicate ClockRuns(ops: seq<Op>) {
    forall i, j :: 0 <= i < j < |ops| ==> ops[i].now <= ops[j].now
  }

  /** The map after the operations; a purge may come at any time, besides those a registration makes. */
  function MapAfter(ops: seq<Op>): map<Text, Entry>
    decreases |ops|
  {
    if ops == [] then map[]
    else
      var entries := MapAfter(ops[..|ops| - 1]);
      match ops[|ops| - 1]
      case Register(key, code, purpose, now) => Registered(entries, Slot(purpose, key), code, now)
      case Delete(key, purpose, _) => entries - {Slot(purpose, key)}
      case Purge(now) => Purged(entries, now)
  }

  /** The op touches this purpose and key. */
  predicate Concerns(op: Op, purpose: Purpose, key: Text) {
    !op.Purge? && op.purpose == purpose && op.key == key
  }

  /** The op at i is the last one on this purpose and key. */
  ghost predicate IsLatest(ops: seq<Op>, i: int, purpose: Purpose, key: Text) {
    0 <= i < |ops| && Concerns(ops[i], purpose, key)
    && forall j :: i < j < |ops| ==> !Concerns(ops[j], purpose, key)
  }

  /** The latest op on purpose and key registers code, under ten minutes before now. */
  ghost predicate StandsRegistered(ops: seq<Op>, purpose: Purpose, key: Text, code: Text, now: int) {
    exists i :: IsLatest(ops, i, purpose, key) && ops[i].Register? && ops[i].code == code
                && now - ops[i].now < TEN_MINUTES
  }

  lemma ExpiryIsTenMinutes(t: int, now: int)
    ensures IsExpired(t, now) <==> now - t >= TEN_MINUTES
  {
  }

  /** A registration leaves the map at no more than ten codes, or else without any that has expired; no other goes. */
  lemma RegisteredIsSmall(entries: map<Text, Entry>, slot: Text, code: Text, now: int)
    ensures var after := Registered(entries, slot, code, now);
            && slot in after && after[slot] == Entry(code, now)
            && (|entries[slot := Entry(code, now)]| <= 10 ==> after == entries[slot := Entry(code, now)])
            && (|after| > 10 ==> forall k :: k in after ==> now - after[k].time < TEN_MINUTES)
            && (forall k :: k in entries && k != slot ==>
                  (k !in after ==> now - entries[k].time >= TEN_MINUTES) && (k in after ==> after[k] == entries[k]))
            && after.Keys <= entries.Keys + {slot}
  {
    forall t ensures IsExpired(t, now) <==> now - t >= TEN_MINUTES {
      ExpiryIsTenMinutes(t, now);
    }
  }

  /** What the map knows of one slot. */
  ghost predicate Tracks(ops: seq<Op>, purpose: Purpose, key: Text, now: int) {
    var entries, slot := MapAfter(ops), Slot(purpose, key);
    && (slot in entries ==>
          exists i :: IsLatest(ops, i, purpose, key) && ops[i].Register?
                      && entries[slot] == Entry(ops[i].code, ops[i].now))
    && (slot !in entries ==>
          forall i :: IsLatest(ops, i, purpose, key) && ops[i].Register? ==> IsExpired(ops[i].now, now))
  }

  lemma LatestGrows(ops: seq<Op>, purpose: Purpose, key: Text, i: int)
    requires ops != []
    ensures var n := |ops| - 1;
            IsLatest(ops, i, purpose, key) <==>
            if Concerns(ops[n], purpose, key) then i == n else IsLatest(ops[..n], i, purpose, key)
  {
    var n := |ops| - 1;
    if IsLatest(ops, i, purpose, key) && i < n {
      forall j | i < j < n ensures !Concerns(ops[..n][j], purpose, key) {
        assert ops[..n][j] == ops[j];
      }
    }
    if !Concerns(ops[n], purpose, key) && IsLatest(ops[..n], i, purpose, key) {
      forall j | i < j < |ops| ensures !Concerns(ops[j], purpose, key) {
        if j < n { assert ops[..n][j] == ops[j]; }
      }
    }
  }

  function TimeOf(ops: seq<Op>): int {
    if ops == [] then 0 else ops[|ops| - 1].now
  }

  lemma {:induction false} MapTracks(ops: seq<Op>, purpose: Purpose, key: Text)
    requires ClockRuns(ops)
    ensures Tracks(ops, purpose, key, TimeOf(ops))
    decreases |ops|
  {
    if ops != [] {
      var n := |ops| - 1;
      var before, op := ops[..n], ops[n];
      MapTracks(before, purpose, key);
      forall i ensures IsLatest(ops, i, purpose, key) <==>
                       if Concerns(op, purpose, key) then i == n else IsLatest(before, i, purpose, key)
      {
        LatestGrows(ops, purpose, key, i);
      }
      if !op.Purge? {
        SlotInjective(op.purpose, op.key, purpose, key);
      }
      TracksStep(ops, purpose, key);
    }
  }

  lemma TracksStep(ops: seq<Op>, purpose: Purpose, key: Text)
    requires ops != [] && ClockRuns(ops)
    requires Tracks(ops[..|ops| - 1], purpose, key, TimeOf(ops[..|ops| - 1]))
    requires forall i :: IsLatest(ops, i, purpose, key) <==>
               if Concerns(ops[|ops| - 1], purpose, key) then i == |ops| - 1
               else IsLatest(ops[..|ops| - 1], i, purpose, key)
    requires !ops[|ops| - 1].Purge? && Slot(ops[|ops| - 1].purpose, ops[|ops| - 1].key) == Slot(purpose, key) ==>
               Concerns(ops[|ops| - 1], purpose, key)
    ensures Tracks(ops, purpose, key, TimeOf(ops))
  {
    var n, slot := |ops| - 1, Slot(purpose, key);
    var before, op, entries := ops[..n], ops[n], MapAfter(ops);
    if Concerns(op, purpose, key) {
      assert IsLatest(ops, n, purpose, key);
    } else {
      assert slot in entries ==> slot in MapAfter(before) && entries[slot] == MapAfter(before)[slot];
      if slot in MapAfter(before) {
        var i :| IsLatest(before, i, purpose, key) && before[i].Register?
                 && MapAfter(before)[slot] == Entry(before[i].code, before[i].now);
        assert IsLatest(ops, i, purpose, key) && ops[i] == before[i];
        forall j | IsLatest(ops, j, purpose, key) ensures j == i {
        }
      } else {
        forall i | IsLatest(ops, i, purpose, key) && ops[i].Register? ensures IsExpired(ops[i].now, op.now) {
          assert IsLatest(before, i, purpose, key) && before[i] == ops[i];
          ExpiryIsTenMinutes(ops[i].now, TimeOf(before));
          ExpiryIsTenMinutes(ops[i].now, op.now);
        }
      }
    }
  }

  /**
   * A code verifies exactly when the latest registration for its purpose and key has that code, is under
   * ten minutes old and no delete followed it. How often expired pairs were purged cannot be told.
   */
  lemma VerifiesLatest(ops: seq<Op>, purpose: Purpose, key: Text, code: Text, now: int)
    requires ClockRuns(ops) && TimeOf(ops) <= now
    ensures Accepts(MapAfter(ops), Slot(purpose, key), code, now)
            <==> StandsRegistered(ops, purpose, key, code, now)
  {
    MapTracks(ops, purpose, key);
    var entries, slot := MapAfter(ops), Slot(purpose, key);
    forall t ensures IsExpired(t, now) <==> now - t >= VALID_MINUTES * 60 * SECOND {
      ExpiryIsTenMinutes(t, now);
    }
    if slot in entries {
      var i :| IsLatest(ops, i, purpose, key) && ops[i].Register?
               && entries[slot] == Entry(ops[i].code, ops[i].now);
      forall j | IsLatest(ops, j, purpose, key) ensures j == i {
      }
    } else {
      forall i | IsLatest(ops, i, purpose, key) && ops[i].Register?
        ensures now - ops[i].now >= VALID_MINUTES * 60 * SECOND
      {
        ExpiryIsTenMinutes(ops[i].now, TimeOf(ops));
      }
    }
  }
}
