/** When the two limiters decide as a full history does over every trace, and when they decide alike. */
module RateLimitLaws {
  import opened Bytes
  import opened RateLimit

  /** What happens to one key: a request, or a round of the in-memory sweeper. */
  datatype Event = Ask(now: int) | Sweep(now: int)

  /** At most max admissions in duration seconds; the expiry is in milliseconds. */
  datatype Limits = Limits(max: int, duration: int, expiration: int)

  /** A clock that never runs backwards, starting no earlier than the epoch. */
  ghost predicate ClockRuns(events: seq<Event>) {
    && (forall i :: 0 <= i < |events| ==> 0 <= events[i].now)
    && (forall i, j :: 0 <= i < j < |events| ==> events[i].now <= events[j].now)
  }

  // The three limiters over a trace

  datatype Run<S> = Run(state: S, decisions: seq<bool>)

  /** The reference: its state is the list of all admissions. */
  function Reference(l: Limits, events: seq<Event>): Run<seq<int>>
    decreases |events|
  {
    if events == [] then Run([], [])
    else
      var before := Reference(l, events[..|events| - 1]);
      match events[|events| - 1]
      case Sweep(_) => before
      case Ask(now) =>
        var admitted := Allows(before.state, now, l.max, l.duration);
        Run(Record(before.state, now, admitted), before.decisions + [admitted])
  }

  ghost predicate NotEmpty(q: Queue) {
    q.Some? ==> q.value != []
  }

  /** The in-memory limiter, on events in seconds. Without a positive expiry there is no sweeper. */
  function InMemory(l: Limits, events: seq<Event>): (r: Run<Queue>)
    ensures NotEmpty(r.state)
    decreases |events|
  {
    if events == [] then Run(None, [])
    else
      var before := InMemory(l, events[..|events| - 1]);
      match events[|events| - 1]
      case Sweep(now) =>
        Run(if l.expiration > 0 then SweepStep(before.state, now, l.expiration) else before.state, before.decisions)
      case Ask(now) =>
        var (queue, admitted) := RequestStep(before.state, now, l.max, l.duration);
        Run(queue, before.decisions + [admitted])
  }

  /** The Redis limiter, on events in milliseconds. */
  function Redis(l: Limits, events: seq<Event>): (r: Run<Option<Stored>>)
    ensures r.state.Some? ==> r.state.value.list != []
    decreases |events|
  {
    if events == [] then Run(None, [])
    else
      var before := Redis(l, events[..|events| - 1]);
      match events[|events| - 1]
      case Sweep(_) => before
      case Ask(now) =>
        var (stored, admitted) := RedisStep(ExpireStep(before.state, now, l.expiration), now, l.max, l.duration);
        Run(stored, before.decisions + [admitted])
  }

  // Counting recent admissions

  lemma {:induction false} RecentSplit(a: seq<int>, b: seq<int>, now: int, duration: int)
    ensures Recent(a + b, now, duration) == Recent(a, now, duration) + Recent(b, now, duration)
  {
    if b == [] {
      assert a + b == a;
    } else {
      var s := a + b;
      assert s[..|s| - 1] == a + b[..|b| - 1];
      RecentSplit(a, b[..|b| - 1], now, duration);
    }
  }

  lemma {:induction false} RecentBounds(h: seq<int>, now: int, duration: int)
    ensures Recent(h, now, duration) <= |h|
    ensures (forall i :: 0 <= i < |h| ==> now - h[i] >= duration) ==> Recent(h, now, duration) == 0
    ensures (forall i :: 0 <= i < |h| ==> now - h[i] < duration) ==> Recent(h, now, duration) == |h|
  {
    if h != [] {
      RecentBounds(h[..|h| - 1], now, duration);
    }
  }

  ghost predicate Ascending(h: seq<int>, last: int) {
    && (forall i, j :: 0 <= i < j < |h| ==> h[i] <= h[j])
    && (forall i :: 0 <= i < |h| ==> h[i] <= last)
  }

  /** Of an ascending list of max admissions, all are recent or the oldest is not. */
  lemma OldestDecides(v: seq<int>, now: int, duration: int)
    requires v != [] && Ascending(v, now)
    ensures Recent(v, now, duration) == |v| <==> now - v[0] < duration
  {
    if now - v[0] < duration {
      RecentBounds(v, now, duration);
    } else {
      RecentSplit([v[0]], v[1..], now, duration);
      assert [v[0]] + v[1..] == v;
      RecentBounds([v[0]], now, duration);
      RecentBounds(v[1..], now, duration);
    }
  }

  // What the queue remembers

  ghost predicate AllOld(h: seq<int>, now: int, duration: int) {
    forall i :: 0 <= i < |h| ==> now - h[i] >= duration
  }

  /** The queue holds the newest admissions, at most max of them; those it forgot are old. */
  ghost predicate Remembers(l: Limits, q: Queue, h: seq<int>, now: int) {
    && Ascending(h, now)
    && match q
       case None => AllOld(h, now, l.duration)
       case Some(v) => 0 < |v| <= |h| && |v| <= l.max && v == h[|h| - |v|..]
                       && AllOld(h[..|h| - |v|], now, l.duration)
  }

  lemma TimePasses(l: Limits, q: Queue, h: seq<int>, now: int, later: int)
    requires Remembers(l, q, h, now) && now <= later
    ensures Remembers(l, q, h, later)
  {
  }

  lemma FullQueueAgrees(l: Limits, v: seq<int>, h: seq<int>, now: int)
    requires l.max >= 1 && Remembers(l, Some(v), h, now) && |v| == l.max
    ensures Allows(h, now, l.max, l.duration) <==> now - v[0] >= l.duration
  {
    hide Recent;
    var d := h[..|h| - |v|];
    assert h == d + v;
    RecentSplit(d, v, now, l.duration);
    RecentBounds(d, now, l.duration);
    RecentBounds(v, now, l.duration);
    OldestDecides(v, now, l.duration);
  }

  lemma ShortQueueAllows(l: Limits, v: seq<int>, h: seq<int>, now: int)
    requires Remembers(l, Some(v), h, now) && |v| < l.max
    ensures Allows(h, now, l.max, l.duration)
  {
    hide Recent;
    var d := h[..|h| - |v|];
    assert h == d + v;
    RecentSplit(d, v, now, l.duration);
    RecentBounds(d, now, l.duration);
    RecentBounds(v, now, l.duration);
  }

  /** An admission joins the queue, which may drop an old entry. */
  lemma RemembersMore(l: Limits, v: seq<int>, h: seq<int>, now: int, k: nat)
    requires Remembers(l, Some(v), h, now) && k <= 1 && |v| - k < l.max
    requires k == 1 ==> now - v[0] >= l.duration
    ensures Remembers(l, Some(v[k..] + [now]), h + [now], now)
  {
    var grown, n := h + [now], |h| - |v|;
    assert grown[n + k..] == v[k..] + [now];
    var forgotten := grown[..n + k];
    assert forgotten == if k == 0 then h[..n] else h[..n] + [v[0]];
  }

  /** Both limiters decide alike on a request, and the queue goes on remembering. */
  lemma {:induction false} RequestAgrees(l: Limits, q: Queue, h: seq<int>, now: int)
    requires l.max >= 1 && Remembers(l, q, h, now)
    ensures RequestStep(q, now, l.max, l.duration).1 == Allows(h, now, l.max, l.duration)
    ensures Remembers(l, RequestStep(q, now, l.max, l.duration).0,
                      Record(h, now, Allows(h, now, l.max, l.duration)), now)
  {
    match q {
      case None =>
        RecentBounds(h, now, l.duration);
        assert (h + [now])[|h|..] == [now] && (h + [now])[..|h|] == h;
      case Some(v) =>
        if |v| < l.max {
          ShortQueueAllows(l, v, h, now);
          RemembersMore(l, v, h, now, 0);
          assert v[0..] == v;
        } else {
          FullQueueAgrees(l, v, h, now);
          if now - v[0] >= l.duration {
            RemembersMore(l, v, h, now, 1);
          }
        }
    }
  }

  // The in-memory limiter

  /** A queue is swept only when all its admissions have left the window, or never. */
  predicate SweepsLate(l: Limits) {
    l.expiration <= 0 || l.duration <= WholeSeconds(l.expiration) + 1
  }

  /** Forgetting everything is unobservable once everything is old. */
  lemma SweepAgrees(l: Limits, q: Queue, h: seq<int>, now: int)
    requires l.expiration > 0 && SweepsLate(l) && Remembers(l, q, h, now)
    ensures Remembers(l, SweepStep(q, now, l.expiration), h, now)
  {
  }

  function LastTime(events: seq<Event>): int {
    if events == [] then 0 else events[|events| - 1].now
  }

  lemma ClockPrefix(events: seq<Event>)
    requires events != [] && ClockRuns(events)
    ensures ClockRuns(events[..|events| - 1])
    ensures LastTime(events[..|events| - 1]) <= LastTime(events)
  {
  }

  lemma {:induction false} InMemoryRefines(l: Limits, events: seq<Event>)
    requires l.max >= 1 && SweepsLate(l) && ClockRuns(events)
    ensures InMemory(l, events).decisions == Reference(l, events).decisions
    ensures Remembers(l, InMemory(l, events).state, Reference(l, events).state, LastTime(events))
    decreases |events|
  {
    if events != [] {
      var before := events[..|events| - 1];
      ClockPrefix(events);
      InMemoryRefines(l, before);
      var q, h, now := InMemory(l, before).state, Reference(l, before).state, LastTime(events);
      TimePasses(l, q, h, LastTime(before), now);
      match events[|events| - 1] {
        case Ask(_) => RequestAgrees(l, q, h, now);
        case Sweep(_) => if l.expiration > 0 { SweepAgrees(l, q, h, now); }
      }
    }
  }

  // The exact condition

  /** n requests at one time. */
  function Burst(n: nat, at: int): seq<Event> {
    seq(n, _ => Ask(at))
  }

  function Copies(n: nat, at: int): (copies: seq<int>)
    ensures |copies| == n && forall i :: 0 <= i < n ==> copies[i] == at
  {
    seq(n, _ => at)
  }

  lemma BurstGrows(n: nat, at: int)
    requires n > 0
    ensures Burst(n, at)[..n - 1] == Burst(n - 1, at)
    ensures Copies(n - 1, at) + [at] == Copies(n, at) == [at] + Copies(n - 1, at)
    ensures n == 1 ==> Copies(n, at) == [at]
  {
  }

  lemma {:induction false} BurstAdmitted(l: Limits, n: nat, at: int)
    requires n <= l.max && l.duration > 0
    ensures Reference(l, Burst(n, at)).state == Copies(n, at)
    ensures InMemory(l, Burst(n, at)).state == if n == 0 then None else Some(Copies(n, at))
  {
    hide Copies;
    if n > 0 {
      BurstGrows(n, at);
      BurstAdmitted(l, n - 1, at);
      CopiesRecent(n - 1, at, at, l.duration);
    }
  }

  lemma CopiesRecent(n: nat, at: int, now: int, duration: int)
    requires now - at < duration
    ensures Recent(Copies(n, at), now, duration) == |Copies(n, at)| == n
  {
    RecentBounds(Copies(n, at), now, duration);
  }

  /** The decision on a last request. */
  predicate LastOf(decisions: seq<bool>) {
    decisions != [] && decisions[|decisions| - 1]
  }

  lemma ThenAsk(l: Limits, events: seq<Event>, now: int)
    ensures var more := events + [Ask(now)];
            && LastOf(Reference(l, more).decisions) == Allows(Reference(l, events).state, now, l.max, l.duration)
            && LastOf(InMemory(l, more).decisions)
               == RequestStep(InMemory(l, events).state, now, l.max, l.duration).1
            && LastOf(Redis(l, more).decisions)
               == RedisStep(ExpireStep(Redis(l, events).state, now, l.expiration), now, l.max, l.duration).1
  {
    assert (events + [Ask(now)])[..|events|] == events;
  }

  lemma ThenSweep(l: Limits, events: seq<Event>, now: int)
    ensures var more := events + [Sweep(now)];
            && Reference(l, more) == Reference(l, events)
            && InMemory(l, more).state == (if l.expiration > 0
                                           then SweepStep(InMemory(l, events).state, now, l.expiration)
                                           else InMemory(l, events).state)
  {
    assert (events + [Sweep(now)])[..|events|] == events;
  }

  /** A limit of zero: the first request of a key is admitted all the same. */
  lemma ZeroAdmits(l: Limits)
    requires l.max == 0
    ensures LastOf(InMemory(l, [Ask(0)]).decisions)
    ensures !LastOf(Reference(l, [Ask(0)]).decisions) && !LastOf(Redis(l, [Ask(0)]).decisions)
  {
    ThenAsk(l, [], 0);
    assert [] + [Ask(0)] == [Ask(0)];
  }

  /** The queue is swept while its admissions still count. */
  function EarlySweep(l: Limits): seq<Event>
    requires l.max >= 1
  {
    var at := WholeSeconds(l.expiration) + 1;
    Burst(l.max, 0) + [Sweep(at)] + [Ask(at)]
  }

  lemma WitnessEarlySweep(l: Limits)
    requires l.max >= 1 && !SweepsLate(l)
    ensures ClockRuns(EarlySweep(l))
    ensures LastOf(InMemory(l, EarlySweep(l)).decisions) && !LastOf(Reference(l, EarlySweep(l)).decisions)
  {
    hide Recent, Reference, InMemory, Redis;
    var at := WholeSeconds(l.expiration) + 1;
    var swept := Burst(l.max, 0) + [Sweep(at)];
    BurstAdmitted(l, l.max, 0);
    ThenSweep(l, Burst(l.max, 0), at);
    CopiesRecent(l.max, 0, at, l.duration);
    ThenAsk(l, swept, at);
  }

  lemma {:induction false} NegativeAdmitsNone(l: Limits, events: seq<Event>)
    requires l.max < 0
    ensures InMemory(l, events).decisions == Reference(l, events).decisions
    ensures InMemory(l, events).state == None && Reference(l, events).state == []
    decreases |events|
  {
    if events != [] {
      NegativeAdmitsNone(l, events[..|events| - 1]);
    }
  }

  /** Same decisions on every trace, exactly when the limit is not zero and sweeping comes late enough. */
  lemma InMemoryExact(l: Limits)
    ensures (forall events :: ClockRuns(events) ==> InMemory(l, events).decisions == Reference(l, events).decisions)
            <==> l.max < 0 || (l.max >= 1 && SweepsLate(l))
  {
    if l.max == 0 {
      ZeroAdmits(l);
      assert ClockRuns([Ask(0)]);
    } else if l.max > 0 && !SweepsLate(l) {
      WitnessEarlySweep(l);
    } else {
      forall events | ClockRuns(events)
        ensures InMemory(l, events).decisions == Reference(l, events).decisions
      {
        if l.max < 0 {
          NegativeAdmitsNone(l, events);
        } else {
          InMemoryRefines(l, events);
        }
      }
    }
  }

  // The store of all keys

  datatype StoreEvent = Request(key: Text, now: int) | SweepAll(now: int)

  /** One call of the limiter's methods: what it may make of the store, as their contracts say. */
  ghost predicate Serves(store: map<Text, seq<int>>, e: StoreEvent, limits: Text -> Limits, expiration: int,
                         after: map<Text, seq<int>>, admitted: bool) {
    (forall k :: k in store ==> store[k] != []) &&
    match e
    case Request(key, now) =>
      (QueueOf(after, key), admitted)
        == RequestStep(QueueOf(store, key), now, limits(key).max, limits(key).duration)
      && after - {key} == store - {key}
    case SweepAll(now) =>
      forall k :: QueueOf(after, k) == if expiration > 0 then SweepStep(QueueOf(store, k), now, expiration)
                                       else QueueOf(store, k)
  }

  /** The events that concern a key. */
  function Project(events: seq<StoreEvent>, key: Text): seq<Event> {
    if events == [] then []
    else
      var before := Project(events[..|events| - 1], key);
      match events[|events| - 1]
      case Request(k, now) => if k == key then before + [Ask(now)] else before
      case SweepAll(now) => before + [Sweep(now)]
  }

  /** The decisions taken on a key. */
  function DecisionsOn(events: seq<StoreEvent>, admitted: seq<bool>, key: Text): seq<bool>
    requires |events| == |admitted|
  {
    if events == [] then []
    else
      var n := |events| - 1;
      var before := DecisionsOn(events[..n], admitted[..n], key);
      if events[n].Request? && events[n].key == key then before + [admitted[n]] else before
  }

  /** In the shared store each key fares as it would alone. */
  lemma {:induction false} KeysAreIndependent(stores: seq<map<Text, seq<int>>>, events: seq<StoreEvent>,
                                              admitted: seq<bool>, limits: Text -> Limits, expiration: int, key: Text)
    requires |stores| == |events| + 1 && |admitted| == |events| && stores[0] == map[]
    requires limits(key).expiration == expiration
    requires forall i :: 0 <= i < |events| ==>
               Serves(stores[i], events[i], limits, expiration, stores[i + 1], admitted[i])
    ensures QueueOf(stores[|events|], key) == InMemory(limits(key), Project(events, key)).state
    ensures DecisionsOn(events, admitted, key) == InMemory(limits(key), Project(events, key)).decisions
    decreases |events|
  {
    if events != [] {
      var n := |events| - 1;
      KeysAreIndependent(stores[..n + 1], events[..n], admitted[..n], limits, expiration, key);
      var before := Project(events[..n], key);
      assert Serves(stores[n], events[n], limits, expiration, stores[n + 1], admitted[n]);
      match events[n] {
        case Request(k, now) =>
          if k == key {
            assert (before + [Ask(now)])[..|before|] == before;
          } else {
            assert key in stores[n] <==> key in stores[n] - {k};
            assert key in stores[n + 1] <==> key in stores[n + 1] - {k};
            assert QueueOf(stores[n + 1], key) == QueueOf(stores[n], key);
          }
        case SweepAll(now) =>
          assert (before + [Sweep(now)])[..|before|] == before;
      }
    }
  }

  // Redis

  /** A key expires only when all its admissions have left the window, or the window is empty. */
  predicate Outlives(l: Limits) {
    l.duration <= 0 || 1000 * l.duration <= l.expiration
  }

  function InMillis(l: Limits): Limits {
    l.(duration := 1000 * l.duration)
  }

  function Reverse(s: seq<int>): (r: seq<int>)
    ensures |r| == |s| && forall i :: 0 <= i < |s| ==> r[i] == s[|s| - 1 - i]
  {
    seq(|s|, i requires 0 <= i < |s| => s[|s| - 1 - i])
  }

  /** The list, newest first, is the queue reversed. */
  ghost function AsQueue(s: Option<Stored>): Queue {
    match s
    case None => None
    case Some(stored) => Some(Reverse(stored.list))
  }

  /** The list remembers the admissions as a queue would, and was touched no earlier than the newest of them. */
  ghost predicate Holds(l: Limits, s: Option<Stored>, h: seq<int>, now: int) {
    && Remembers(InMillis(l), AsQueue(s), h, now)
    && (s.Some? ==> Ascending(h, s.value.touched) && s.value.touched <= now)
  }

  lemma ExpiryAgrees(l: Limits, s: Option<Stored>, h: seq<int>, now: int)
    requires Outlives(l) && Holds(l, s, h, now)
    ensures Holds(l, ExpireStep(s, now, l.expiration), h, now)
  {
  }

  lemma RedisRequestAgrees(l: Limits, s: Option<Stored>, h: seq<int>, now: int)
    requires l.max >= 1 && (s.Some? ==> s.value.list != []) && Holds(l, s, h, now)
    ensures var (s', admitted) := RedisStep(s, now, l.max, l.duration);
            (AsQueue(s'), admitted) == RequestStep(AsQueue(s), now, l.max, 1000 * l.duration)
            && (s'.Some? ==> s'.value.touched == now)
  {
    var (s', admitted) := RedisStep(s, now, l.max, l.duration);
    match s {
      case None =>
        assert [now] + [] == [now] && Reverse([now]) == [now];
      case Some(stored) =>
        var list := stored.list;
        var v := Reverse(list);
        assert Reverse([now] + list) == v + [now];
        if |list| == l.max {
          assert Reverse(Trim([now] + list, l.max)) == v[1..] + [now];
        }
    }
  }

  lemma {:induction false} RedisRefines(l: Limits, events: seq<Event>)
    requires l.max >= 1 && Outlives(l) && ClockRuns(events)
    ensures Redis(l, events).decisions == Reference(InMillis(l), events).decisions
    ensures Holds(l, Redis(l, events).state, Reference(InMillis(l), events).state, LastTime(events))
    decreases |events|
  {
    hide RedisStep, RequestStep;
    if events != [] {
      var before := events[..|events| - 1];
      ClockPrefix(events);
      RedisRefines(l, before);
      var s, h, now := Redis(l, before).state, Reference(InMillis(l), before).state, LastTime(events);
      TimePasses(InMillis(l), AsQueue(s), h, LastTime(before), now);
      if events[|events| - 1].Ask? {
        var s' := ExpireStep(s, now, l.expiration);
        ExpiryAgrees(l, s, h, now);
        RedisRequestAgrees(l, s', h, now);
        RequestAgrees(InMillis(l), AsQueue(s'), h, now);
      }
    }
  }

  /** A limit below one: nothing is ever admitted, as it should be. */
  lemma {:induction false} RedisAdmitsNone(l: Limits, events: seq<Event>)
    requires l.max < 1
    ensures Redis(l, events).decisions == Reference(InMillis(l), events).decisions
    ensures Redis(l, events).state == None && Reference(InMillis(l), events).state == []
    decreases |events|
  {
    if events != [] {
      RedisAdmitsNone(l, events[..|events| - 1]);
    }
  }

  lemma {:induction false} RedisBurst(l: Limits, n: nat, at: int)
    requires n <= l.max
    ensures var s := Redis(l, Burst(n, at)).state;
            && (s.Some? ==> s.value.touched == at)
            && (l.expiration > 0 ==> s == if n == 0 then None else Some(Stored(Copies(n, at), at)))
  {
    hide Copies;
    if n > 0 {
      BurstGrows(n, at);
      RedisBurst(l, n - 1, at);
      assert [at] + [] == [at];
    }
  }

  function LastAsk(events: seq<Event>): int
    decreases |events|
  {
    if events == [] then 0
    else match events[|events| - 1]
         case Ask(now) => now
         case Sweep(_) => LastAsk(events[..|events| - 1])
  }

  /** Every request, refused or not, puts the expiry of the key off. */
  lemma {:induction false} TouchedByEveryRequest(l: Limits, events: seq<Event>)
    ensures var s := Redis(l, events).state; s.Some? ==> s.value.touched == LastAsk(events)
    decreases |events|
  {
    if events != [] {
      TouchedByEveryRequest(l, events[..|events| - 1]);
    }
  }

  /** The key expires while its admissions still count. */
  function EarlyExpiry(l: Limits): seq<Event>
    requires l.max >= 1
  {
    Burst(l.max, 0) + [Ask(if l.expiration > 0 then l.expiration else 0)]
  }

  lemma EarlyExpiryRuns(l: Limits)
    requires l.max >= 1
    ensures ClockRuns(EarlyExpiry(l))
  {
  }

  lemma WitnessEarlyExpiry(l: Limits)
    requires l.max >= 1 && !Outlives(l)
    ensures ClockRuns(EarlyExpiry(l)) && LastOf(Redis(l, EarlyExpiry(l)).decisions)
    ensures !LastOf(Reference(InMillis(l), EarlyExpiry(l)).decisions)
  {
    hide Recent, Reference, InMemory, Redis, Copies, ClockRuns;
    EarlyExpiryRuns(l);
    var at := if l.expiration > 0 then l.expiration else 0;
    RedisBurst(l, l.max, 0);
    BurstAdmitted(InMillis(l), l.max, 0);
    CopiesRecent(l.max, 0, at, 1000 * l.duration);
    ThenAsk(l, Burst(l.max, 0), at);
    ThenAsk(InMillis(l), Burst(l.max, 0), at);
  }

  /** The Redis limiter decides as the reference on every trace, exactly when its keys outlive the window. */
  lemma RedisExact(l: Limits)
    ensures (forall events :: ClockRuns(events) ==>
               Redis(l, events).decisions == Reference(InMillis(l), events).decisions)
            <==> l.max < 1 || Outlives(l)
  {
    if l.max >= 1 && !Outlives(l) {
      WitnessEarlyExpiry(l);
    } else {
      forall events | ClockRuns(events)
        ensures Redis(l, events).decisions == Reference(InMillis(l), events).decisions
      {
        if l.max < 1 {
          RedisAdmitsNone(l, events);
        } else {
          RedisRefines(l, events);
        }
      }
    }
  }
}
