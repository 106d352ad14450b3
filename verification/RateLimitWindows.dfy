/** What each limiter promises of the requests it admitted. */
module RateLimitWindows {
  import opened RateLimit
  import opened RateLimitLaws

  /** The times of the admitted requests. */
  function Admissions(events: seq<Event>, decisions: seq<bool>): seq<int>
    decreases |events|
  {
    if events == [] then []
    else
      var n := |events| - 1;
      match events[n]
      case Sweep(_) => Admissions(events[..n], decisions)
      case Ask(now) =>
        if decisions == [] then []
        else
          var before := Admissions(events[..n], decisions[..|decisions| - 1]);
          if decisions[|decisions| - 1] then before + [now] else before
  }

  /** The reference's state is the list of its admissions. */
  lemma {:induction false} ReferenceTimes(l: Limits, events: seq<Event>)
    ensures Admissions(events, Reference(l, events).decisions) == Reference(l, events).state
    decreases |events|
  {
    if events != [] {
      var before := events[..|events| - 1];
      ReferenceTimes(l, before);
      var r := Reference(l, events).decisions;
      assert events[|events| - 1].Ask? ==> r[..|r| - 1] == Reference(l, before).decisions;
    }
  }

  /** The admissions in the half-open window that starts at a. */
  function InWindow(h: seq<int>, a: int, duration: int): nat {
    if h == [] then 0
    else InWindow(h[..|h| - 1], a, duration) + (if a <= h[|h| - 1] < a + duration then 1 else 0)
  }

  lemma {:induction false} WindowIsRecent(h: seq<int>, a: int, now: int, duration: int)
    requires a <= now < a + duration
    ensures InWindow(h, a, duration) <= Recent(h, now, duration)
  {
    if h != [] {
      WindowIsRecent(h[..|h| - 1], a, now, duration);
    }
  }

  lemma {:induction false} ReferenceWindow(l: Limits, events: seq<Event>, a: int)
    ensures InWindow(Reference(l, events).state, a, l.duration) <= if l.max < 0 then 0 else l.max
    decreases |events|
  {
    if events != [] {
      var h := Reference(l, events[..|events| - 1]).state;
      ReferenceWindow(l, events[..|events| - 1], a);
      if events[|events| - 1].Ask? {
        var now := events[|events| - 1].now;
        assert (h + [now])[..|h|] == h;
        if a <= now < a + l.duration {
          WindowIsRecent(h, a, now, l.duration);
        }
      }
    }
  }

  /** No window of the given duration, wherever it starts, holds more than max requests admitted in memory. */
  lemma {:induction false} WindowBound(l: Limits, events: seq<Event>, a: int)
    requires l.max < 0 || (l.max >= 1 && SweepsLate(l))
    requires ClockRuns(events)
    ensures InWindow(Admissions(events, InMemory(l, events).decisions), a, l.duration)
            <= if l.max < 0 then 0 else l.max
  {
    InMemoryExact(l);
    ReferenceTimes(l, events);
    ReferenceWindow(l, events, a);
  }

  /** The same of Redis, in milliseconds. */
  lemma {:induction false} RedisWindowBound(l: Limits, events: seq<Event>, a: int)
    requires l.max < 1 || Outlives(l)
    requires ClockRuns(events)
    ensures InWindow(Admissions(events, Redis(l, events).decisions), a, 1000 * l.duration)
            <= if l.max < 0 then 0 else l.max
  {
    RedisExact(l);
    ReferenceTimes(InMillis(l), events);
    ReferenceWindow(InMillis(l), events, a);
  }

  /** The max-th latest admission, if there is one, is duration old. */
  predicate IsDue(h: seq<int>, now: int, max: int, duration: int)
    requires max >= 1
  {
    |h| < max || now >= h[|h| - max] + duration
  }

  lemma AllowsWhenDue(h: seq<int>, now: int, max: int, duration: int)
    requires max >= 1 && Ascending(h, now)
    ensures Allows(h, now, max, duration) <==> IsDue(h, now, max, duration)
  {
    hide Recent;
    RecentBounds(h, now, duration);
    if |h| >= max {
      var d, v := h[..|h| - max], h[|h| - max..];
      assert d + v == h;
      RecentSplit(d, v, now, duration);
      RecentBounds(v, now, duration);
      OldestDecides(v, now, duration);
      if now - v[0] >= duration {
        RecentBounds(d, now, duration);
      }
    }
  }

  lemma ClockGoesOn(events: seq<Event>, now: int)
    requires ClockRuns(events + [Ask(now)])
    ensures ClockRuns(events) && LastTime(events) <= now
  {
    var more := events + [Ask(now)];
    assert more[..|events|] == events && more[|events|].now == now;
    assert forall i :: 0 <= i < |events| ==> more[i] == events[i];
  }

  /**
   * The next request is admitted exactly when fewer than max were so far or the max-th latest admission
   * is duration old: rejections in between play no part.
   */
  lemma {:induction false} NextAdmission(l: Limits, events: seq<Event>, now: int)
    requires l.max >= 1 && SweepsLate(l) && ClockRuns(events + [Ask(now)])
    ensures LastOf(InMemory(l, events + [Ask(now)]).decisions)
            <==> IsDue(Admissions(events, InMemory(l, events).decisions), now, l.max, l.duration)
  {
    hide Reference, InMemory, Redis, Admissions, IsDue, Recent;
    ClockGoesOn(events, now);
    InMemoryRefines(l, events);
    InMemoryRefines(l, events + [Ask(now)]);
    ReferenceTimes(l, events);
    ThenAsk(l, events, now);
    AllowsWhenDue(Reference(l, events).state, now, l.max, l.duration);
  }

  /** The same of Redis, in milliseconds. */
  lemma {:induction false} RedisNextAdmission(l: Limits, events: seq<Event>, now: int)
    requires l.max >= 1 && Outlives(l) && ClockRuns(events + [Ask(now)])
    ensures LastOf(Redis(l, events + [Ask(now)]).decisions)
            <==> IsDue(Admissions(events, Redis(l, events).decisions), now, l.max, 1000 * l.duration)
  {
    hide Reference, InMemory, Redis, Admissions, IsDue, Recent;
    ClockGoesOn(events, now);
    RedisRefines(l, events);
    RedisRefines(l, events + [Ask(now)]);
    ReferenceTimes(InMillis(l), events);
    ThenAsk(InMillis(l), events, now);
    AllowsWhenDue(Reference(InMillis(l), events).state, now, l.max, 1000 * l.duration);
  }
}
