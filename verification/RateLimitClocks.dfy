/** The two limiters side by side, on one clock in milliseconds. */
module RateLimitClocks {
  import opened RateLimit
  import opened RateLimitLaws

  function ToSeconds(e: Event): Event {
    e.(now := e.now / 1000)
  }

  /** The events as the in-memory limiter sees them. */
  function InSeconds(events: seq<Event>): (seconds: seq<Event>)
    ensures |seconds| == |events| && forall i :: 0 <= i < |events| ==> seconds[i] == ToSeconds(events[i])
  {
    seq(|events|, i requires 0 <= i < |events| => ToSeconds(events[i]))
  }

  lemma SecondsRun(events: seq<Event>)
    requires ClockRuns(events)
    ensures ClockRuns(InSeconds(events))
    ensures events != [] ==> InSeconds(events)[..|events| - 1] == InSeconds(events[..|events| - 1])
  {
  }

  /** All times lie the same way off a full second. */
  ghost predicate IsAligned(events: seq<Event>, r: int) {
    forall i :: 0 <= i < |events| ==> events[i].now % 1000 == r
  }

  /** h, in milliseconds and all the same way off a full second, is g in seconds. */
  ghost predicate IsInSeconds(h: seq<int>, g: seq<int>, r: int) {
    |g| == |h| && forall i :: 0 <= i < |h| ==> h[i] == 1000 * g[i] + r
  }

  lemma {:induction false} RecentInSeconds(h: seq<int>, g: seq<int>, r: int, now: int, duration: int)
    requires IsInSeconds(h, g, r) && now % 1000 == r
    ensures Recent(h, now, 1000 * duration) == Recent(g, now / 1000, duration)
  {
    if h != [] {
      var n := |h| - 1;
      RecentInSeconds(h[..n], g[..n], r, now, duration);
      assert now == 1000 * (now / 1000) + r;
      assert now - h[n] == 1000 * (now / 1000 - g[n]);
    }
  }

  lemma {:induction false} ReferenceInSeconds(l: Limits, events: seq<Event>, r: int)
    requires ClockRuns(events) && IsAligned(events, r)
    ensures Reference(InMillis(l), events).decisions == Reference(l, InSeconds(events)).decisions
    ensures IsInSeconds(Reference(InMillis(l), events).state, Reference(l, InSeconds(events)).state, r)
    decreases |events|
  {
    if events != [] {
      var before := events[..|events| - 1];
      ClockPrefix(events);
      SecondsRun(events);
      ReferenceInSeconds(l, before, r);
      var now := events[|events| - 1].now;
      RecentInSeconds(Reference(InMillis(l), before).state, Reference(l, InSeconds(before)).state, r, now, l.duration);
    }
  }

  /** On traces whose times are all the same way off a full second the limiters admit the same requests. */
  lemma {:induction false} RedisMatchesInMemory(l: Limits, events: seq<Event>, r: int)
    requires l.max >= 1 && Outlives(l) && ClockRuns(events) && IsAligned(events, r)
    ensures Redis(l, events).decisions == InMemory(l, InSeconds(events)).decisions
  {
    SecondsRun(events);
    RedisRefines(l, events);
    InMemoryRefines(l, InSeconds(events));
    ReferenceInSeconds(l, events, r);
  }

  lemma BurstInSeconds(n: nat, at: int, now: int)
    ensures InSeconds(Burst(n, at) + [Ask(now)]) == Burst(n, at / 1000) + [Ask(now / 1000)]
  {
  }

  /** A burst late in a second, and a request early in the second in which its window ends. */
  function LateBurst(l: Limits): seq<Event>
    requires l.max >= 1
  {
    Burst(l.max, 900) + [Ask(1000 * l.duration + 100)]
  }

  /** In memory the window then ends up to a second early. */
  lemma {:induction false} WitnessLateBurst(l: Limits)
    requires l.max >= 1 && l.duration >= 1 && Outlives(l)
    ensures ClockRuns(LateBurst(l))
    ensures LastOf(InMemory(l, InSeconds(LateBurst(l))).decisions) && !LastOf(Redis(l, LateBurst(l)).decisions)
  {
    hide Reference, InMemory, Redis;
    var now := 1000 * l.duration + 100;
    BurstInSeconds(l.max, 900, now);
    assert 900 / 1000 == 0 && now / 1000 == l.duration;
    BurstAdmitted(l, l.max, 0);
    ThenAsk(l, Burst(l.max, 0), l.duration);
    RedisBurst(l, l.max, 900);
    ThenAsk(l, Burst(l.max, 900), now);
    assert WholeSeconds(now - 900) == l.duration - 1;
  }

  /** Redis forgets early, memory does not. */
  lemma {:induction false} WitnessEarlyExpiryInMemory(l: Limits)
    requires l.max >= 1 && !Outlives(l)
    ensures !LastOf(InMemory(l, InSeconds(EarlyExpiry(l))).decisions)
  {
    var at := if l.expiration > 0 then l.expiration else 0;
    BurstInSeconds(l.max, 0, at);
    BurstAdmitted(l, l.max, 0);
    ThenAsk(l, Burst(l.max, 0), at / 1000);
  }

  /** With an empty window every request is admitted on either clock. */
  lemma {:induction false} OpenWindow(l: Limits, events: seq<Event>)
    requires l.max >= 1 && l.duration <= 0 && ClockRuns(events)
    ensures Reference(InMillis(l), events).decisions == Reference(l, InSeconds(events)).decisions
    decreases |events|
  {
    hide Allows, InMemory, Redis;
    if events != [] {
      var before, now := events[..|events| - 1], LastTime(events);
      ClockPrefix(events);
      SecondsRun(events);
      SecondsRun(before);
      OpenWindow(l, before);
      RedisRefines(l, before);
      InMemoryRefines(l, InSeconds(before));
      AllowedAtOnce(InMillis(l), Reference(InMillis(l), before).state, now);
      AllowedAtOnce(l, Reference(l, InSeconds(before)).state, now / 1000);
    }
  }

  lemma AllowedAtOnce(l: Limits, h: seq<int>, now: int)
    requires l.max >= 1 && l.duration <= 0 && Ascending(h, now)
    ensures Allows(h, now, l.max, l.duration)
  {
    RecentBounds(h, now, l.duration);
  }

  /** On all traces the two limiters admit the same requests exactly when they admit none or all. */
  lemma {:induction false} ClocksExact(l: Limits)
    ensures (forall events :: ClockRuns(events) ==>
               Redis(l, events).decisions == InMemory(l, InSeconds(events)).decisions)
            <==> l.max < 0 || (l.max >= 1 && l.duration <= 0)
  {
    if l.max == 0 {
      ZeroAdmits(l);
      assert InSeconds([Ask(0)]) == [Ask(0)] && ClockRuns([Ask(0)]);
    } else if l.max > 0 && l.duration >= 1 {
      if Outlives(l) {
        WitnessLateBurst(l);
      } else {
        WitnessEarlyExpiry(l);
        WitnessEarlyExpiryInMemory(l);
      }
    } else {
      forall events | ClockRuns(events)
        ensures Redis(l, events).decisions == InMemory(l, InSeconds(events)).decisions
      {
        AgreeAtExtremes(l, events);
      }
    }
  }

  lemma {:induction false} AgreeAtExtremes(l: Limits, events: seq<Event>)
    requires l.max < 0 || (l.max >= 1 && l.duration <= 0)
    requires ClockRuns(events)
    ensures Redis(l, events).decisions == InMemory(l, InSeconds(events)).decisions
  {
    SecondsRun(events);
    if l.max < 0 {
      RedisAdmitsNone(l, events);
      NegativeAdmitsNone(l, InSeconds(events));
      NoneAdmittedAlike(l, events);
    } else {
      RedisRefines(l, events);
      InMemoryRefines(l, InSeconds(events));
      OpenWindow(l, events);
    }
  }

  lemma {:induction false} NoneAdmittedAlike(l: Limits, events: seq<Event>)
    requires l.max < 0 && ClockRuns(events)
    ensures Reference(InMillis(l), events).decisions == Reference(l, InSeconds(events)).decisions
    decreases |events|
  {
    if events != [] {
      ClockPrefix(events);
      SecondsRun(events);
      NoneAdmittedAlike(l, events[..|events| - 1]);
    }
  }
}
