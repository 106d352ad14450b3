/**
 * The sliding-window limiters of common/rate-limit.go and middleware/rate-limit.go. The in-memory limiter reads
 * a clock in whole seconds, the Redis limiter one in milliseconds; durations are in seconds, expiries in milliseconds.
 */
module RateLimit {
  import opened Bytes

  /** int64(d.Seconds()) of a time span in milliseconds: truncation towards zero. */
  function WholeSeconds(millis: int): int {
    if millis >= 0 then millis / 1000 else -(-millis / 1000)
  }

  // The reference: remember every admission

  /** How many admissions in h are less than duration old at now. */
  function Recent(h: seq<int>, now: int, duration: int): nat {
    if h == [] then 0
    else Recent(h[..|h| - 1], now, duration) + (if now - h[|h| - 1] < duration then 1 else 0)
  }

  /** The decision of a limiter with a full history: fewer than max recent admissions. */
  predicate Allows(h: seq<int>, now: int, max: int, duration: int) {
    Recent(h, now, duration) < max
  }

  function Record(h: seq<int>, now: int, admitted: bool): seq<int> {
    if admitted then h + [now] else h
  }

  // The in-memory limiter

  /** The queue of one key, if the key is in the store. */
  type Queue = Option<seq<int>>

  /**
   * Request on one key: the queue afterwards and the decision. For a negative limit make panics on a new
   * key: the request is not served and the store stays as it is.
   */
  function RequestStep(q: Queue, now: int, max: int, duration: int): (Queue, bool)
    requires q.Some? ==> q.value != []
  {
    if q.None? then (if max < 0 then (None, false) else (Some([now]), true))
    else if |q.value| < max then (Some(q.value + [now]), true)
    else if now - q.value[0] >= duration then (Some(q.value[1..] + [now]), true)
    else (q, false)
  }

  /** The sweeper on one key. */
  function SweepStep(q: Queue, now: int, expiration: int): Queue
    requires q.Some? ==> q.value != []
  {
    if q.Some? && now - q.value[|q.value| - 1] > WholeSeconds(expiration) then None else q
  }

  function QueueOf(store: map<Text, seq<int>>, key: Text): Queue {
    if key in store then Some(store[key]) else None
  }

  class InMemoryRateLimiter {
    var store: map<Text, seq<int>>
    const expirationDuration: int

    ghost predicate Valid()
      reads this
    {
      forall k :: k in store ==> store[k] != []
    }

    constructor (expirationDuration: int)
      ensures Valid() && store == map[] && this.expirationDuration == expirationDuration
    {
      store := map[];
      this.expirationDuration := expirationDuration;
    }

    /** Request at a time in seconds; false stands for the panic too. */
    method Request(key: Text, maxRequestNum: int, duration: int, now: int) returns (admitted: bool)
      requires Valid()
      modifies this
      ensures Valid()
      ensures (QueueOf(store, key), admitted) == RequestStep(QueueOf(old(store), key), now, maxRequestNum, duration)
      ensures store - {key} == old(store) - {key}
    {
      if key in store {
        var queue := store[key];
        if |queue| < maxRequestNum {
          store := store[key := queue + [now]];
          return true;
        } else if now - queue[0] >= duration {
          queue := queue[1..];
          store := store[key := queue + [now]];
          return true;
        } else {
          return false;
        }
      }
      if maxRequestNum < 0 {
        return false;
      }
      store := store[key := [now]];
      return true;
    }

    /** One round of the sweeper. */
    method ClearExpiredItems(now: int)
      requires Valid()
      modifies this
      ensures Valid()
      ensures forall k :: QueueOf(store, k) == SweepStep(QueueOf(old(store), k), now, expirationDuration)
    {
      var rest := store.Keys;
      while rest != {}
        invariant Valid() && rest <= store.Keys
        invariant forall k ::
          QueueOf(store, k) == if k in rest then QueueOf(old(store), k)
                               else SweepStep(QueueOf(old(store), k), now, expirationDuration)
        decreases rest
      {
        var key :| key in rest;
        var queue := store[key];
        var size := |queue|;
        assert QueueOf(store, key) == QueueOf(old(store), key);
        if size == 0 || now - queue[size - 1] > WholeSeconds(expirationDuration) {
          store := store - {key};
        }
        rest := rest - {key};
      }
    }
  }

  // The Redis limiter

  /** A Redis list, newest entry first, and when its expiry was last set. */
  datatype Stored = Stored(list: seq<int>, touched: int)

  /** LTRIM key 0 n-1: the end counts from the back when it is negative. */
  function Trim(list: seq<int>, n: int): seq<int> {
    var kept := if n > 0 then n else |list| + n;
    if kept <= 0 then [] else if kept < |list| then list[..kept] else list
  }

  /** A list without entries is no list. */
  function Kept(list: seq<int>, now: int): Option<Stored> {
    if list == [] then None else Some(Stored(list, now))
  }

  /** redisRateLimiter on one key; a missing oldest entry is an error, and the request is not served. */
  function RedisStep(s: Option<Stored>, now: int, max: int, duration: int): (Option<Stored>, bool)
    requires s.Some? ==> s.value.list != []
  {
    var list := if s.Some? then s.value.list else [];
    if |list| < max then (Some(Stored([now] + list, now)), true)
    else if list == [] then (None, false)
    else if WholeSeconds(now - list[|list| - 1]) < duration then (Some(Stored(list, now)), false)
    else (Kept(Trim([now] + list, max), now), true)
  }

  /** Redis has a key no more once its expiry has passed. */
  function ExpireStep(s: Option<Stored>, now: int, expiration: int): Option<Stored> {
    if s.Some? && now - s.value.touched >= expiration then None else s
  }

  function StoredOf(lists: map<Text, Stored>, key: Text): Option<Stored> {
    if key in lists then Some(lists[key]) else None
  }

  class RedisRateLimiter {
    var lists: map<Text, Stored>
    const expirationDuration: int

    ghost predicate Valid()
      reads this
    {
      forall k :: k in lists ==> lists[k].list != []
    }

    /** redisRateLimiter at a time in milliseconds, one Redis command after the other. */
    method Request(key: Text, maxRequestNum: int, duration: int, now: int) returns (admitted: bool)
      requires Valid()
      modifies this
      ensures Valid()
      ensures (StoredOf(lists, key), admitted)
              == RedisStep(ExpireStep(StoredOf(old(lists), key), now, expirationDuration), now, maxRequestNum, duration)
      ensures lists - {key} == old(lists) - {key}
    {
      if key in lists && now - lists[key].touched >= expirationDuration {
        lists := lists - {key};
      }
      var list := if key in lists then lists[key].list else [];
      if |list| < maxRequestNum {
        lists := lists[key := Stored([now] + list, now)];
        return true;
      }
      if list == [] {
        return false;
      }
      var oldTime := list[|list| - 1];
      if WholeSeconds(now - oldTime) < duration {
        lists := lists[key := Stored(list, now)];
        return false;
      }
      list := [now] + list;
      list := Trim(list, maxRequestNum);
      if list == [] {
        lists := lists - {key};
      } else {
        lists := lists[key := Stored(list, now)];
      }
      return true;
    }
  }
}
