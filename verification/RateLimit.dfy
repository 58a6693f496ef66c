/** Fixed-window rate limiting over a Redis counter with expiry. Times are in milliseconds. */
module RateLimit {
  datatype Counter = Counter(count: nat, expiresAt: int)

  type Store = map<string, Counter>

  /** A key past its expiry reads as absent. */
  predicate Live(store: Store, key: string, now: int) {
    key in store && now < store[key].expiresAt
  }

  /** The Lua script: INCR, then EXPIRE on the first count only, then TTL in seconds, rounded as Redis
      does. An expiry that is not positive deletes the key at once, and TTL then answers -2. */
  function Increment(store: Store, key: string, windowSeconds: int, now: int): (Store, nat, int) {
    if Live(store, key, now) then
      var c := store[key];
      (store[key := Counter(c.count + 1, c.expiresAt)], c.count + 1, (c.expiresAt - now + 500) / 1000)
    else if windowSeconds <= 0 then (store - {key}, 1, -2)
    else (store[key := Counter(1, now + 1000 * windowSeconds)], 1, windowSeconds)
  }

  datatype Verdict = Admitted | Limited(retryAfter: int) | Unavailable

  class RedisRateLimiter {
    var store: Store

    constructor ()
      ensures store == map[]
    {
      store := map[];
    }

    /** Admits while the window's count is within the limit; a rejection tells a delay of at least one
        second and, for a positive limit, leaves the window's end where it was; no other key changes;
        an unreachable store admits nothing. */
    method Enforce(key: string, limit: int, windowSeconds: int, now: int, reachable: bool) returns (v: Verdict)
      modifies this
      ensures !reachable ==> v == Unavailable && store == old(store)
      ensures reachable ==> store == Increment(old(store), key, windowSeconds, now).0
      ensures reachable ==> (v == Admitted <==> Increment(old(store), key, windowSeconds, now).1 <= limit)
      ensures v.Limited? ==> v.retryAfter >= 1
      ensures v.Limited? && limit >= 1 ==>
                && Live(old(store), key, now) && key in store && store[key].expiresAt == old(store)[key].expiresAt
                && v.retryAfter * 1000 >= store[key].expiresAt - now - 500
                && (v.retryAfter > 1 ==> v.retryAfter * 1000 <= store[key].expiresAt - now + 500)
      ensures forall k :: k != key ==> (k in store <==> k in old(store)) && (k in store ==> store[k] == old(store)[k])
    {
      if !reachable {
        return Unavailable;
      }
      var (after, count, ttl) := Increment(store, key, windowSeconds, now);
      store := after;
      if count > limit {
        return Limited(if ttl > 1 then ttl else 1);
      }
      v := Admitted;
    }
  }

  // ----- the windows of one key -----

  /** The window a key is in: its start, and how many requests it has counted. */
  datatype Slot = Fresh | In(start: int, rank: nat)

  function Count(slot: Slot, t: int, w: int): (s: Slot)
    ensures s.In?
  {
    if slot.In? && t < slot.start + w then In(slot.start, slot.rank + 1) else In(t, 1)
  }

  /** An admitted request: its time, and the start of the window that counted it. */
  datatype Pass = Pass(at: int, window: int)

  function Passes(slot: Slot, times: seq<int>, w: int, limit: int): seq<Pass>
    decreases |times|
  {
    if times == [] then []
    else
      var s := Count(slot, times[0], w);
      (if s.rank <= limit then [Pass(times[0], s.start)] else []) + Passes(s, times[1..], w, limit)
  }

  /** The windows opened by a request sequence. */
  function Starts(slot: Slot, times: seq<int>, w: int): seq<int>
    decreases |times|
  {
    if times == [] then []
    else
      var s := Count(slot, times[0], w);
      (if s.rank == 1 then [s.start] else []) + Starts(s, times[1..], w)
  }

  // ----- the store implements the windows -----

  datatype Request = Request(key: string, at: int)

  function Project(trace: seq<Request>, key: string): seq<int> {
    if trace == [] then []
    else (if trace[0].key == key then [trace[0].at] else []) + Project(trace[1..], key)
  }

  /** The times at which requests for `key` are admitted when the whole trace runs against the store. */
  function AdmittedTimes(store: Store, trace: seq<Request>, key: string, limit: int, windowSeconds: int): seq<int>
    decreases |trace|
  {
    if trace == [] then []
    else
      var (after, count, _) := Increment(store, trace[0].key, windowSeconds, trace[0].at);
      (if trace[0].key == key && count <= limit then [trace[0].at] else [])
      + AdmittedTimes(after, trace[1..], key, limit, windowSeconds)
  }

  function Times(passes: seq<Pass>): seq<int> {
    if passes == [] then [] else [passes[0].at] + Times(passes[1..])
  }

  /** The stored counter of a key is its current window. */
  ghost predicate Represents(store: Store, key: string, slot: Slot, w: int) {
    match slot
    case Fresh => key !in store
    case In(start, rank) => key in store && store[key] == Counter(rank, start + w)
  }

  /** For any interleaving of keys, the store admits a key's requests exactly as its windows do. */
  lemma {:induction false} StoreImplementsWindows(store: Store, trace: seq<Request>, key: string, slot: Slot,
                                                  limit: int, windowSeconds: int)
    requires windowSeconds > 0 && Represents(store, key, slot, 1000 * windowSeconds)
    ensures AdmittedTimes(store, trace, key, limit, windowSeconds)
         == Times(Passes(slot, Project(trace, key), 1000 * windowSeconds, limit))
    decreases |trace|
  {
    if trace != [] {
      var w := 1000 * windowSeconds;
      var after := Increment(store, trace[0].key, windowSeconds, trace[0].at).0;
      var next := if trace[0].key == key then Count(slot, trace[0].at, w) else slot;
      StoreImplementsWindows(after, trace[1..], key, next, limit, windowSeconds);
      var rest := Project(trace[1..], key);
      if trace[0].key == key {
        assert ([trace[0].at] + rest)[1..] == rest;
        var passes := Passes(next, rest, w, limit);
        assert ([Pass(trace[0].at, next.start)] + passes)[1..] == passes;
        assert [] + passes == passes;
      } else {
        assert [] + rest == rest;
        assert AdmittedTimes(store, trace, key, limit, windowSeconds)
            == AdmittedTimes(after, trace[1..], key, limit, windowSeconds);
      }
    }
  }

  // ----- bounds -----

  ghost predicate Sorted(times: seq<int>) {
    forall i, j :: 0 <= i < j < |times| ==> times[i] <= times[j]
  }

  function Pos(n: int): nat {
    if n > 0 then n else 0
  }

  function CountWithin(times: seq<int>, lo: int, hi: int): nat {
    if times == [] then 0 else (if lo <= times[0] < hi then 1 else 0) + CountWithin(times[1..], lo, hi)
  }

  function CountOfWindow(passes: seq<Pass>, window: int): nat {
    if passes == [] then 0 else (if passes[0].window == window then 1 else 0) + CountOfWindow(passes[1..], window)
  }

  /** No window admits more than the limit. */
  lemma {:induction false} WindowAdmitsAtMostLimit(slot: Slot, times: seq<int>, w: int, limit: int, window: int)
    requires w > 0 && Sorted(times) && (slot.In? ==> forall t :: t in times ==> slot.start <= t)
    ensures CountOfWindow(Passes(slot, times, w, limit), window) <=
            if slot.In? && slot.start >= window
                then (if slot.start == window then Pos(limit - slot.rank) else 0) else Pos(limit)
    decreases |times|
  {
    if times != [] {
      var s := Count(slot, times[0], w);
      assert forall t :: t in times[1..] ==> t in times;
      forall t | t in times[1..] ensures s.start <= t {
        var i :| 0 <= i < |times| - 1 && times[1..][i] == t;
        assert times[0] <= times[i + 1];
      }
      WindowAdmitsAtMostLimit(s, times[1..], w, limit, window);
      var rest := Passes(s, times[1..], w, limit);
      assert ([Pass(times[0], s.start)] + rest)[1..] == rest && [] + rest == rest;
    }
  }

  /** Successive windows start at least one window length apart. */
  lemma {:induction false} WindowsAreSpaced(slot: Slot, times: seq<int>, w: int)
    requires w > 0
    ensures var starts := Starts(slot, times, w);
            && (slot.In? && slot.rank > 0 && starts != [] ==> starts[0] >= slot.start + w)
            && forall i :: 0 <= i < |starts| - 1 ==> starts[i + 1] >= starts[i] + w
    decreases |times|
  {
    if times != [] {
      WindowsAreSpaced(Count(slot, times[0], w), times[1..], w);
    }
  }

  /** How many more admissions an interval of one window length, starting at x, can still see when the key
      is in `slot` and its last request came at `last`. */
  function Budget(slot: Slot, last: int, x: int, w: int, limit: int): nat {
    if slot.Fresh? || last < x then Pos(2 * limit - 1)
    else if last >= x + w then 0
    else if slot.start < x then Pos(limit - slot.rank) + Pos(limit)
    else Pos(limit - slot.rank)
  }

  lemma {:induction false} IntervalBudget(slot: Slot, last: int, times: seq<int>, x: int, w: int, limit: int)
    requires w > 0 && Sorted(times)
    requires slot.In? ==> slot.start <= last && slot.rank > 0 && forall t :: t in times ==> last <= t
    ensures CountWithin(Times(Passes(slot, times, w, limit)), x, x + w) <= Budget(slot, last, x, w, limit)
    decreases |times|
  {
    if times != [] {
      var s := Count(slot, times[0], w);
      forall t | t in times[1..] ensures times[0] <= t {
        var i :| 0 <= i < |times| - 1 && times[1..][i] == t;
        assert times[0] <= times[i + 1];
      }
      assert times[0] in times;
      IntervalBudget(s, times[0], times[1..], x, w, limit);
      var rest := Passes(s, times[1..], w, limit);
      var one := Pass(times[0], s.start);
      assert ([one] + rest)[1..] == rest && [] + rest == rest;
      assert ([times[0]] + Times(rest))[1..] == Times(rest);
    }
  }

  /** Whatever the other keys do, any interval one window long admits at most 2 * limit - 1 requests of a
      key: one fewer than the two full windows it can touch. */
  lemma IntervalAdmitsLessThanTwoLimits(trace: seq<Request>, key: string, limit: int, windowSeconds: int, x: int)
    requires windowSeconds > 0 && Sorted(Project(trace, key))
    ensures CountWithin(AdmittedTimes(map[], trace, key, limit, windowSeconds), x, x + 1000 * windowSeconds)
         <= Pos(2 * limit - 1)
  {
    StoreImplementsWindows(map[], trace, key, Fresh, limit, windowSeconds);
    IntervalBudget(Fresh, 0, Project(trace, key), x, 1000 * windowSeconds, limit);
  }

  // ----- the bound is met -----

  function Repeat(t: int, n: nat): seq<int> {
    if n == 0 then [] else [t] + Repeat(t, n - 1)
  }

  /** While the window has room, equal-time requests are all admitted. */
  lemma {:induction false} RoomAdmitsAll(slot: Slot, t: int, n: nat, after: seq<int>, w: int, limit: int)
    requires slot.In? && t < slot.start + w && slot.rank + n <= limit
    ensures Times(Passes(slot, Repeat(t, n) + after, w, limit))
         == Repeat(t, n) + Times(Passes(In(slot.start, slot.rank + n), after, w, limit))
    decreases n
  {
    if n == 0 {
      assert Repeat(t, 0) + after == after;
    } else {
      var s := Count(slot, t, w);
      var times := Repeat(t, n) + after;
      assert times[0] == t && times[1..] == Repeat(t, n - 1) + after;
      RoomAdmitsAll(s, t, n - 1, after, w, limit);
      assert Passes(slot, times, w, limit) == [Pass(t, s.start)] + Passes(s, times[1..], w, limit);
      PrependPass(Pass(t, s.start), Passes(s, times[1..], w, limit));
      hide Passes;
    }
  }

  lemma {:induction false} CountRepeat(t: int, n: nat, after: seq<int>, lo: int, hi: int)
    requires lo <= t < hi
    ensures CountWithin(Repeat(t, n) + after, lo, hi) == n + CountWithin(after, lo, hi)
  {
    if n == 0 {
      assert Repeat(t, 0) + after == after;
    } else {
      assert (Repeat(t, n) + after)[1..] == Repeat(t, n - 1) + after;
      CountRepeat(t, n - 1, after, lo, hi);
    }
  }

  /** One request, then the rest of its window's limit just before the window ends, then a full limit as
      it ends. */
  function Burst(limit: nat, w: int): seq<int>
    requires limit >= 1
  {
    [0] + (Repeat(w - 1, limit - 1) + ([w] + Repeat(w, limit - 1)))
  }

  /** For every positive limit and window the burst fits 2 * limit - 1 admissions into one window length. */
  lemma BurstMeetsTheBound(limit: nat, w: int)
    requires limit >= 1 && w > 1
    ensures CountWithin(Times(Passes(Fresh, Burst(limit, w), w, limit)), w - 1, w - 1 + w) == 2 * limit - 1
  {
    var tail := [w] + Repeat(w, limit - 1);
    var middle := Repeat(w - 1, limit - 1) + tail;
    assert Burst(limit, w)[1..] == middle;
    RoomAdmitsAll(In(0, 1), w - 1, limit - 1, tail, w, limit);
    assert tail[1..] == Repeat(w, limit - 1) + [];
    RoomAdmitsAll(In(w, 1), w, limit - 1, [], w, limit);
    PrependPass(Pass(w, w), Passes(In(w, 1), tail[1..], w, limit));
    PrependPass(Pass(0, 0), Passes(In(0, 1), middle, w, limit));
    var last := [w] + (Repeat(w, limit - 1) + []);
    assert Times(Passes(In(0, limit), tail, w, limit)) == last;
    var counted := Repeat(w - 1, limit - 1) + last;
    assert Times(Passes(Fresh, Burst(limit, w), w, limit)) == [0] + counted;
    assert ([0] + counted)[1..] == counted && last[1..] == Repeat(w, limit - 1) + [];
    CountRepeat(w - 1, limit - 1, last, w - 1, w - 1 + w);
    CountRepeat(w, limit - 1, [], w - 1, w - 1 + w);
  }

  lemma PrependPass(p: Pass, rest: seq<Pass>)
    ensures Times([p] + rest) == [p.at] + Times(rest)
  {
    assert ([p] + rest)[1..] == rest;
  }

  /** A window that is not positive limits nothing: every request is the first of its own. */
  lemma {:induction false} NoWindowNoLimit(store: Store, trace: seq<Request>, key: string, limit: int,
                                           windowSeconds: int)
    requires windowSeconds <= 0 && limit >= 1 && key !in store
    ensures AdmittedTimes(store, trace, key, limit, windowSeconds) == Project(trace, key)
    decreases |trace|
  {
    if trace != [] {
      NoWindowNoLimit(Increment(store, trace[0].key, windowSeconds, trace[0].at).0, trace[1..], key, limit,
          windowSeconds);
    }
  }
}
