/**
  The request limiter: one counter per user and time window, kept in Redis under a key that expires.

  Times are in nanoseconds on one clock, shared by the service and Redis; a request's window, its
  increment and its EXPIRE happen at one instant. (The code calls this a token bucket; it is a
  counter over fixed windows.)
*/
module RateLimit {
  import opened Wrappers

  type User = string
  const SECOND := 1_000_000_000

  /** What Redis does with the two commands: INCR may fail, and then nothing is counted; EXPIRE may fail. */
  datatype Incoming = Incoming(user: User, now: nat, incrFails: bool, expireFails: bool)

  datatype Key = Key(user: User, window: nat)

  datatype Counter = Counter(count: nat, expiresAt: Option<nat>)

  /** The window a request falls into, for windows of the given number of seconds. */
  function WindowOf(now: nat, seconds: nat): nat
    requires seconds > 0
  {
    now / SECOND / seconds
  }

  /** The length of a window. */
  function Span(seconds: nat): (span: nat)
    requires seconds > 0
    ensures span > 0
  {
    seconds * SECOND
  }

  lemma WindowSpan(now: nat, seconds: nat)
    requires seconds > 0
    ensures var w := WindowOf(now, seconds); w * Span(seconds) <= now < w * Span(seconds) + Span(seconds)
  {
    var secs := now / SECOND;
    var w := secs / seconds;
    assert w * seconds <= secs <= w * seconds + seconds - 1;
    assert w * (seconds * SECOND) == (w * seconds) * SECOND;
  }

  lemma Scaled(a: nat, b: nat, span: nat)
    requires a >= b
    ensures a * span >= b * span
  {
    assert a * span == b * span + (a - b) * span;
  }

  lemma Distributes(a: nat, b: nat, span: nat)
    ensures (a + b) * span == a * span + b * span
  {
  }

  // ----- What a history of requests says -----

  ghost predicate Ordered(h: seq<Incoming>) {
    forall i, j :: 0 <= i <= j < |h| ==> h[i].now <= h[j].now
  }

  /** The request was counted against this window. */
  predicate Hits(r: Incoming, k: Key, seconds: nat)
    requires seconds > 0
  {
    !r.incrFails && r.user == k.user && WindowOf(r.now, seconds) == k.window
  }

  /** The requests counted against a window so far. */
  function HitCount(h: seq<Incoming>, k: Key, seconds: nat): nat
    requires seconds > 0
  {
    if h == [] then 0
    else HitCount(h[..|h| - 1], k, seconds) + if Hits(h[|h| - 1], k, seconds) then 1 else 0
  }

  /** Whether the last request of a history is let through: on a Redis error, or while the window has room. */
  predicate Admits(h: seq<Incoming>, limit: int, seconds: nat)
    requires seconds > 0 && h != []
  {
    var r := h[|h| - 1];
    r.incrFails || HitCount(h, Key(r.user, WindowOf(r.now, seconds)), seconds) <= limit
  }

  /** How many of the counted requests of a window have been admitted. */
  function AdmittedIn(h: seq<Incoming>, k: Key, limit: int, seconds: nat): nat
    requires seconds > 0
  {
    if h == [] then 0
    else
      AdmittedIn(h[..|h| - 1], k, limit, seconds)
      + if Hits(h[|h| - 1], k, seconds) && Admits(h, limit, seconds) then 1 else 0
  }

  /** Each window admits exactly the first `limit` of its requests. */
  lemma {:induction false} WindowAdmitsUpToLimit(h: seq<Incoming>, k: Key, limit: int, seconds: nat)
    requires seconds > 0
    ensures var n := HitCount(h, k, seconds);
      AdmittedIn(h, k, limit, seconds) == if limit < 0 then 0 else if n < limit then n else limit
  {
    if h != [] {
      WindowAdmitsUpToLimit(h[..|h| - 1], k, limit, seconds);
    }
  }

  // ----- Any stretch of time -----

  /** How many counted requests of a user, made at a time in [from, until), have been admitted. */
  function AdmittedBetween(h: seq<Incoming>, user: User, from: nat, until: nat, limit: int, seconds: nat): nat
    requires seconds > 0
  {
    if h == [] then 0
    else
      var r := h[|h| - 1];
      AdmittedBetween(h[..|h| - 1], user, from, until, limit, seconds)
      + if !r.incrFails && r.user == user && from <= r.now < until && Admits(h, limit, seconds) then 1 else 0
  }

  /** Those admitted in the windows lo .. hi - 1. */
  function AdmittedOver(h: seq<Incoming>, user: User, lo: nat, hi: nat, limit: int, seconds: nat): nat
    requires seconds > 0
  {
    if hi <= lo then 0
    else AdmittedOver(h, user, lo, hi - 1, limit, seconds) + AdmittedIn(h, Key(user, hi - 1), limit, seconds)
  }

  lemma {:induction false} AdmittedOverStep(h: seq<Incoming>, user: User, lo: nat, hi: nat, limit: int, seconds: nat)
    requires seconds > 0 && h != []
    ensures var r := h[|h| - 1];
      AdmittedOver(h, user, lo, hi, limit, seconds) == AdmittedOver(h[..|h| - 1], user, lo, hi, limit, seconds)
        + if !r.incrFails && r.user == user && lo <= WindowOf(r.now, seconds) < hi && Admits(h, limit, seconds)
          then 1 else 0
  {
    if lo < hi {
      AdmittedOverStep(h, user, lo, hi - 1, limit, seconds);
    }
  }

  lemma {:induction false} AdmittedOverBound(h: seq<Incoming>, user: User, lo: nat, hi: nat, limit: int, seconds: nat)
    requires seconds > 0 && lo <= hi
    ensures AdmittedOver(h, user, lo, hi, limit, seconds) <= (hi - lo) * if limit < 0 then 0 else limit
  {
    if lo < hi {
      AdmittedOverBound(h, user, lo, hi - 1, limit, seconds);
      WindowAdmitsUpToLimit(h, Key(user, hi - 1), limit, seconds);
      var m := if limit < 0 then 0 else limit;
      assert (hi - lo) * m == (hi - 1 - lo) * m + m;
    }
  }

  lemma WindowMonotone(a: nat, b: nat, seconds: nat)
    requires seconds > 0 && a <= b
    ensures WindowOf(a, seconds) <= WindowOf(b, seconds)
  {
    hide WindowOf, Span;
    var va, vb := WindowOf(a, seconds), WindowOf(b, seconds);
    WindowSpan(a, seconds);
    WindowSpan(b, seconds);
    if vb < va {
      Scaled(va, vb + 1, Span(seconds));
      Distributes(vb, 1, Span(seconds));
    }
  }

  lemma {:induction false} BetweenWithinOver(h: seq<Incoming>, user: User, from: nat, until: nat,
                                             limit: int, seconds: nat)
    requires seconds > 0 && from < until
    ensures AdmittedBetween(h, user, from, until, limit, seconds)
         <= AdmittedOver(h, user, WindowOf(from, seconds), WindowOf(until - 1, seconds) + 1, limit, seconds)
  {
    var lo, hi := WindowOf(from, seconds), WindowOf(until - 1, seconds) + 1;
    if h == [] {
      WindowMonotone(from, until - 1, seconds);
    } else {
      var r := h[|h| - 1];
      BetweenWithinOver(h[..|h| - 1], user, from, until, limit, seconds);
      AdmittedOverStep(h, user, lo, hi, limit, seconds);
      if from <= r.now < until {
        WindowMonotone(from, r.now, seconds);
        WindowMonotone(r.now, until - 1, seconds);
      }
    }
  }

  function CeilDiv(a: nat, b: nat): nat
    requires b > 0
  {
    (a + b - 1) / b
  }

  lemma CeilDivCovers(a: nat, b: nat)
    requires b > 0
    ensures CeilDiv(a, b) * b >= a
  {
    var n := a + b - 1;
    assert n == (n / b) * b + n % b;
  }

  /** The number of windows an interval can touch. */
  lemma WindowsTouched(from: nat, length: nat, seconds: nat)
    requires seconds > 0 && length > 0
    ensures WindowOf(from + length - 1, seconds) + 1 - WindowOf(from, seconds) <= CeilDiv(length, Span(seconds)) + 1
  {
    hide WindowOf, Span, CeilDiv;
    var lo, hi, q := WindowOf(from, seconds), WindowOf(from + length - 1, seconds), CeilDiv(length, Span(seconds));
    WindowSpan(from, seconds);
    WindowSpan(from + length - 1, seconds);
    CeilDivCovers(length, Span(seconds));
    if hi > lo + q {
      Scaled(hi, lo + q + 1, Span(seconds));
      Distributes(lo + q, 1, Span(seconds));
      Distributes(lo, q, Span(seconds));
    }
  }

  /**
    In any interval of the given length a user gets at most (ceil(length / window) + 1) * limit counted
    requests through, wherever the interval starts.
  */
  lemma IntervalBound(h: seq<Incoming>, user: User, from: nat, length: nat, limit: nat, seconds: nat)
    requires seconds > 0 && length > 0
    ensures AdmittedBetween(h, user, from, from + length, limit, seconds)
         <= (CeilDiv(length, Span(seconds)) + 1) * limit
  {
    hide WindowOf, Span, CeilDiv, AdmittedBetween, AdmittedOver;
    var lo, hi := WindowOf(from, seconds), WindowOf(from + length - 1, seconds) + 1;
    WindowMonotone(from, from + length - 1, seconds);
    BetweenWithinOver(h, user, from, from + length, limit, seconds);
    AdmittedOverBound(h, user, lo, hi, limit, seconds);
    WindowsTouched(from, length, seconds);
    Scaled(CeilDiv(length, Span(seconds)) + 1, hi - lo, limit);
  }

  // ----- The exact number in any stretch of time -----

  /** The requests counted against a window at times before t. */
  function HitsBefore(h: seq<Incoming>, k: Key, t: nat, seconds: nat): nat
    requires seconds > 0
  {
    if h == [] then 0
    else
      var r := h[|h| - 1];
      HitsBefore(h[..|h| - 1], k, t, seconds) + if Hits(r, k, seconds) && r.now < t then 1 else 0
  }

  function AtMost(limit: int, n: nat): nat {
    if limit < 0 then 0 else if n < limit then n else limit
  }

  /** What a window contributes to [from, until): its first `limit` requests, less those before the interval. */
  function Share(h: seq<Incoming>, k: Key, from: nat, until: nat, limit: int, seconds: nat): int
    requires seconds > 0
  {
    AtMost(limit, HitsBefore(h, k, until, seconds)) - AtMost(limit, HitsBefore(h, k, from, seconds))
  }

  /** The shares of the windows lo .. hi - 1. */
  function Shares(h: seq<Incoming>, user: User, lo: nat, hi: nat, from: nat, until: nat, limit: int, seconds: nat): int
    requires seconds > 0
  {
    if hi <= lo then 0
    else
      Shares(h, user, lo, hi - 1, from, until, limit, seconds)
      + Share(h, Key(user, hi - 1), from, until, limit, seconds)
  }

  lemma {:induction false} AllBefore(h: seq<Incoming>, k: Key, t: nat, seconds: nat)
    requires seconds > 0 && forall i :: 0 <= i < |h| ==> h[i].now < t
    ensures HitsBefore(h, k, t, seconds) == HitCount(h, k, seconds)
  {
    if h != [] {
      AllBefore(h[..|h| - 1], k, t, seconds);
    }
  }

  /** The last request adds to the share of its window exactly when it is in the interval and admitted. */
  lemma ShareStep(h: seq<Incoming>, k: Key, from: nat, until: nat, limit: int, seconds: nat)
    requires seconds > 0 && h != [] && Ordered(h) && from <= until
    ensures var r := h[|h| - 1];
      Share(h, k, from, until, limit, seconds) == Share(h[..|h| - 1], k, from, until, limit, seconds)
        + if Hits(r, k, seconds) && from <= r.now < until && Admits(h, limit, seconds) then 1 else 0
  {
    var r := h[|h| - 1];
    if r.now < until {
      AllBefore(h, k, until, seconds);
    }
    if r.now < from {
      AllBefore(h, k, from, seconds);
    }
  }

  lemma {:induction false} SharesStep(h: seq<Incoming>, user: User, lo: nat, hi: nat, from: nat, until: nat,
                                      limit: int, seconds: nat)
    requires seconds > 0 && h != [] && Ordered(h) && from <= until
    ensures var r := h[|h| - 1];
      Shares(h, user, lo, hi, from, until, limit, seconds)
        == Shares(h[..|h| - 1], user, lo, hi, from, until, limit, seconds)
        + if !r.incrFails && r.user == user && lo <= WindowOf(r.now, seconds) < hi
             && from <= r.now < until && Admits(h, limit, seconds) then 1 else 0
  {
    hide Share, WindowOf, Admits;
    if lo < hi {
      SharesStep(h, user, lo, hi - 1, from, until, limit, seconds);
      ShareStep(h, Key(user, hi - 1), from, until, limit, seconds);
    }
  }

  lemma {:induction false} NoShares(user: User, lo: nat, hi: nat, from: nat, until: nat, limit: int, seconds: nat)
    requires seconds > 0
    ensures Shares([], user, lo, hi, from, until, limit, seconds) == 0
  {
    if lo < hi {
      NoShares(user, lo, hi - 1, from, until, limit, seconds);
    }
  }

  /**
    The exact law: for requests in time order, the counted requests admitted in an interval are the
    sum, over windows lo .. hi - 1 that cover it, of the windows' shares.
  */
  lemma {:induction false} AdmittedExactly(h: seq<Incoming>, user: User, lo: nat, hi: nat, from: nat, until: nat,
                                           limit: int, seconds: nat)
    requires seconds > 0 && Ordered(h) && from < until
    requires lo <= WindowOf(from, seconds) && WindowOf(until - 1, seconds) < hi
    ensures AdmittedBetween(h, user, from, until, limit, seconds)
         == Shares(h, user, lo, hi, from, until, limit, seconds)
  {
    hide Shares, WindowOf, Admits;
    if h == [] {
      NoShares(user, lo, hi, from, until, limit, seconds);
    } else {
      var r := h[|h| - 1];
      AdmittedExactly(h[..|h| - 1], user, lo, hi, from, until, limit, seconds);
      SharesStep(h, user, lo, hi, from, until, limit, seconds);
      if from <= r.now < until {
        WindowMonotone(from, r.now, seconds);
        WindowMonotone(r.now, until - 1, seconds);
      }
    }
  }

  lemma WindowIs(now: nat, w: nat, seconds: nat)
    requires seconds > 0 && w * Span(seconds) <= now < w * Span(seconds) + Span(seconds)
    ensures WindowOf(now, seconds) == w
  {
    hide WindowOf, Span;
    var v := WindowOf(now, seconds);
    WindowSpan(now, seconds);
    if v < w {
      Scaled(w, v + 1, Span(seconds));
      Distributes(v, 1, Span(seconds));
    } else if w < v {
      Scaled(v, w + 1, Span(seconds));
      Distributes(w, 1, Span(seconds));
    }
  }

  lemma TwoShares(h: seq<Incoming>, user: User, w: nat, from: nat, until: nat, limit: int, seconds: nat)
    requires seconds > 0
    ensures Shares(h, user, w, w + 2, from, until, limit, seconds)
         == Share(h, Key(user, w), from, until, limit, seconds)
          + Share(h, Key(user, w + 1), from, until, limit, seconds)
  {
    hide Share;
    assert Shares(h, user, w, w, from, until, limit, seconds) == 0;
    assert Shares(h, user, w, w + 1, from, until, limit, seconds)
        == Share(h, Key(user, w), from, until, limit, seconds);
  }

  lemma LastWindow(from: nat, seconds: nat)
    requires seconds > 0
    ensures WindowOf(from + Span(seconds) - 1, seconds) < WindowOf(from, seconds) + 2
  {
    hide WindowOf, Span;
    var lo, hi := WindowOf(from, seconds), WindowOf(from + Span(seconds) - 1, seconds);
    WindowSpan(from, seconds);
    WindowSpan(from + Span(seconds) - 1, seconds);
    if hi >= lo + 2 {
      Scaled(hi, lo + 2, Span(seconds));
      Distributes(lo, 2, Span(seconds));
    }
  }

  /**
    When one window's length stays within the limit, exactly: it touches two windows, and admits what
    they contribute; so more than `limit` get through if and only if the two shares exceed it together.
  */
  lemma OneSpan(h: seq<Incoming>, user: User, from: nat, limit: int, seconds: nat)
    requires seconds > 0 && Ordered(h)
    ensures var until, w := from + Span(seconds), WindowOf(from, seconds);
      var first := Share(h, Key(user, w), from, until, limit, seconds);
      var second := Share(h, Key(user, w + 1), from, until, limit, seconds);
      && AdmittedBetween(h, user, from, until, limit, seconds) == first + second
      && (AdmittedBetween(h, user, from, until, limit, seconds) <= limit <==> first + second <= limit)
  {
    var until, w := from + Span(seconds), WindowOf(from, seconds);
    LastWindow(from, seconds);
    AdmittedExactly(h, user, w, w + 2, from, until, limit, seconds);
    TwoShares(h, user, w, from, until, limit, seconds);
  }

  // ----- The bound of twice the limit is reached -----

  /** n requests of a user at one instant, with Redis answering. */
  function Burst(user: User, now: nat, n: nat): (h: seq<Incoming>)
    ensures |h| == n && forall i :: 0 <= i < n ==> h[i] == Incoming(user, now, false, false)
  {
    seq(n, _ => Incoming(user, now, false, false))
  }

  lemma {:induction false} BurstHits(user: User, now: nat, n: nat, k: Key, t: nat, seconds: nat)
    requires seconds > 0
    ensures HitsBefore(Burst(user, now, n), k, t, seconds)
         == if user == k.user && WindowOf(now, seconds) == k.window && now < t then n else 0
  {
    if n > 0 {
      assert Burst(user, now, n)[..n - 1] == Burst(user, now, n - 1);
      BurstHits(user, now, n - 1, k, t, seconds);
    }
  }

  lemma {:induction false} HitsConcat(a: seq<Incoming>, b: seq<Incoming>, k: Key, t: nat, seconds: nat)
    requires seconds > 0
    ensures HitsBefore(a + b, k, t, seconds) == HitsBefore(a, k, t, seconds) + HitsBefore(b, k, t, seconds)
    decreases |b|
  {
    if b == [] {
      assert a + b == a;
    } else {
      assert (a + b)[..|a + b| - 1] == a + b[..|b| - 1];
      HitsConcat(a, b[..|b| - 1], k, t, seconds);
    }
  }

  /** `limit` requests in the last nanosecond of the first window, and `limit` in the first of the second. */
  function TwoBursts(user: User, limit: nat, seconds: nat): seq<Incoming>
    requires seconds > 0
  {
    Burst(user, Span(seconds) - 1, limit) + Burst(user, Span(seconds), limit)
  }

  lemma TwoBurstsHits(user: User, limit: nat, w: nat, t: nat, seconds: nat)
    requires seconds > 0
    ensures HitsBefore(TwoBursts(user, limit, seconds), Key(user, w), t, seconds)
         == (if w == 0 && Span(seconds) - 1 < t then limit else 0) + if w == 1 && Span(seconds) < t then limit else 0
  {
    hide WindowOf, Span, HitsBefore;
    var span := Span(seconds);
    WindowIs(span - 1, 0, seconds);
    WindowIs(span, 1, seconds);
    HitsConcat(Burst(user, span - 1, limit), Burst(user, span, limit), Key(user, w), t, seconds);
    BurstHits(user, span - 1, limit, Key(user, w), t, seconds);
    BurstHits(user, span, limit, Key(user, w), t, seconds);
  }

  lemma TwoBurstsOrdered(user: User, limit: nat, seconds: nat)
    requires seconds > 0
    ensures Ordered(TwoBursts(user, limit, seconds))
  {
    hide Span;
  }

  /**
    For every limit and window, these requests are all admitted: twice the limit within one window's
    length (and in fact within two nanoseconds).
  */
  lemma TwiceTheLimit(user: User, limit: nat, seconds: nat)
    requires seconds > 0
    ensures var h, from := TwoBursts(user, limit, seconds), Span(seconds) - 1;
      Ordered(h) && AdmittedBetween(h, user, from, from + Span(seconds), limit, seconds) == 2 * limit
  {
    assert Span(seconds) >= 2;
    hide WindowOf, Span, AdmittedBetween, HitsBefore, TwoBursts, Ordered;
    var from, until := Span(seconds) - 1, Span(seconds) - 1 + Span(seconds);
    TwoBurstsOrdered(user, limit, seconds);
    WindowIs(from, 0, seconds);
    OneSpan(TwoBursts(user, limit, seconds), user, from, limit, seconds);
    TwoBurstsHits(user, limit, 0, from, seconds);
    TwoBurstsHits(user, limit, 0, until, seconds);
    TwoBurstsHits(user, limit, 1, from, seconds);
    TwoBurstsHits(user, limit, 1, until, seconds);
  }

  // ----- The keys in Redis -----

  predicate Live(c: Counter, now: nat) {
    c.expiresAt.Some? ==> now < c.expiresAt.value
  }

  ghost predicate ExpiresSucceed(h: seq<Incoming>) {
    forall i :: 0 <= i < |h| ==> !h[i].expireFails
  }

  lemma ExpiresSucceedEarlier(h: seq<Incoming>, r: Incoming)
    ensures ExpiresSucceed(h + [r]) ==> ExpiresSucceed(h) && !r.expireFails
  {
    assert (h + [r])[|h|] == r;
    assert forall i :: 0 <= i < |h| ==> h[i] == (h + [r])[i];
  }

  /** The counter of a window, as the store should have it. */
  ghost predicate KeySound(store: map<Key, Counter>, h: seq<Incoming>, k: Key, seconds: nat)
    requires seconds > 0
  {
    var n, start := HitCount(h, k, seconds), k.window * Span(seconds);
    if n == 0 then k !in store
    else
      && k in store
      && store[k].count == n
      && start <= h[|h| - 1].now
      && (store[k].expiresAt.Some? ==> start + Span(seconds) <= store[k].expiresAt.value < start + 2 * Span(seconds))
      && (ExpiresSucceed(h) ==> store[k].expiresAt.Some?)
  }

  ghost predicate StoreSound(store: map<Key, Counter>, h: seq<Incoming>, seconds: nat)
    requires seconds > 0
  {
    forall k :: KeySound(store, h, k, seconds)
  }

  /** INCR at the given time: an expired key counts from nothing. */
  function Increment(store: map<Key, Counter>, k: Key, now: nat): Counter {
    if k in store && Live(store[k], now) then store[k].(count := store[k].count + 1) else Counter(1, None)
  }

  /** A window's counter does not expire while the window lasts. */
  lemma NoExpiryInsideWindow(store: map<Key, Counter>, h: seq<Incoming>, k: Key, now: nat, seconds: nat)
    requires seconds > 0 && StoreSound(store, h, seconds) && k in store && WindowOf(now, seconds) == k.window
    ensures Live(store[k], now)
  {
    assert KeySound(store, h, k, seconds);
    WindowSpan(now, seconds);
  }

  function LiveKeys(store: map<Key, Counter>, user: User, now: nat): set<Key> {
    set k | k in store && k.user == user && Live(store[k], now)
  }

  lemma SubsetSize(a: set<Key>, b: set<Key>)
    requires a <= b
    ensures |a| <= |b|
  {
    assert b == a + (b - a);
  }

  /** If every EXPIRE has succeeded, a user has at most two live keys, at any later moment. */
  lemma AtMostTwoLiveKeys(store: map<Key, Counter>, h: seq<Incoming>, user: User, now: nat, seconds: nat)
    requires seconds > 0 && StoreSound(store, h, seconds)
    requires h != [] ==> h[|h| - 1].now <= now
    requires ExpiresSucceed(h)
    ensures |LiveKeys(store, user, now)| <= 2
  {
    hide WindowOf, Span;
    var w := WindowOf(now, seconds);
    var keys := {Key(user, w)} + if w > 0 then {Key(user, w - 1)} else {};
    WindowSpan(now, seconds);
    forall k | k in LiveKeys(store, user, now)
      ensures k in keys
    {
      assert KeySound(store, h, k, seconds) && k == Key(user, k.window);
      if k.window > w {
        Scaled(k.window, w + 1, Span(seconds));
        Distributes(w, 1, Span(seconds));
      } else if k.window + 1 < w {
        Scaled(w, k.window + 2, Span(seconds));
        Distributes(k.window, 2, Span(seconds));
      }
    }
    SubsetSize(LiveKeys(store, user, now), keys);
  }

  // ----- The middleware -----

  lemma OtherKey(store: map<Key, Counter>, h: seq<Incoming>, r: Incoming, k: Key, seconds: nat)
    requires seconds > 0 && KeySound(store, h, k, seconds) && (h != [] ==> h[|h| - 1].now <= r.now)
    requires !Hits(r, k, seconds)
    ensures KeySound(store, h + [r], k, seconds)
  {
    var h' := h + [r];
    assert h'[..|h|] == h;
    ExpiresSucceedEarlier(h, r);
  }

  lemma StoreKept(store: map<Key, Counter>, h: seq<Incoming>, r: Incoming, seconds: nat)
    requires seconds > 0 && StoreSound(store, h, seconds) && (h != [] ==> h[|h| - 1].now <= r.now) && r.incrFails
    ensures StoreSound(store, h + [r], seconds)
  {
    forall k
      ensures KeySound(store, h + [r], k, seconds)
    {
      OtherKey(store, h, r, k, seconds);
    }
  }

  /** The store after a counted request. */
  function StoreAfter(store: map<Key, Counter>, r: Incoming, seconds: nat): map<Key, Counter>
    requires seconds > 0
  {
    var key := Key(r.user, WindowOf(r.now, seconds));
    var counter := Increment(store, key, r.now);
    var expires := counter.count == 1 && !r.expireFails;
    store[key := if expires then counter.(expiresAt := Some(r.now + Span(seconds))) else counter]
  }

  lemma StoreUpdated(store: map<Key, Counter>, h: seq<Incoming>, r: Incoming, seconds: nat)
    requires seconds > 0 && StoreSound(store, h, seconds) && (h != [] ==> h[|h| - 1].now <= r.now) && !r.incrFails
    ensures StoreSound(StoreAfter(store, r, seconds), h + [r], seconds)
    ensures var key := Key(r.user, WindowOf(r.now, seconds));
      StoreAfter(store, r, seconds)[key].count == HitCount(h + [r], key, seconds)
  {
    var h', key, after := h + [r], Key(r.user, WindowOf(r.now, seconds)), StoreAfter(store, r, seconds);
    assert h'[..|h|] == h;
    assert KeySound(store, h, key, seconds);
    WindowSpan(r.now, seconds);
    if key in store {
      NoExpiryInsideWindow(store, h, key, r.now, seconds);
    }
    forall k
      ensures KeySound(after, h', k, seconds)
    {
      if k != key {
        assert KeySound(store, h, k, seconds);
        OtherKey(store, h, r, k, seconds);
      } else {
        ExpiresSucceedEarlier(h, r);
      }
    }
  }

  /** The counted requests of the last request's window, without windows: same user, same quotient of the clock. */
  function SameWindow(h: seq<Incoming>, user: User, now: nat, seconds: nat): set<nat>
    requires seconds > 0
  {
    set i | 0 <= i < |h| && !h[i].incrFails && h[i].user == user
         && h[i].now / (seconds * 1_000_000_000) == now / (seconds * 1_000_000_000)
  }

  lemma WindowIsQuotient(now: nat, seconds: nat)
    requires seconds > 0
    ensures WindowOf(now, seconds) == now / (seconds * 1_000_000_000)
  {
    var span := seconds * 1_000_000_000;
    var w := now / span;
    assert now == span * w + now % span;
    assert Span(seconds) == span && w * span == span * w;
    hide WindowOf, Span;
    WindowIs(now, w, seconds);
  }

  lemma {:induction false} HitsAreCounted(h: seq<Incoming>, user: User, now: nat, seconds: nat)
    requires seconds > 0
    ensures HitCount(h, Key(user, WindowOf(now, seconds)), seconds) == |SameWindow(h, user, now, seconds)|
  {
    hide WindowOf;
    WindowIsQuotient(now, seconds);
    if h == [] {
      assert SameWindow(h, user, now, seconds) == {};
    } else {
      var init, last := h[..|h| - 1], h[|h| - 1];
      HitsAreCounted(init, user, now, seconds);
      WindowIsQuotient(last.now, seconds);
      var before := SameWindow(init, user, now, seconds);
      assert SameWindow(h, user, now, seconds)
          == before + if Hits(last, Key(user, WindowOf(now, seconds)), seconds) then {|h| - 1} else {};
      assert |h| - 1 !in before;
    }
  }

  class Limiter {
    const limit: int
    const seconds: nat
    var store: map<Key, Counter>
    ghost var history: seq<Incoming>

    ghost predicate Valid()
      reads this
    {
      seconds > 0 && Ordered(history) && StoreSound(store, history, seconds)
    }

    constructor (limit: int, seconds: nat)
      requires seconds > 0
      ensures Valid() && this.limit == limit && this.seconds == seconds && history == []
    {
      this.limit, this.seconds := limit, seconds;
      store, history := map[], [];
    }

    /** One request. The window key is computed, incremented and, if new, given its expiry. */
    method Handle(r: Incoming) returns (admitted: bool)
      requires Valid() && (history != [] ==> history[|history| - 1].now <= r.now)
      modifies this
      ensures Valid() && history == old(history) + [r]
      ensures admitted == Admits(history, limit, seconds)
      ensures r.incrFails ==> admitted && store == old(store)
      ensures !r.incrFails ==> (admitted <==>
        |set i | 0 <= i < |history| && !history[i].incrFails && history[i].user == r.user
              && history[i].now / (seconds * 1_000_000_000) == r.now / (seconds * 1_000_000_000)| <= limit)
    {
      HitsAreCounted(history + [r], r.user, r.now, seconds);
      ghost var before, h := store, history;
      history := history + [r];
      assert history[..|h|] == h;
      var key := Key(r.user, r.now / SECOND / seconds);
      if r.incrFails {
        StoreKept(before, h, r, seconds);
        return true;
      }
      var counter := Increment(store, key, r.now);
      if counter.count == 1 && !r.expireFails {
        counter := counter.(expiresAt := Some(r.now + Span(seconds)));
      }
      store := store[key := counter];
      StoreUpdated(before, h, r, seconds);
      return counter.count <= limit;
    }
  }
}
