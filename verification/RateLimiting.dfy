/** The fixed-window rate limiter of one client, over whole runs of messages. */
module RateLimiting {
  import opened Options

  datatype RateLimit = RateLimit(requests: int, windowSize: int, lastReset: int, currentUsed: int)

  /** A message's two readings of the clock: one if a limiter has to be created, then one to check it. */
  datatype Arrival = Arrival(created: int, now: int)

  /** The limiter after a check, and whether the message is let through. */
  function Check(limiter: Option<RateLimit>, requests: int, window: int, at: Arrival): (RateLimit, bool) {
    var l := if limiter.Some? then limiter.value else RateLimit(requests, window, at.created, 0);
    var l' := if at.now - l.lastReset >= l.windowSize then l.(lastReset := at.now, currentUsed := 0) else l;
    if l'.currentUsed >= l'.requests then (l', false) else (l'.(currentUsed := l'.currentUsed + 1), true)
  }

  /** Never below nothing, never above the quota. */
  predicate WithinQuota(limiter: Option<RateLimit>) {
    limiter.Some? ==> 0 <= limiter.value.currentUsed
                      && (limiter.value.currentUsed <= limiter.value.requests || limiter.value.currentUsed == 0)
  }

  /** A check keeps the quota, and a refusal uses up nothing: it leaves the limiter as it was. */
  lemma CheckKeepsQuota(limiter: Option<RateLimit>, requests: int, window: int, at: Arrival)
    requires WithinQuota(limiter)
    ensures var (l, ok) := Check(limiter, requests, window, at);
            && WithinQuota(Some(l))
            && (ok ==> 1 <= l.currentUsed <= l.requests)
            && (!ok && limiter.Some? && limiter.value.requests > 0 ==> l == limiter.value)
  {}

  /** The clock never runs backwards, within a message or from one to the next. */
  predicate Monotone(arrivals: seq<Arrival>) {
    && (forall i :: 0 <= i < |arrivals| ==> arrivals[i].created <= arrivals[i].now)
    && (forall i, j :: 0 <= i < j < |arrivals| ==> arrivals[i].now <= arrivals[j].created)
  }

  /** How many messages are let through at times from `a` up to but not including `b`. */
  function AcceptedIn(limiter: Option<RateLimit>, requests: int, window: int, arrivals: seq<Arrival>,
                      a: int, b: int): nat
    decreases arrivals
  {
    if arrivals == [] then 0
    else
      var (l, ok) := Check(limiter, requests, window, arrivals[0]);
      (if ok && a <= arrivals[0].now < b then 1 else 0)
      + AcceptedIn(Some(l), requests, window, arrivals[1..], a, b)
  }

  function Ceil(n: int, w: int): nat
    requires w > 0
  {
    if n <= 0 then 0 else (n + w - 1) / w
  }

  lemma CeilStep(n: int, w: int)
    requires n > 0 && w > 0
    ensures Ceil(n, w) == 1 + Ceil(n - w, w)
  {
    if n > w {
      QuotientStep(n - 1, w);
    } else {
      Quotient1(n + w - 1, w);
    }
  }

  lemma CeilOfNothing(w: int)
    requires w > 0
    ensures Ceil(0, w) == 0
  {}

  lemma QuotientStep(x: int, w: int)
    requires w > 0
    ensures (x + w) / w == x / w + 1
  {
    var q, r := x / w, x % w;
    assert x + w == (q + 1) * w + r;
    QuotientUnique(x + w, w, q + 1, r);
  }

  lemma Quotient1(x: int, w: int)
    requires 0 < w <= x < 2 * w
    ensures x / w == 1
  {
    QuotientUnique(x, w, 1, x - w);
  }

  lemma QuotientUnique(x: int, w: int, q: int, r: int)
    requires w > 0 && x == q * w + r && 0 <= r < w
    ensures x / w == q
  {
    var p := x / w;
    LessByProduct(p, q, w);
    LessByProduct(q, p, w);
  }

  lemma LessByProduct(p: int, q: int, w: int)
    requires w > 0
    ensures p * w < q * w + w ==> p <= q
  {
    if p > q {
      assert p * w >= (q + 1) * w;
    }
  }

  lemma CeilMonotone(m: int, n: int, w: int)
    requires m <= n && w > 0
    ensures Ceil(m, w) <= Ceil(n, w)
  {
    if m > 0 {
      LessByProduct((m + w - 1) / w, (n + w - 1) / w, w);
    }
  }

  lemma Scale(r: nat, m: nat, n: nat)
    requires m <= n
    ensures r * m <= r * n
  {}

  lemma OneMore(r: nat, n: nat)
    ensures r * (1 + n) == r + r * n
  {}

  lemma MonotoneTail(arrivals: seq<Arrival>)
    requires Monotone(arrivals) && arrivals != []
    ensures Monotone(arrivals[1..])
    ensures forall i :: 0 <= i < |arrivals[1..]| ==> arrivals[0].now <= arrivals[1..][i].now
  {}

  lemma {:induction false} NothingAfter(limiter: Option<RateLimit>, r: int, w: int, arrivals: seq<Arrival>,
      a: int, b: int)
    requires forall i :: 0 <= i < |arrivals| ==> arrivals[i].now >= b
    ensures AcceptedIn(limiter, r, w, arrivals, a, b) == 0
    decreases arrivals
  {
    if arrivals != [] {
      NothingAfter(Some(Check(limiter, r, w, arrivals[0]).0), r, w, arrivals[1..], a, b);
    }
  }

  predicate Limits(l: RateLimit, r: int, w: int) {
    l.requests == r && l.windowSize == w && 0 <= l.currentUsed <= r
  }

  /**
   * What a window that began at `lastReset` still lets through before `b`: what is left of its
   * quota, and a full quota for each window that can begin later.
   */
  lemma {:induction false} AcceptedAhead(l: RateLimit, r: nat, w: int, arrivals: seq<Arrival>, a: int, b: int)
    requires Limits(l, r, w) && w > 0 && Monotone(arrivals)
    ensures AcceptedIn(Some(l), r, w, arrivals, a, b) <= r - l.currentUsed + r * Ceil(b - l.lastReset - w, w)
    decreases |arrivals|, 0
  {
    hide Ceil;
    Scale(r, 0, Ceil(b - l.lastReset - w, w));
    if arrivals != [] {
      var t := arrivals[0].now;
      MonotoneTail(arrivals);
      if t >= b {
        NothingAfter(Some(l), r, w, arrivals, a, b);
      } else if t - l.lastReset >= w {
        AcceptedFromReset(l, r, w, arrivals, a, b);
        CeilMonotone(b - t, b - l.lastReset - w, w);
        Scale(r, Ceil(b - t, w), Ceil(b - l.lastReset - w, w));
      } else {
        AcceptedAhead(Check(Some(l), r, w, arrivals[0]).0, r, w, arrivals[1..], a, b);
      }
    }
  }

  /** When the next message begins a window, each window from there on adds at most one quota. */
  lemma {:induction false} AcceptedFromReset(l: RateLimit, r: nat, w: int, arrivals: seq<Arrival>, a: int, b: int)
    requires Limits(l, r, w) && w > 0 && Monotone(arrivals)
    requires arrivals != [] && arrivals[0].now - l.lastReset >= w && arrivals[0].now < b
    ensures AcceptedIn(Some(l), r, w, arrivals, a, b) <= r * Ceil(b - arrivals[0].now, w)
    decreases |arrivals| - 1, 1
  {
    hide Ceil;
    var t := arrivals[0].now;
    MonotoneTail(arrivals);
    var l' := Check(Some(l), r, w, arrivals[0]).0;
    AcceptedAhead(l', r, w, arrivals[1..], a, b);
    CeilStep(b - t, w);
    OneMore(r, Ceil(b - t - w, w));
  }

  lemma {:induction false} AcceptedFrom(l: RateLimit, r: nat, w: int, arrivals: seq<Arrival>, a: int, b: int)
    requires Limits(l, r, w) && w > 0 && Monotone(arrivals)
    ensures AcceptedIn(Some(l), r, w, arrivals, a, b) <= r * (Ceil(b - a, w) + 1)
    decreases |arrivals|
  {
    if arrivals != [] {
      hide Ceil;
      var t := arrivals[0].now;
      MonotoneTail(arrivals);
      OneMore(r, Ceil(b - a, w));
      if t < a {
        AcceptedFrom(Check(Some(l), r, w, arrivals[0]).0, r, w, arrivals[1..], a, b);
      } else if t >= b {
        NothingAfter(Some(l), r, w, arrivals, a, b);
      } else if t - l.lastReset >= w {
        AcceptedFromReset(l, r, w, arrivals, a, b);
        CeilMonotone(b - t, b - a, w);
        Scale(r, Ceil(b - t, w), Ceil(b - a, w));
      } else {
        AcceptedAhead(l, r, w, arrivals, a, b);
        CeilMonotone(b - l.lastReset - w, b - a, w);
        Scale(r, Ceil(b - l.lastReset - w, w), Ceil(b - a, w));
      }
    }
  }

  /**
   * Over any run of messages from a client that has just connected, a half-open interval of
   * length T sees at most R * (ceil(T / W) + 1) of them let through; so at most 2R in an
   * interval as long as the window.
   */
  lemma RateLimitBound(r: nat, w: int, arrivals: seq<Arrival>, a: int, t: nat)
    requires w > 0 && Monotone(arrivals)
    ensures AcceptedIn(None, r, w, arrivals, a, a + t) <= r * (Ceil(t, w) + 1)
    ensures t == w ==> AcceptedIn(None, r, w, arrivals, a, a + t) <= 2 * r
  {
    hide Ceil;
    if arrivals != [] {
      var l := RateLimit(r, w, arrivals[0].created, 0);
      assert Check(None, r, w, arrivals[0]) == Check(Some(l), r, w, arrivals[0]);
      AcceptedFrom(l, r, w, arrivals, a, a + t);
    }
    if t == w {
      CeilStep(w, w);
      CeilOfNothing(w);
    }
  }

  // ---- Nobody is refused early ----

  function After(limiter: Option<RateLimit>, r: int, w: int, arrivals: seq<Arrival>): Option<RateLimit>
    decreases |arrivals|
  {
    if arrivals == [] then limiter
    else
      var last := |arrivals| - 1;
      Some(Check(After(limiter, r, w, arrivals[..last]), r, w, arrivals[last]).0)
  }

  lemma {:induction false} AcceptedAppend(limiter: Option<RateLimit>, r: int, w: int, arrivals: seq<Arrival>,
      x: Arrival, a: int, b: int)
    ensures AcceptedIn(limiter, r, w, arrivals + [x], a, b)
            == AcceptedIn(limiter, r, w, arrivals, a, b)
               + if Check(After(limiter, r, w, arrivals), r, w, x).1 && a <= x.now < b then 1 else 0
    ensures After(limiter, r, w, arrivals + [x]) == Some(Check(After(limiter, r, w, arrivals), r, w, x).0)
    decreases |arrivals|
  {
    assert (arrivals + [x])[..|arrivals|] == arrivals;
    if arrivals == [] {
      assert [x][1..] == [];
      assert arrivals + [x] == [x];
    } else {
      var l := Some(Check(limiter, r, w, arrivals[0]).0);
      assert (arrivals + [x])[1..] == arrivals[1..] + [x];
      AcceptedAppend(l, r, w, arrivals[1..], x, a, b);
      AfterFirst(limiter, r, w, arrivals);
    }
  }

  lemma {:induction false} AfterFirst(limiter: Option<RateLimit>, r: int, w: int, arrivals: seq<Arrival>)
    requires arrivals != []
    ensures After(limiter, r, w, arrivals) == After(Some(Check(limiter, r, w, arrivals[0]).0), r, w, arrivals[1..])
    decreases |arrivals|
  {
    if |arrivals| > 1 {
      var last := |arrivals| - 1;
      AfterFirst(limiter, r, w, arrivals[..last]);
      assert arrivals[..last][1..] == arrivals[1..][..last - 1];
    }
  }

  /** The limiter's count is of messages let through since its window began. */
  lemma {:induction false} UsedWasAccepted(r: nat, w: int, arrivals: seq<Arrival>, a: int, b: int)
    requires w > 0 && Monotone(arrivals) && arrivals != []
    requires arrivals[|arrivals| - 1].now < b
    requires var l := After(None, r, w, arrivals); l.Some? && a <= l.value.lastReset
    ensures var l := After(None, r, w, arrivals).value;
            Limits(l, r, w) && l.lastReset <= arrivals[|arrivals| - 1].now
            && AcceptedIn(None, r, w, arrivals, a, b) >= l.currentUsed
    decreases |arrivals|
  {
    var last := |arrivals| - 1;
    var before, x := arrivals[..last], arrivals[last];
    assert before + [x] == arrivals;
    AcceptedAppend(None, r, w, before, x, a, b);
    if before != [] {
      assert Monotone(before);
      var l := After(None, r, w, before);
      UsedWasAccepted(r, w, before, l.value.lastReset, b);
      if x.now - l.value.lastReset < w {
        UsedWasAccepted(r, w, before, a, b);
      }
    }
  }

  /**
   * A message is refused only when the whole quota was let through within the last window's
   * length, so a client that keeps to its quota in every such interval is never refused.
   */
  lemma RefusedOnlyWhenUsedUp(r: nat, w: int, arrivals: seq<Arrival>, x: Arrival)
    requires w > 0 && r > 0 && Monotone(arrivals + [x])
    ensures !Check(After(None, r, w, arrivals), r, w, x).1 ==>
              AcceptedIn(None, r, w, arrivals, x.now - w + 1, x.now + 1) >= r
  {
    if arrivals != [] && !Check(After(None, r, w, arrivals), r, w, x).1 {
      var n := |arrivals|;
      assert (arrivals + [x])[n] == x && (arrivals + [x])[n - 1] == arrivals[n - 1];
      assert forall i :: 0 <= i < n ==> (arrivals + [x])[i] == arrivals[i];
      assert Monotone(arrivals);
      var l := After(None, r, w, arrivals).value;
      UsedWasAccepted(r, w, arrivals, l.lastReset, x.now + 1);
      UsedWasAccepted(r, w, arrivals, x.now - w + 1, x.now + 1);
    }
  }

  // ---- The bound is met ----

  function Burst(n: nat, at: Arrival): seq<Arrival> {
    if n == 0 then [] else [at] + Burst(n - 1, at)
  }

  lemma {:induction false} BurstIsConstant(n: nat, at: Arrival)
    ensures |Burst(n, at)| == n && forall i :: 0 <= i < n ==> Burst(n, at)[i] == at
  {
    if n > 0 {
      BurstIsConstant(n - 1, at);
    }
  }

  /** A burst inside a window that has room for it is let through entirely. */
  lemma {:induction false} BurstAccepted(l: RateLimit, r: nat, w: int, n: nat, at: Arrival,
      rest: seq<Arrival>, a: int, b: int)
    requires Limits(l, r, w) && w > 0 && l.currentUsed + n <= r && at.now - l.lastReset < w && a <= at.now < b
    ensures AcceptedIn(Some(l), r, w, Burst(n, at) + rest, a, b)
            == n + AcceptedIn(Some(l.(currentUsed := l.currentUsed + n)), r, w, rest, a, b)
    decreases n
  {
    if n == 0 {
      assert Burst(n, at) + rest == rest;
    } else {
      assert Burst(n, at) + rest == [at] + (Burst(n - 1, at) + rest);
      assert (Burst(n, at) + rest)[1..] == Burst(n - 1, at) + rest;
      BurstAccepted(l.(currentUsed := l.currentUsed + 1), r, w, n - 1, at, rest, a, b);
    }
  }

  /**
   * For every quota and window there is a run that gets twice the quota through in one window's
   * length, given a clock that ticks inside a window.
   */
  lemma BoundIsMet(r: nat, w: int) returns (arrivals: seq<Arrival>, a: int)
    requires w > 1 && r > 0
    ensures Monotone(arrivals) && AcceptedIn(None, r, w, arrivals, a, a + w) == 2 * r
  {
    a := w - 1;
    var late, next := Arrival(w - 1, w - 1), Arrival(w, w);
    arrivals := [Arrival(0, w - 1)] + (Burst(r - 1, late) + ([next] + Burst(r - 1, next)));
    TwoBurstsMonotone(r, w);
    SecondBurst(r, w);
    BurstAccepted(RateLimit(r, w, 0, 1), r, w, r - 1, late, [next] + Burst(r - 1, next), a, a + w);
    assert arrivals[1..] == Burst(r - 1, late) + ([next] + Burst(r - 1, next));
  }

  /** The burst at the end of a used-up window begins the next one. */
  lemma SecondBurst(r: nat, w: int)
    requires w > 1 && r > 0
    ensures var next := Arrival(w, w);
            AcceptedIn(Some(RateLimit(r, w, 0, r)), r, w, [next] + Burst(r - 1, next), w - 1, 2 * w - 1) == r
  {
    var next := Arrival(w, w);
    var tail := Burst(r - 1, next);
    assert tail + [] == tail && ([next] + tail)[1..] == tail;
    BurstAccepted(RateLimit(r, w, w, 1), r, w, r - 1, next, [], w - 1, 2 * w - 1);
  }

  lemma TwoBurstsMonotone(r: nat, w: int)
    requires w > 1 && r > 0
    ensures var late, next := Arrival(w - 1, w - 1), Arrival(w, w);
            Monotone([Arrival(0, w - 1)] + (Burst(r - 1, late) + ([next] + Burst(r - 1, next))))
  {
    BurstIsConstant(r - 1, Arrival(w - 1, w - 1));
    BurstIsConstant(r - 1, Arrival(w, w));
  }

  // ---- Where the quota bounds every window ----

  /** What a newly connected client gets through in the window's length from `a` on. */
  function AcceptedInWindow(r: nat, w: int, arrivals: seq<Arrival>, a: int): nat {
    AcceptedIn(None, r, w, arrivals, a, a + w)
  }

  ghost predicate NeverAboveQuota(r: nat, w: int) {
    forall arrivals, a :: Monotone(arrivals) ==> AcceptedInWindow(r, w, arrivals, a) <= r
  }

  /** In a window of one tick all messages of an interval share a window. */
  lemma {:induction false} OneTick(l: RateLimit, r: nat, arrivals: seq<Arrival>, a: int)
    requires Limits(l, r, 1) && Monotone(arrivals)
    ensures AcceptedIn(Some(l), r, 1, arrivals, a, a + 1) <= r
    decreases |arrivals|
  {
    hide Ceil;
    if arrivals != [] {
      var t := arrivals[0].now;
      MonotoneTail(arrivals);
      CeilStep(1, 1);
      CeilOfNothing(1);
      if t < a {
        OneTick(Check(Some(l), r, 1, arrivals[0]).0, r, arrivals[1..], a);
      } else if t > a {
        NothingAfter(Some(l), r, 1, arrivals, a, a + 1);
      } else if t - l.lastReset >= 1 {
        AcceptedFromReset(l, r, 1, arrivals, a, a + 1);
      } else {
        AcceptedAhead(l, r, 1, arrivals, a, a + 1);
        CeilMonotone(a - l.lastReset, 0, 1);
      }
    }
  }

  /**
   * The quota bounds what is let through in every interval as long as the window if and only if
   * it is zero or the window is a single tick of the clock.
   */
  lemma QuotaBoundsWindowsExactly(r: nat, w: int)
    requires w > 0
    ensures NeverAboveQuota(r, w) <==> r == 0 || w == 1
  {
    if r == 0 || w == 1 {
      forall arrivals: seq<Arrival>, a | Monotone(arrivals) ensures AcceptedInWindow(r, w, arrivals, a) <= r {
        RateLimitBound(r, w, arrivals, a, w);
        if w == 1 && arrivals != [] {
          var l := RateLimit(r, w, arrivals[0].created, 0);
          assert Check(None, r, w, arrivals[0]) == Check(Some(l), r, w, arrivals[0]);
          OneTick(l, r, arrivals, a);
        }
      }
    } else {
      var arrivals, a := BoundIsMet(r, w);
      assert AcceptedInWindow(r, w, arrivals, a) > r;
    }
  }
}
