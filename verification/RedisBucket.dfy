/**
 * The same bucket as a script inside Redis: one hash per key with an expiry,
 * and a wall clock that may be set back.
 */
module RedisBucket {
  import opened Wrappers
  import opened Basics
  import opened TokenBucket
  import opened BucketRuns

  /** The hash's two fields, and the clock reading at which Redis may drop it. */
  datatype Hash = Hash(bucket: Bucket, deadline: real)

  function View(h: Option<Hash>): Option<Bucket> {
    if h.Some? then Some(h.value.bucket) else None
  }

  /** The script never lets its own clock run backwards. */
  function Clock(h: Option<Hash>, raw: real): real {
    if h.Some? then Max(raw, h.value.bucket.updated) else raw
  }

  function EvalLevel(p: Policy, h: Option<Hash>, raw: real): real {
    Level(p, View(h), Clock(h, raw))
  }

  function AfterEval(p: Policy, h: Option<Hash>, raw: real): Hash {
    Hash(After(p, View(h), Clock(h, raw)), raw + p.window as real)
  }

  // ---- runs of one key ----

  /** The hash as evaluation n finds it; `gone[n]` says that Redis has dropped it by then. */
  function HashAt(p: Policy, raws: seq<real>, gone: seq<bool>, n: nat): (h: Option<Hash>)
    requires n < |raws| == |gone|
    ensures InRange(p, View(h))
    decreases n, 1
  {
    if n == 0 || gone[n] then None else Some(HashAfter(p, raws, gone, n - 1))
  }

  function HashAfter(p: Policy, raws: seq<real>, gone: seq<bool>, n: nat): (h: Hash)
    requires n < |raws| == |gone|
    ensures InRange(p, Some(h.bucket))
    decreases n, 2
  {
    var h := HashAt(p, raws, gone, n);
    LevelInRange(p, View(h), Clock(h, raws[n]));
    AfterEval(p, h, raws[n])
  }

  function RedisLevel(p: Policy, raws: seq<real>, gone: seq<bool>, n: nat): real
    requires n < |raws| == |gone|
  {
    EvalLevel(p, HashAt(p, raws, gone, n), raws[n])
  }

  /** Redis drops a hash only once its own clock has reached the deadline last set. */
  ghost predicate RespectsDeadlines(p: Policy, raws: seq<real>, gone: seq<bool>)
    requires |raws| == |gone|
  {
    forall n :: 0 < n < |raws| && gone[n] ==> HashAfter(p, raws, gone, n - 1).deadline <= raws[n]
  }

  function RedisAccepted(p: Policy, raws: seq<real>, gone: seq<bool>, lo: nat, hi: nat): nat
    requires lo <= hi <= |raws| == |gone|
  {
    if lo == hi then 0
    else RedisAccepted(p, raws, gone, lo, hi - 1) + if Admits(RedisLevel(p, raws, gone, hi - 1)) then 1 else 0
  }

  // ---- agreement with the other form ----

  /**
   * On a clock that is never set back, and whenever Redis chooses to drop an
   * expired hash, each evaluation answers what the bucket that never forgets answers.
   */
  lemma {:induction false} RedisAgrees(p: Policy, ts: seq<real>, gone: seq<bool>, n: nat)
    requires |ts| == |gone| && n < |ts|
    requires Nondecreasing(ts) && RespectsDeadlines(p, ts, gone)
    ensures SameFuture(p, View(HashAt(p, ts, gone, n)), StateBefore(p, ts, n), ts[n])
    ensures Report(p, RedisLevel(p, ts, gone, n)) == Reports(p, ts, |ts|)[n]
  {
    if n > 0 {
      RedisAgrees(p, ts, gone, n - 1);
      var h, b := HashAfter(p, ts, gone, n - 1), StateBefore(p, ts, n);
      SameAfter(p, View(HashAt(p, ts, gone, n - 1)), StateBefore(p, ts, n - 1), ts[n - 1]);
      assert h.bucket.updated == ts[n - 1];
      SameFutureLasts(p, Some(h.bucket), b, ts[n - 1], ts[n]);
      if gone[n] {
        IdleWindowRefills(p, h.bucket, ts[n]);
      }
    }
  }

  // ---- a clock that may be set back ----

  /** How far a clock has moved forwards by evaluation n, its backward jumps ignored. */
  function Forward(raws: seq<real>, n: nat): real
    requires n < |raws|
  {
    if n == 0 then 0.0 else Forward(raws, n - 1) + Max(0.0, raws[n] - raws[n - 1])
  }

  function ForwardClock(raws: seq<real>): (c: seq<real>)
    ensures |c| == |raws| && forall n :: 0 <= n < |raws| ==> c[n] == Forward(raws, n)
  {
    seq(|raws|, n requires 0 <= n < |raws| => Forward(raws, n))
  }

  /** The furthest the clock has ever shown. */
  function HighWater(raws: seq<real>, n: nat): (top: real)
    requires n < |raws|
    ensures raws[n] <= top
  {
    if n == 0 then raws[0] else Max(HighWater(raws, n - 1), raws[n])
  }

  function HighWaterClock(raws: seq<real>): (c: seq<real>)
    ensures |c| == |raws| && forall n :: 0 <= n < |raws| ==> c[n] == HighWater(raws, n)
  {
    seq(|raws|, n requires 0 <= n < |raws| => HighWater(raws, n))
  }

  /** Between evaluations n - 1 and n, no more flows in than `elapsed` allows. */
  predicate Paced(p: Policy, raws: seq<real>, gone: seq<bool>, n: nat, elapsed: real)
    requires 0 < n < |raws| == |gone|
  {
    RedisLevel(p, raws, gone, n) <= HashAfter(p, raws, gone, n - 1).bucket.tokens + Gain(p, elapsed)
  }

  ghost predicate PacedBy(p: Policy, raws: seq<real>, gone: seq<bool>, clock: seq<real>, i: nat, j: nat)
    requires i <= j < |raws| == |gone| == |clock|
  {
    forall n :: i < n <= j ==> Paced(p, raws, gone, n, clock[n] - clock[n - 1])
  }

  lemma {:induction false} SpentSince(p: Policy, raws: seq<real>, gone: seq<bool>, clock: seq<real>, i: nat, j: nat)
    requires i <= j < |raws| == |gone| == |clock|
    requires PacedBy(p, raws, gone, clock, i, j)
    ensures HashAfter(p, raws, gone, j).bucket.tokens + RedisAccepted(p, raws, gone, i, j + 1) as real
         <= Capacity(p) + Gain(p, clock[j] - clock[i]) + EPSILON * RedisAccepted(p, raws, gone, i, j + 1) as real
  {
    var h := HashAt(p, raws, gone, j);
    LevelInRange(p, View(h), Clock(h, raws[j]));
    GainGrows(p, 0.0, 0.0);
    if i < j {
      SpentSince(p, raws, gone, clock, i, j - 1);
      assert Paced(p, raws, gone, j, clock[j] - clock[j - 1]);
      GainAdds(p, clock[j - 1] - clock[i], clock[j] - clock[j - 1]);
      assert clock[j - 1] - clock[i] + (clock[j] - clock[j - 1]) == clock[j] - clock[i];
    } else {
      assert RedisAccepted(p, raws, gone, i, i) == 0;
    }
  }

  /** A clock that paces every step of a window bounds what the window lets through. */
  lemma BurstBoundOnPacingClock(p: Policy, raws: seq<real>, gone: seq<bool>, clock: seq<real>, i: nat, j: nat)
    requires i <= j < |raws| == |gone| == |clock|
    requires PacedBy(p, raws, gone, clock, i, j)
    ensures var accepted := RedisAccepted(p, raws, gone, i, j + 1) as real;
            accepted <= Capacity(p) + Gain(p, clock[j] - clock[i]) + EPSILON * accepted
  {
    SpentSince(p, raws, gone, clock, i, j);
    assert 0.0 <= HashAfter(p, raws, gone, j).bucket.tokens;
  }

  lemma ForwardPaces(p: Policy, raws: seq<real>, gone: seq<bool>, n: nat)
    requires 0 < n < |raws| == |gone|
    requires RespectsDeadlines(p, raws, gone)
    ensures Paced(p, raws, gone, n, Forward(raws, n) - Forward(raws, n - 1))
  {
    var h := HashAfter(p, raws, gone, n - 1);
    var step := Max(0.0, raws[n] - raws[n - 1]);
    RatePositive(p);
    if gone[n] {
      GainGrows(p, p.window as real, step);
    } else {
      assert raws[n - 1] <= h.bucket.updated;
      GainGrows(p, Clock(Some(h), raws[n]) - h.bucket.updated, step);
    }
  }

  lemma ForwardClockPaces(p: Policy, raws: seq<real>, gone: seq<bool>, i: nat, j: nat)
    requires i <= j < |raws| == |gone|
    requires RespectsDeadlines(p, raws, gone)
    ensures PacedBy(p, raws, gone, ForwardClock(raws), i, j)
  {
    forall n | i < n <= j
      ensures Paced(p, raws, gone, n, ForwardClock(raws)[n] - ForwardClock(raws)[n - 1])
    {
      ForwardPaces(p, raws, gone, n);
    }
  }

  /**
   * On any clock at all, and for every choice of when expired hashes vanish, a
   * window lets through at most the capacity plus what the clock's forward
   * movement allows.
   */
  lemma BurstBoundOnAnyClock(p: Policy, raws: seq<real>, gone: seq<bool>, i: nat, j: nat)
    requires i <= j < |raws| == |gone|
    requires RespectsDeadlines(p, raws, gone)
    ensures var accepted, clock := RedisAccepted(p, raws, gone, i, j + 1) as real, ForwardClock(raws);
            accepted <= Capacity(p) + Gain(p, clock[j] - clock[i]) + EPSILON * accepted
  {
    ForwardClockPaces(p, raws, gone, i, j);
    BurstBoundOnPacingClock(p, raws, gone, ForwardClock(raws), i, j);
  }

  /** No hash is dropped before the clock has passed its `updated_at` by a window. */
  ghost predicate DropsOnlyOutlived(p: Policy, raws: seq<real>, gone: seq<bool>)
    requires |raws| == |gone|
  {
    forall n :: 0 < n < |raws| && gone[n] ==>
      HashAfter(p, raws, gone, n - 1).bucket.updated + p.window as real <= raws[n]
  }

  lemma {:induction false} UpdatedIsHighWater(p: Policy, raws: seq<real>, gone: seq<bool>, n: nat)
    requires n < |raws| == |gone|
    requires DropsOnlyOutlived(p, raws, gone)
    ensures HashAfter(p, raws, gone, n).bucket.updated == HighWater(raws, n)
  {
    if n > 0 {
      UpdatedIsHighWater(p, raws, gone, n - 1);
    }
  }

  lemma HighWaterPaces(p: Policy, raws: seq<real>, gone: seq<bool>, n: nat)
    requires 0 < n < |raws| == |gone|
    requires DropsOnlyOutlived(p, raws, gone)
    ensures Paced(p, raws, gone, n, HighWater(raws, n) - HighWater(raws, n - 1))
  {
    UpdatedIsHighWater(p, raws, gone, n - 1);
    if gone[n] {
      RatePositive(p);
      GainGrows(p, p.window as real, HighWater(raws, n) - HighWater(raws, n - 1));
    }
  }

  lemma HighWaterClockPaces(p: Policy, raws: seq<real>, gone: seq<bool>, i: nat, j: nat)
    requires i <= j < |raws| == |gone|
    requires DropsOnlyOutlived(p, raws, gone)
    ensures PacedBy(p, raws, gone, HighWaterClock(raws), i, j)
  {
    forall n | i < n <= j
      ensures Paced(p, raws, gone, n, HighWaterClock(raws)[n] - HighWaterClock(raws)[n - 1])
    {
      HighWaterPaces(p, raws, gone, n);
    }
  }

  /** The bound on the monotone clock that the script keeps in `updated_at`. */
  ghost predicate OwnClockBound(p: Policy, raws: seq<real>, gone: seq<bool>, i: nat, j: nat)
    requires i <= j < |raws| == |gone|
  {
    var accepted := RedisAccepted(p, raws, gone, i, j + 1) as real;
    accepted <= Capacity(p) + Gain(p, HighWater(raws, j) - HighWater(raws, i)) + EPSILON * accepted
  }

  /** It holds as long as every hash dropped was outlived. */
  lemma BurstBoundOnOwnClock(p: Policy, raws: seq<real>, gone: seq<bool>, i: nat, j: nat)
    requires i <= j < |raws| == |gone|
    requires DropsOnlyOutlived(p, raws, gone)
    ensures OwnClockBound(p, raws, gone, i, j)
  {
    HighWaterClockPaces(p, raws, gone, i, j);
    BurstBoundOnPacingClock(p, raws, gone, HighWaterClock(raws), i, j);
  }

  /**
   * A dropped hash hands out tokens that the script's own clock has not earned
   * exactly when the hash would not have been full yet at that evaluation.
   */
  lemma DropIsInvisibleIff(p: Policy, h: Hash, raw: real)
    requires InRange(p, Some(h.bucket))
    ensures EvalLevel(p, None, raw) == EvalLevel(p, Some(h), raw)
       <==> h.bucket.tokens + Gain(p, Max(raw, h.bucket.updated) - h.bucket.updated) >= Capacity(p)
  {
    GainGrows(p, 0.0, 0.0);
  }

  /**
   * Without that condition the bound on the own clock fails: a bucket for one
   * hit a second is emptied at 100, the clock is set back to 50 and a refused
   * hit there renews the expiry; at 52 the hash is gone and a second hit passes,
   * although the clock has never shown more than 100.
   */
  lemma OwnClockBoundFails()
    ensures var p: Policy, raws, gone := PolicyRecord(1, 1), [100.0, 50.0, 52.0], [false, false, true];
            && RespectsDeadlines(p, raws, gone)
            && HighWater(raws, 2) == HighWater(raws, 0)
            && RedisAccepted(p, raws, gone, 0, 3) == 2
            && !OwnClockBound(p, raws, gone, 0, 2)
  {
    var p: Policy, raws, gone := PolicyRecord(1, 1), [100.0, 50.0, 52.0], [false, false, true];
    GainGrows(p, 0.0, 0.0);
    assert HashAfter(p, raws, gone, 0) == Hash(Bucket(0.0, 100.0), 101.0);
    assert RedisLevel(p, raws, gone, 1) == 0.0;
    assert HashAfter(p, raws, gone, 1) == Hash(Bucket(0.0, 100.0), 51.0);
    assert RedisLevel(p, raws, gone, 2) == 1.0;
    assert RedisAccepted(p, raws, gone, 0, 1) == 1;
    assert RedisAccepted(p, raws, gone, 0, 2) == 1;
  }

  // ---- what setting the clock back costs ----

  /** How far a clock has been set back by evaluation n, all its backward jumps together. */
  function SetBack(raws: seq<real>, n: nat): (back: real)
    requires n < |raws|
    ensures back >= 0.0
  {
    if n == 0 then 0.0 else SetBack(raws, n - 1) + Max(0.0, raws[n - 1] - raws[n])
  }

  lemma {:induction false} ClockBalance(raws: seq<real>, n: nat)
    requires n < |raws|
    ensures Forward(raws, n) == raws[n] - raws[0] + SetBack(raws, n)
    ensures HighWater(raws, n) <= raws[n] + SetBack(raws, n)
  {
    if n > 0 {
      ClockBalance(raws, n - 1);
    }
  }

  /** On any clock, a window exceeds the bound on the own clock by at most what the set-backs are worth. */
  lemma SetBacksCost(p: Policy, raws: seq<real>, gone: seq<bool>, i: nat, j: nat)
    requires i <= j < |raws| == |gone|
    requires RespectsDeadlines(p, raws, gone)
    ensures var accepted := RedisAccepted(p, raws, gone, i, j + 1) as real;
            accepted <= Capacity(p) + Gain(p, HighWater(raws, j) - HighWater(raws, i))
                      + Gain(p, SetBack(raws, j)) + EPSILON * accepted
  {
    BurstBoundOnAnyClock(p, raws, gone, i, j);
    ClockBalance(raws, i);
    ClockBalance(raws, j);
    var own, back := HighWater(raws, j) - HighWater(raws, i), SetBack(raws, j);
    GainGrows(p, Forward(raws, j) - Forward(raws, i), own + back);
    GainAdds(p, own, back);
  }

  ghost predicate MeetsOwnClockBound(p: Policy, raws: seq<real>, gone: seq<bool>)
    requires |raws| == |gone|
  {
    forall i, j :: 0 <= i <= j < |raws| ==> OwnClockBound(p, raws, gone, i, j)
  }

  /** A run on a clock that is set back by `d` at most, dropped hashes being overdue. */
  ghost predicate RunWithin(p: Policy, raws: seq<real>, gone: seq<bool>, d: real) {
    && |raws| == |gone|
    && (forall n :: 0 <= n < |raws| ==> SetBack(raws, n) <= d)
    && RespectsDeadlines(p, raws, gone)
  }

  /** A hit emptying the bucket at `d`, one at 0 to renew the expiry, and as many at the deadline. */
  function CostlyClock(p: Policy, d: real): (raws: seq<real>)
    ensures |raws| == 2 * p.limit + 1
  {
    seq(2 * p.limit + 1, n => if n < p.limit then d else if n == p.limit then 0.0 else p.window as real)
  }

  function CostlyDrops(p: Policy): (gone: seq<bool>)
    ensures |gone| == 2 * p.limit + 1
  {
    seq(2 * p.limit + 1, n => n == p.limit + 1)
  }

  /** Hits at one instant on a fresh key: each takes one token, up to the limit. */
  lemma {:induction false} Drains(p: Policy, raws: seq<real>, gone: seq<bool>, s: nat, n: nat)
    requires 0 < n <= p.limit && s + n <= |raws| == |gone|
    requires s == 0 || gone[s]
    requires forall k :: s < k < s + n ==> raws[k] == raws[s] && !gone[k]
    ensures HashAfter(p, raws, gone, s + n - 1)
         == Hash(Bucket(Capacity(p) - n as real, raws[s]), raws[s] + p.window as real)
    ensures RedisAccepted(p, raws, gone, s, s + n) == n
  {
    GainGrows(p, 0.0, 0.0);
    if n == 1 {
      assert RedisAccepted(p, raws, gone, s, s) == 0;
      assert RedisLevel(p, raws, gone, s) == Capacity(p);
    } else {
      Drains(p, raws, gone, s, n - 1);
      assert RedisLevel(p, raws, gone, s + n - 1) == Capacity(p) - (n - 1) as real;
    }
  }

  lemma {:induction false} RedisAcceptedSplits(p: Policy, raws: seq<real>, gone: seq<bool>, lo: nat, mid: nat, hi: nat)
    requires lo <= mid <= hi <= |raws| == |gone|
    ensures RedisAccepted(p, raws, gone, lo, hi) == RedisAccepted(p, raws, gone, lo, mid) + RedisAccepted(p, raws, gone, mid, hi)
    decreases hi
  {
    if mid < hi {
      RedisAcceptedSplits(p, raws, gone, lo, mid, hi - 1);
    }
  }

  /** The hit after the set-back is refused and renews the expiry on the clock that was set back. */
  lemma CostlyMiddle(p: Policy, d: real)
    requires d > 0.0
    ensures var raws, gone := CostlyClock(p, d), CostlyDrops(p);
            && HashAfter(p, raws, gone, p.limit).deadline == p.window as real
            && RedisAccepted(p, raws, gone, 0, p.limit + 1) == p.limit
  {
    var raws, gone := CostlyClock(p, d), CostlyDrops(p);
    Drains(p, raws, gone, 0, p.limit);
    GainGrows(p, 0.0, 0.0);
    assert HashAt(p, raws, gone, p.limit).value.bucket == Bucket(0.0, d);
    assert RedisLevel(p, raws, gone, p.limit) == 0.0;
  }

  lemma CostlyAccepts(p: Policy, d: real)
    requires d > 0.0
    ensures RedisAccepted(p, CostlyClock(p, d), CostlyDrops(p), 0, 2 * p.limit + 1) == 2 * p.limit
  {
    var raws, gone, l: nat := CostlyClock(p, d), CostlyDrops(p), p.limit;
    CostlyMiddle(p, d);
    Drains(p, raws, gone, l + 1, l);
    assert l + 1 + l == 2 * l + 1;
    RedisAcceptedSplits(p, raws, gone, 0, l + 1, 2 * l + 1);
  }

  lemma CostlyRespects(p: Policy, d: real)
    requires d > 0.0
    ensures RespectsDeadlines(p, CostlyClock(p, d), CostlyDrops(p))
  {
    CostlyMiddle(p, d);
  }

  lemma {:induction false} CostlyReadings(p: Policy, d: real, n: nat)
    requires d > 0.0 && n <= 2 * p.limit
    ensures HighWater(CostlyClock(p, d), n) == if n <= p.limit then d else Max(d, p.window as real)
    ensures SetBack(CostlyClock(p, d), n) == if n < p.limit then 0.0 else d
  {
    if n > 0 {
      CostlyReadings(p, d, n - 1);
    }
  }

  /** Any set-back worth more than the tolerance can be turned into hits beyond the bound. */
  lemma SetBackBreaksBound(p: Policy, d: real)
    requires d > 2.0 * EPSILON * p.window as real
    ensures RunWithin(p, CostlyClock(p, d), CostlyDrops(p), d)
    ensures !OwnClockBound(p, CostlyClock(p, d), CostlyDrops(p), 0, 2 * p.limit)
  {
    var raws, gone, w := CostlyClock(p, d), CostlyDrops(p), p.window as real;
    CostlyAccepts(p, d);
    CostlyRespects(p, d);
    forall n | 0 <= n < |raws|
      ensures SetBack(raws, n) <= d
    {
      CostlyReadings(p, d, n);
    }
    CostlyReadings(p, d, 0);
    CostlyReadings(p, d, 2 * p.limit);
    ToleranceWorth(p, d);
  }

  lemma ToleranceWorth(p: Policy, d: real)
    requires d > 2.0 * EPSILON * p.window as real
    ensures Gain(p, Max(d, p.window as real) - d) + 2.0 * EPSILON * Capacity(p) < Capacity(p)
  {
    var w, l, r := p.window as real, Capacity(p), Rate(p);
    RatePositive(p);
    var least := 2.0 * EPSILON * w;
    assert (d - least) * r > 0.0;
    GainAdds(p, d - least, least);
    assert Gain(p, least) == 2.0 * EPSILON * Gain(p, w);
    if d <= w {
      GainAdds(p, w - d, d);
    } else {
      GainGrows(p, 0.0, 0.0);
    }
  }

  // ---- and what the tolerance covers ----

  /** How much of the tolerance stays unused, at least, while this many tokens are spent. */
  function Unused(tokens: real): real {
    EPSILON * tokens.Floor as real + Max(0.0, tokens - tokens.Floor as real - 1.0 + EPSILON)
  }

  lemma UnusedSlope(s: real, t: real)
    requires 0.0 <= s <= t
    ensures 0.0 <= Unused(s) <= Unused(t) <= Unused(s) + (t - s)
  {
    var a, b := s.Floor as real, t.Floor as real;
    assert a <= b;
    if s.Floor < t.Floor {
      assert b >= a + 1.0;
    }
  }

  lemma UnusedWhole(n: nat)
    ensures Unused(n as real) == EPSILON * n as real
  {
  }

  /** An accepted hit uses up the tolerance except for what the tokens it finds leave unused. */
  lemma UnusedSpent(level: real)
    requires level >= 0.0
    ensures Unused(level) - Unused(Spend(level))
         <= (if Admits(level) then EPSILON - 1.0 else 0.0) + (level - Spend(level))
  {
    if level >= 1.0 {
      assert (level - 1.0).Floor == level.Floor - 1;
    } else if Admits(level) {
      assert level.Floor == 0;
    }
  }

  /** By how much a window falls short of the bound on the own clock, tokens left included. */
  function Slack(p: Policy, raws: seq<real>, gone: seq<bool>, i: nat, n: nat): real
    requires i <= n < |raws| == |gone|
  {
    var accepted := RedisAccepted(p, raws, gone, i, n + 1) as real;
    Capacity(p) + Gain(p, HighWater(raws, n) - HighWater(raws, i)) + EPSILON * accepted
    - accepted - HashAfter(p, raws, gone, n).bucket.tokens
  }

  /** The tolerance that emptying a full bucket leaves unused. */
  function Reserve(p: Policy): real { EPSILON * Capacity(p) }

  /** How far the clock has been set back and has caught up again. */
  function CaughtUp(raws: seq<real>, n: nat): real
    requires n < |raws|
  {
    SetBack(raws, n) - (HighWater(raws, n) - raws[n])
  }

  /** What the set-backs may have cost so far, beyond one reserve. */
  function Cost(p: Policy, raws: seq<real>, n: nat): real
    requires n < |raws|
  {
    Min(0.0, Reserve(p) - Gain(p, CaughtUp(raws, n)))
  }

  lemma CaughtUpGrows(raws: seq<real>, n: nat)
    requires 0 < n < |raws|
    ensures 0.0 <= CaughtUp(raws, n - 1) <= CaughtUp(raws, n) <= SetBack(raws, n)
    ensures SetBack(raws, n - 1) <= SetBack(raws, n)
  {
    ClockBalance(raws, n - 1);
  }

  /** Small set-backs are caught up with before a hash can be dropped. */
  lemma {:induction false} UpdatedInStep(p: Policy, raws: seq<real>, gone: seq<bool>, d: real, n: nat)
    requires RunWithin(p, raws, gone, d) && d <= p.window as real && n < |raws|
    ensures HashAfter(p, raws, gone, n).bucket.updated == HighWater(raws, n)
    ensures n > 0 && gone[n] ==> HighWater(raws, n) == raws[n]
  {
    if n > 0 {
      UpdatedInStep(p, raws, gone, d, n - 1);
      ClockBalance(raws, n - 1);
      assert SetBack(raws, n - 1) <= d;
    }
  }

  /** What one hit does to the shortfall, given the level it finds. */
  lemma HitKeepsSlack(p: Policy, raws: seq<real>, gone: seq<bool>, i: nat, n: nat, before: real, cost: real)
    requires i <= n < |raws| == |gone|
    requires var level, accepted := RedisLevel(p, raws, gone, n), RedisAccepted(p, raws, gone, i, n) as real;
             && before == Capacity(p) + Gain(p, HighWater(raws, n) - HighWater(raws, i)) + EPSILON * accepted - accepted - level
             && before >= Reserve(p) - Unused(level) + cost
    ensures Slack(p, raws, gone, i, n) >= Reserve(p) - Unused(HashAfter(p, raws, gone, n).bucket.tokens) + cost
  {
    var h := HashAt(p, raws, gone, n);
    LevelInRange(p, View(h), Clock(h, raws[n]));
    UnusedSpent(RedisLevel(p, raws, gone, n));
  }

  /** A hash dropped early gives back at most what the set-back before it is worth. */
  lemma DropCosts(p: Policy, raws: seq<real>, n: nat, step: real)
    requires 0 < n < |raws| && HighWater(raws, n) == raws[n]
    requires step >= p.window as real - (HighWater(raws, n - 1) - raws[n - 1])
    ensures Reserve(p) + Gain(p, step) - Capacity(p) + Cost(p, raws, n - 1) >= Cost(p, raws, n)
  {
    var gap, w := HighWater(raws, n - 1) - raws[n - 1], p.window as real;
    var caught := CaughtUp(raws, n - 1);
    CaughtUpGrows(raws, n);
    RatePositive(p);
    GainGrows(p, w - gap, step);
    GainAdds(p, w - gap, gap);
    GainAdds(p, caught, gap);
    assert caught + gap == SetBack(raws, n - 1);
    GainGrows(p, caught + gap, CaughtUp(raws, n));
    GainGrows(p, 0.0, caught);
  }

  /** What flows in before hit n, or is handed out with a new hash, keeps the shortfall. */
  lemma FlowKeepsSlack(p: Policy, raws: seq<real>, gone: seq<bool>, d: real, n: nat, slack: real)
    requires RunWithin(p, raws, gone, d) && d <= p.window as real && 0 < n < |raws|
    requires var tokens := HashAfter(p, raws, gone, n - 1).bucket.tokens;
             slack >= Reserve(p) - Unused(tokens) + Cost(p, raws, n - 1)
    ensures var tokens, level := HashAfter(p, raws, gone, n - 1).bucket.tokens, RedisLevel(p, raws, gone, n);
            slack + tokens + Gain(p, HighWater(raws, n) - HighWater(raws, n - 1)) - level
            >= Reserve(p) - Unused(level) + Cost(p, raws, n)
  {
    var tokens, step := HashAfter(p, raws, gone, n - 1).bucket.tokens, HighWater(raws, n) - HighWater(raws, n - 1);
    UpdatedInStep(p, raws, gone, d, n - 1);
    UpdatedInStep(p, raws, gone, d, n);
    CaughtUpGrows(raws, n);
    GainGrows(p, CaughtUp(raws, n - 1), CaughtUp(raws, n));
    GainGrows(p, 0.0, step);
    if gone[n] {
      UnusedWhole(p.limit);
      UnusedSlope(0.0, tokens);
      DropCosts(p, raws, n, step);
    } else {
      UnusedSlope(tokens, RedisLevel(p, raws, gone, n));
    }
  }

  lemma FirstSlack(p: Policy, raws: seq<real>, level: real, n: nat)
    requires 0.0 <= level <= Capacity(p) && n < |raws|
    ensures Capacity(p) - level >= Reserve(p) - Unused(level) + Cost(p, raws, n)
  {
    UnusedWhole(p.limit);
    UnusedSlope(level, Capacity(p));
  }

  lemma {:induction false} SlackKept(p: Policy, raws: seq<real>, gone: seq<bool>, d: real, i: nat, n: nat)
    requires RunWithin(p, raws, gone, d) && d <= p.window as real && i <= n < |raws|
    ensures Slack(p, raws, gone, i, n)
         >= Reserve(p) - Unused(HashAfter(p, raws, gone, n).bucket.tokens) + Cost(p, raws, n)
  {
    var h, level := HashAt(p, raws, gone, n), RedisLevel(p, raws, gone, n);
    LevelInRange(p, View(h), Clock(h, raws[n]));
    if n == i {
      GainGrows(p, 0.0, 0.0);
      assert RedisAccepted(p, raws, gone, i, i) == 0;
      FirstSlack(p, raws, level, n);
      HitKeepsSlack(p, raws, gone, i, n, Capacity(p) - level, Cost(p, raws, n));
    } else {
      var slack, tokens := Slack(p, raws, gone, i, n - 1), HashAfter(p, raws, gone, n - 1).bucket.tokens;
      var sofar, step := HighWater(raws, n - 1) - HighWater(raws, i), HighWater(raws, n) - HighWater(raws, n - 1);
      SlackKept(p, raws, gone, d, i, n - 1);
      FlowKeepsSlack(p, raws, gone, d, n, slack);
      GainAdds(p, sofar, step);
      assert sofar + step == HighWater(raws, n) - HighWater(raws, i);
      HitKeepsSlack(p, raws, gone, i, n, slack + tokens + Gain(p, step) - level, Cost(p, raws, n));
    }
  }

  lemma SmallSetBackCost(p: Policy, raws: seq<real>, j: nat)
    requires j < |raws| && CaughtUp(raws, j) <= 2.0 * EPSILON * p.window as real
    ensures Cost(p, raws, j) >= -Reserve(p)
  {
    var w, r := p.window as real, Rate(p);
    RatePositive(p);
    GainGrows(p, CaughtUp(raws, j), 2.0 * EPSILON * w);
    assert 2.0 * EPSILON * w * r == 2.0 * EPSILON * (w * r);
  }

  lemma SmallSetBackMeetsBound(p: Policy, raws: seq<real>, gone: seq<bool>, d: real, i: nat, j: nat)
    requires RunWithin(p, raws, gone, d) && d <= 2.0 * EPSILON * p.window as real
    requires i <= j < |raws|
    ensures OwnClockBound(p, raws, gone, i, j)
  {
    SlackKept(p, raws, gone, d, i, j);
    UnusedSlope(0.0, HashAfter(p, raws, gone, j).bucket.tokens);
    assert CaughtUp(raws, j) <= SetBack(raws, j) <= d;
    SmallSetBackCost(p, raws, j);
  }

  /**
   * So the bound on the script's own clock holds of every run exactly as long as
   * the clock's set-backs add up to no more than twice the tolerance, in windows.
   */
  lemma OwnClockBoundIff(p: Policy, d: real)
    ensures (forall raws, gone :: RunWithin(p, raws, gone, d) ==> MeetsOwnClockBound(p, raws, gone))
       <==> d <= 2.0 * EPSILON * p.window as real
  {
    if d <= 2.0 * EPSILON * p.window as real {
      forall raws, gone | RunWithin(p, raws, gone, d)
        ensures MeetsOwnClockBound(p, raws, gone)
      {
        forall i, j | 0 <= i <= j < |raws|
          ensures OwnClockBound(p, raws, gone, i, j)
        {
          SmallSetBackMeetsBound(p, raws, gone, d, i, j);
        }
      }
    } else {
      SetBackBreaksBound(p, d);
      assert !MeetsOwnClockBound(p, CostlyClock(p, d), CostlyDrops(p));
    }
  }

  // ---- every evaluation, spelled out ----

  /** An evaluation runs on the later of the clock and the hash's time, and the expiry on the clock. */
  ghost predicate EvalRight(p: Policy, h: Option<Hash>, raw: real, h': Option<Hash>, r: Outcome) {
    var now := if h.Some? && h.value.bucket.updated > raw then h.value.bucket.updated else raw;
    && h'.Some? && h'.value.deadline == raw + p.window as real
    && HitRight(p, if h.Some? then Some(h.value.bucket) else None, now, h'.value.bucket, r)
  }

  lemma EvalIsRight(p: Policy, h: Option<Hash>, raw: real)
    requires NoDebt(View(h))
    ensures EvalRight(p, h, raw, Some(AfterEval(p, h, raw)), Report(p, EvalLevel(p, h, raw)))
  {
    HitIsRight(p, View(h), Clock(h, raw));
  }

  /** In every run, on any clock and with any drops, each evaluation is right. */
  lemma EveryEvalRight(p: Policy, raws: seq<real>, gone: seq<bool>, n: nat)
    requires n < |raws| == |gone|
    ensures EvalRight(p, HashAt(p, raws, gone, n), raws[n], Some(HashAfter(p, raws, gone, n)),
                      Report(p, RedisLevel(p, raws, gone, n)))
  {
    EvalIsRight(p, HashAt(p, raws, gone, n), raws[n]);
  }

  // ---- the mutable form ----

  lemma EvalRefills(p: Policy, h: Option<Hash>, raw: real, rate: real)
    requires NoDebt(View(h)) && rate == p.limit as real / p.window as real
    ensures rate == Rate(p) && 0.0 <= EvalLevel(p, h, raw)
    ensures var tokens, updated := if h.Some? then h.value.bucket.tokens else Capacity(p), if h.Some? then h.value.bucket.updated else raw;
            Min(Capacity(p), tokens + (Max(raw, updated) - updated) * rate) == EvalLevel(p, h, raw)
  {
    LevelNoDebt(p, View(h), Clock(h, raw));
    GainGrows(p, 0.0, 0.0);
    FlowIsGain(p, Clock(h, raw) - if h.Some? then h.value.bucket.updated else raw, rate);
  }

  class RedisKey {
    var hash: Option<Hash>

    constructor ()
      ensures hash == None
    {
      hash := None;
    }

    /** Redis drops an expired hash; it may do so late, never early. */
    method Expire(raw: real)
      modifies this
      ensures hash == if old(hash).Some? && old(hash).value.deadline <= raw then None else old(hash)
    {
      if hash.Some? && hash.value.deadline <= raw {
        hash := None;
      }
    }

    method Eval(p: Policy, raw: real) returns (allowed: int, remaining: int, retry: int)
      requires NoDebt(View(hash))
      modifies this
      ensures NoDebt(View(hash))
      ensures EvalRight(p, old(hash), raw, hash, Outcome(allowed == 1, remaining, retry))
      ensures Outcome(allowed == 1, remaining, retry) == Report(p, EvalLevel(p, old(hash), raw))
      ensures allowed == 0 || allowed == 1
      ensures hash == Some(AfterEval(p, old(hash), raw))
    {
      var capacity, window := p.limit as real, p.window as real;
      var tokens, updated := capacity, raw;
      if hash.Some? {
        tokens, updated := hash.value.bucket.tokens, hash.value.bucket.updated;
      }
      var now := Max(raw, updated);
      var rate := capacity / window;
      ghost var level := EvalLevel(p, hash, raw);
      EvalRefills(p, hash, raw, rate);
      tokens := Min(capacity, tokens + (now - updated) * rate);
      assert tokens == level;
      allowed := 0;
      if tokens >= 1.0 - EPSILON {
        tokens := Max(0.0, tokens - 1.0);
        allowed := 1;
      }
      retry := 0;
      if allowed == 0 {
        retry := MaxInt(1, Ceil((1.0 - tokens) / rate));
      }
      hash := Some(Hash(Bucket(tokens, now), raw + window));
      remaining := tokens.Floor;
      EvalIsRight(p, old(hash), raw);
    }
  }
}
