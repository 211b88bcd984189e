/**
 * The arithmetic of one token bucket, shared by the in-process limiter and by
 * the script that runs inside Redis, and the ideal bucket that never forgets.
 *
 * Time and tokens are real numbers.
 */
module TokenBucket {
  import opened Wrappers
  import opened Basics

  const EPSILON: real := 0.000000001

  datatype PolicyRecord = PolicyRecord(limit: int, window: int)

  /** A capacity and a window that `RateLimiter.check` accepts. */
  type Policy = p: PolicyRecord | 1 <= p.limit && 1 <= p.window witness PolicyRecord(1, 1)

  datatype Bucket = Bucket(tokens: real, updated: real)

  datatype Outcome = Outcome(allowed: bool, remaining: int, retryAfter: int)

  function MaxInt(a: int, b: int): int { if a <= b then b else a }

  function Ceil(x: real): (n: int)
    ensures n as real - 1.0 < x <= n as real
  {
    -((-x).Floor)
  }

  function Capacity(p: Policy): real { p.limit as real }

  function Rate(p: Policy): real { p.limit as real / p.window as real }

  /** Tokens that flow in during `elapsed` seconds, before the capacity caps them. */
  function Gain(p: Policy, elapsed: real): real { elapsed * Rate(p) }

  /** What the bucket holds when a hit at `now` looks at it; no bucket counts as full. */
  function Level(p: Policy, b: Option<Bucket>, now: real): real {
    match b
    case None => Capacity(p)
    case Some(Bucket(tokens, updated)) => Min(Capacity(p), tokens + Gain(p, Max(0.0, now - updated)))
  }

  predicate Admits(level: real) { level >= 1.0 - EPSILON }

  function Spend(level: real): real {
    if Admits(level) then Max(0.0, level - 1.0) else level
  }

  function RetryAfter(p: Policy, level: real): int {
    if Admits(level) then 0 else MaxInt(1, Ceil((1.0 - level) / Rate(p)))
  }

  /** What the caller of a hit is told when the bucket held `level`. */
  function Report(p: Policy, level: real): Outcome {
    Outcome(Admits(level), MaxInt(0, Spend(level).Floor), RetryAfter(p, level))
  }

  function After(p: Policy, b: Option<Bucket>, now: real): Bucket {
    Bucket(Spend(Level(p, b, now)), now)
  }

  predicate InRange(p: Policy, b: Option<Bucket>) {
    b.Some? ==> 0.0 <= b.value.tokens <= Capacity(p)
  }

  // ---- what an answer means ----

  /**
   * What a hit that finds `level` tokens must answer, and what it must leave:
   * it passes with one token, up to the tolerance, and takes that token; it
   * reports the whole tokens left; and if refused, the first whole second from
   * one up after which a token has flowed in.
   */
  ghost predicate AnswersTo(p: Policy, level: real, left: real, r: Outcome) {
    && (r.allowed <==> level >= 1.0 - 0.000000001)
    && left == (if !r.allowed then level else if level >= 1.0 then level - 1.0 else 0.0)
    && r.remaining as real <= left < r.remaining as real + 1.0
    && (r.allowed ==> r.retryAfter == 0)
    && (!r.allowed ==>
          && r.retryAfter >= 1 && OneTokenAfter(p, level, r.retryAfter)
          && forall s: int :: 1 <= s < r.retryAfter ==> !OneTokenAfter(p, level, s))
  }

  /** So many seconds later there is a token, multiplied out by the window. */
  predicate OneTokenAfter(p: Policy, level: real, seconds: int) {
    level * p.window as real + seconds as real * p.limit as real >= p.window as real
  }

  /** What a bucket holds when it is looked at: a new one is full, an old one has gained its rate, up to the limit. */
  ghost predicate HoldsThen(p: Policy, b: Option<Bucket>, now: real, level: real) {
    if b == None then level == p.limit as real
    else
      var flow := (if now > b.value.updated then now - b.value.updated else 0.0) * p.limit as real;
      var filled := b.value.tokens * p.window as real + flow;
      if filled >= p.limit as real * p.window as real then level == p.limit as real else level * p.window as real == filled
  }

  /** No bucket ever owes tokens. */
  predicate NoDebt(b: Option<Bucket>) {
    b.Some? ==> b.value.tokens >= 0.0
  }

  // ---- facts about the flow of tokens ----

  lemma RatePositive(p: Policy)
    ensures Rate(p) > 0.0
    ensures Gain(p, p.window as real) == Capacity(p)
  {
    var l, w := p.limit as real, p.window as real;
    assert l / w > 0.0;
    assert w * (l / w) == l;
  }

  lemma FlowIsGain(p: Policy, elapsed: real, rate: real)
    requires rate == p.limit as real / p.window as real
    ensures elapsed * rate == Gain(p, elapsed) && rate == Rate(p)
  {
  }

  lemma GainAdds(p: Policy, a: real, b: real)
    ensures Gain(p, a + b) == Gain(p, a) + Gain(p, b)
  {
    var r := Rate(p);
    assert (a + b) * r == a * r + b * r;
  }

  lemma GainGrows(p: Policy, a: real, b: real)
    requires a <= b
    ensures Gain(p, a) <= Gain(p, b)
    ensures Gain(p, 0.0) == 0.0
  {
    RatePositive(p);
    var r := Rate(p);
    assert (b - a) * r >= 0.0;
    assert (b - a) * r == b * r - a * r;
  }

  lemma LevelInRange(p: Policy, b: Option<Bucket>, now: real)
    requires InRange(p, b)
    ensures 0.0 <= Level(p, b, now) <= Capacity(p)
    ensures InRange(p, Some(After(p, b, now)))
  {
    if b.Some? {
      GainGrows(p, 0.0, Max(0.0, now - b.value.updated));
    }
  }

  /**
   * Refilling up to `now` and then from `now` up to `later` gives what one
   * refill up to `later` gives, although each refill is capped.
   */
  lemma RefillPathIndependent(p: Policy, b: Option<Bucket>, now: real, later: real)
    requires b.Some? ==> b.value.updated <= now
    requires now <= later
    ensures Level(p, b, later) == Min(Capacity(p), Level(p, b, now) + Gain(p, later - now))
  {
    GainGrows(p, 0.0, later - now);
    if b.Some? {
      GainAdds(p, now - b.value.updated, later - now);
      assert now - b.value.updated + (later - now) == later - b.value.updated;
    }
  }

  /** Two buckets that no future hit can tell apart. */
  predicate SameFuture(p: Policy, a: Option<Bucket>, b: Option<Bucket>, now: real) {
    && (a.Some? ==> a.value.updated <= now)
    && (b.Some? ==> b.value.updated <= now)
    && Level(p, a, now) == Level(p, b, now)
  }

  lemma SameFutureLasts(p: Policy, a: Option<Bucket>, b: Option<Bucket>, now: real, later: real)
    requires SameFuture(p, a, b, now) && now <= later
    ensures SameFuture(p, a, b, later)
  {
    RefillPathIndependent(p, a, now, later);
    RefillPathIndependent(p, b, now, later);
  }

  /** A bucket last hit a whole window ago is full again: dropping it changes nothing. */
  lemma IdleWindowRefills(p: Policy, b: Bucket, now: real)
    requires InRange(p, Some(b))
    requires b.updated + p.window as real <= now
    ensures Level(p, Some(b), now) == Capacity(p)
  {
    RatePositive(p);
    GainGrows(p, p.window as real, now - b.updated);
  }

  // ---- the bucket that never forgets, over a run of hits on one key ----

  predicate Nondecreasing(ts: seq<real>) {
    forall i, j :: 0 <= i < j < |ts| ==> ts[i] <= ts[j]
  }

  function StateBefore(p: Policy, ts: seq<real>, n: nat): (b: Option<Bucket>)
    requires n <= |ts|
    ensures InRange(p, b)
    ensures n > 0 ==> b.Some? && b.value.updated == ts[n - 1]
  {
    if n == 0 then None
    else
      var b := StateBefore(p, ts, n - 1);
      LevelInRange(p, b, ts[n - 1]);
      Some(After(p, b, ts[n - 1]))
  }

  function LevelAt(p: Policy, ts: seq<real>, n: nat): real
    requires n < |ts|
  {
    Level(p, StateBefore(p, ts, n), ts[n])
  }

  predicate AllowedAt(p: Policy, ts: seq<real>, n: nat)
    requires n < |ts|
  {
    Admits(LevelAt(p, ts, n))
  }

  /** The answers to the first `n` hits of a run. */
  function Reports(p: Policy, ts: seq<real>, n: nat): (r: seq<Outcome>)
    requires n <= |ts|
    ensures |r| == n
    ensures forall i :: 0 <= i < n ==> r[i] == Report(p, LevelAt(p, ts, i))
  {
    if n == 0 then [] else Reports(p, ts, n - 1) + [Report(p, LevelAt(p, ts, n - 1))]
  }

  /** How many of the hits lo, ..., hi - 1 are let through. */
  function Accepted(p: Policy, ts: seq<real>, lo: nat, hi: nat): nat
    requires lo <= hi <= |ts|
  {
    if lo == hi then 0 else Accepted(p, ts, lo, hi - 1) + if AllowedAt(p, ts, hi - 1) then 1 else 0
  }

  lemma AcceptedSplits(p: Policy, ts: seq<real>, lo: nat, mid: nat, hi: nat)
    requires lo <= mid <= hi <= |ts|
    ensures Accepted(p, ts, lo, hi) == Accepted(p, ts, lo, mid) + Accepted(p, ts, mid, hi)
    decreases hi
  {
    if mid < hi {
      AcceptedSplits(p, ts, lo, mid, hi - 1);
    }
  }

  /** Only the times seen so far matter. */
  lemma StateOfPrefix(p: Policy, ts: seq<real>, more: seq<real>, n: nat)
    requires n <= |ts|
    ensures StateBefore(p, ts + more, n) == StateBefore(p, ts, n)
    ensures Reports(p, ts + more, n) == Reports(p, ts, n)
  {
    if n > 0 {
      StateOfPrefix(p, ts, more, n - 1);
    }
  }

  // ---- the answers, spelled out ----

  /** Multiplied out by the window, a gain is elapsed time times the limit. */
  lemma GainTimesWindow(p: Policy, elapsed: real)
    ensures Gain(p, elapsed) * p.window as real == elapsed * p.limit as real
  {
    var r, w := Rate(p), p.window as real;
    RatePositive(p);
    assert w * r == Capacity(p);
    assert elapsed * r * w == elapsed * (w * r);
  }

  lemma TimesWindow(p: Policy, a: real, b: real)
    ensures a <= b <==> a * p.window as real <= b * p.window as real
    ensures a == b <==> a * p.window as real == b * p.window as real
  {
    var w := p.window as real;
    if a < b {
      assert (b - a) * w > 0.0;
    } else if b < a {
      assert (a - b) * w > 0.0;
    }
  }

  lemma LevelNoDebt(p: Policy, b: Option<Bucket>, now: real)
    requires NoDebt(b)
    ensures Level(p, b, now) >= 0.0 && NoDebt(Some(After(p, b, now)))
  {
    if b.Some? {
      GainGrows(p, 0.0, Max(0.0, now - b.value.updated));
    }
  }

  lemma LevelHolds(p: Policy, b: Option<Bucket>, now: real)
    ensures HoldsThen(p, b, now, Level(p, b, now))
  {
    if b.Some? {
      var elapsed := if now > b.value.updated then now - b.value.updated else 0.0;
      GainTimesWindow(p, elapsed);
      TimesWindow(p, Capacity(p), b.value.tokens + Gain(p, elapsed));
    }
  }

  lemma EnoughAfter(p: Policy, level: real, s: int)
    ensures level + Gain(p, s as real) >= 1.0 <==> OneTokenAfter(p, level, s)
  {
    GainTimesWindow(p, s as real);
    TimesWindow(p, 1.0, level + Gain(p, s as real));
  }

  /**
   * Whole seconds are weighed against the missing tokens: RetryAfter is the
   * least whole number of seconds, at least one, after which a token is there.
   */
  lemma RetryAfterLeast(p: Policy, level: real, seconds: int)
    requires !Admits(level) && 1 <= seconds
    ensures 1 <= RetryAfter(p, level)
    ensures RetryAfter(p, level) <= seconds <==> level + Gain(p, seconds as real) >= 1.0
  {
    RatePositive(p);
    var r, s, missing := Rate(p), seconds as real, 1.0 - level;
    assert missing / r * r == missing;
    if missing / r <= s {
      assert (s - missing / r) * r >= 0.0;
      assert (s - missing / r) * r == s * r - missing;
    } else {
      assert (missing / r - s) * r > 0.0;
      assert (missing / r - s) * r == missing - s * r;
    }
  }

  /** Every report answers to the level it is about. */
  lemma ReportAnswers(p: Policy, level: real)
    requires level >= 0.0
    ensures AnswersTo(p, level, Spend(level), Report(p, level))
  {
    if !Admits(level) {
      var retry := RetryAfter(p, level);
      RetryAfterLeast(p, level, 1);
      RetryAfterLeast(p, level, retry);
      EnoughAfter(p, level, retry);
      forall s: int | 1 <= s < retry
        ensures !OneTokenAfter(p, level, s)
      {
        RetryAfterLeast(p, level, s);
        EnoughAfter(p, level, s);
      }
    }
  }

  /** A hit in full: it finds what must be there, answers to it, and leaves what it must at the time it was made. */
  ghost predicate HitRight(p: Policy, b: Option<Bucket>, now: real, after: Bucket, r: Outcome) {
    after.updated == now && exists level :: HoldsThen(p, b, now, level) && AnswersTo(p, level, after.tokens, r)
  }

  lemma HitIsRight(p: Policy, b: Option<Bucket>, now: real)
    requires NoDebt(b)
    ensures HitRight(p, b, now, After(p, b, now), Report(p, Level(p, b, now)))
  {
    LevelHolds(p, b, now);
    LevelNoDebt(p, b, now);
    ReportAnswers(p, Level(p, b, now));
  }

  /** In every run each hit is right. */
  lemma EveryHitRight(p: Policy, ts: seq<real>, i: nat)
    requires i < |ts|
    ensures HitRight(p, StateBefore(p, ts, i), ts[i], StateBefore(p, ts, i + 1).value, Reports(p, ts, |ts|)[i])
  {
    HitIsRight(p, StateBefore(p, ts, i), ts[i]);
  }
}
