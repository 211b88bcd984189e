/**
 * What the token bucket promises over whole runs of hits on one key: how much
 * it lets through in any window, that no admissible choice of hits does better,
 * and what its `remaining` and `retry_after` answers mean for later hits.
 */
module BucketRuns {
  import opened Wrappers
  import opened Basics
  import opened TokenBucket

  // ---- burst bound ----

  /** Tokens left after hit j, plus those spent from hit i on, never exceed what could have been there. */
  lemma {:induction false} TokensSpentSince(p: Policy, ts: seq<real>, i: nat, j: nat)
    requires Nondecreasing(ts) && i <= j < |ts|
    ensures StateBefore(p, ts, j + 1).value.tokens + Accepted(p, ts, i, j + 1) as real
         <= Capacity(p) + Gain(p, ts[j] - ts[i]) + EPSILON * Accepted(p, ts, i, j + 1) as real
  {
    LevelInRange(p, StateBefore(p, ts, j), ts[j]);
    GainGrows(p, 0.0, 0.0);
    if i < j {
      TokensSpentSince(p, ts, i, j - 1);
      GainAdds(p, ts[j - 1] - ts[i], ts[j] - ts[j - 1]);
      assert ts[j - 1] - ts[i] + (ts[j] - ts[j - 1]) == ts[j] - ts[i];
    } else {
      assert Accepted(p, ts, i, i) == 0;
    }
  }

  /**
   * In every window of every run, the hits let through are at most the capacity
   * plus what flowed in, plus the tolerance of one EPSILON per hit.
   */
  lemma BurstBound(p: Policy, ts: seq<real>, i: nat, j: nat)
    requires Nondecreasing(ts) && i <= j < |ts|
    ensures Accepted(p, ts, i, j + 1) as real
         <= Capacity(p) + Gain(p, ts[j] - ts[i]) + EPSILON * Accepted(p, ts, i, j + 1) as real
  {
    TokensSpentSince(p, ts, i, j);
    assert 0.0 <= StateBefore(p, ts, j + 1).value.tokens;
  }

  // ---- greedy optimality ----

  function Count(chosen: seq<bool>, lo: nat, hi: nat): nat
    requires lo <= hi <= |chosen|
  {
    if lo == hi then 0 else Count(chosen, lo, hi - 1) + if chosen[hi - 1] then 1 else 0
  }

  lemma CountSplits(chosen: seq<bool>, lo: nat, mid: nat, hi: nat)
    requires lo <= mid <= hi <= |chosen|
    ensures Count(chosen, lo, hi) == Count(chosen, lo, mid) + Count(chosen, mid, hi)
    decreases hi
  {
    if mid < hi {
      CountSplits(chosen, lo, mid, hi - 1);
    }
  }

  /** A choice of hits that keeps to the capacity and the rate in every window. */
  ghost predicate Admissible(p: Policy, ts: seq<real>, chosen: seq<bool>)
    requires |chosen| == |ts|
  {
    forall i, j :: 0 <= i <= j < |ts| ==>
      Count(chosen, i, j + 1) as real <= Capacity(p) + Gain(p, ts[j] - ts[i])
  }

  /** The last hit m at which the bucket was full: since then nothing has overflowed. */
  lemma {:induction false} LastFull(p: Policy, ts: seq<real>, n: nat) returns (m: nat)
    requires Nondecreasing(ts) && n < |ts|
    ensures m <= n
    ensures LevelAt(p, ts, n) + Accepted(p, ts, m, n) as real >= Capacity(p) + Gain(p, ts[n] - ts[m])
  {
    GainGrows(p, 0.0, 0.0);
    m := n;
    if LevelAt(p, ts, n) < Capacity(p) {
      m := LastFull(p, ts, n - 1);
      GainAdds(p, ts[n - 1] - ts[m], ts[n] - ts[n - 1]);
      assert ts[n - 1] - ts[m] + (ts[n] - ts[n - 1]) == ts[n] - ts[m];
    }
  }

  /** Every admissible choice has let through, in every prefix, no more hits than the bucket. */
  lemma {:induction false} GreedyOptimal(p: Policy, ts: seq<real>, chosen: seq<bool>, n: nat)
    requires Nondecreasing(ts) && |chosen| == |ts| && n <= |ts|
    requires Admissible(p, ts, chosen)
    ensures Count(chosen, 0, n) <= Accepted(p, ts, 0, n)
  {
    if n > 0 {
      GreedyOptimal(p, ts, chosen, n - 1);
      if !AllowedAt(p, ts, n - 1) {
        var m := LastFull(p, ts, n - 1);
        GreedyOptimal(p, ts, chosen, m);
        CountSplits(chosen, 0, m, n);
        AcceptedSplits(p, ts, 0, m, n - 1);
        assert Count(chosen, m, n - 1 + 1) as real <= Capacity(p) + Gain(p, ts[n - 1] - ts[m]);
      }
    }
  }

  // ---- refused hits leave no trace ----

  /** The first n elements of xs that the mask keeps. */
  function Pick<T>(xs: seq<T>, keep: seq<bool>, n: nat): (r: seq<T>)
    requires n <= |xs| && n <= |keep|
    ensures |r| == Count(keep, 0, n)
  {
    if n == 0 then [] else Pick(xs, keep, n - 1) + if keep[n - 1] then [xs[n - 1]] else []
  }

  lemma RefusedIsNoOp(p: Policy, b: Option<Bucket>, now: real)
    requires InRange(p, b) && (b.Some? ==> b.value.updated <= now)
    requires !Admits(Level(p, b, now))
    ensures SameFuture(p, b, Some(After(p, b, now)), now)
  {
    LevelInRange(p, b, now);
    GainGrows(p, 0.0, 0.0);
  }

  lemma SameAfter(p: Policy, a: Option<Bucket>, b: Option<Bucket>, now: real)
    requires SameFuture(p, a, b, now)
    ensures SameFuture(p, Some(After(p, a, now)), Some(After(p, b, now)), now)
  {
  }

  ghost predicate OnlyDropsRefused(p: Policy, ts: seq<real>, keep: seq<bool>)
    requires |keep| == |ts|
  {
    forall i :: 0 <= i < |ts| && !keep[i] ==> !AllowedAt(p, ts, i)
  }

  /** One more hit at the end of the picked run and of the full run. */
  lemma ExtendPicked(p: Policy, us: seq<real>, b: Option<Bucket>, last: real, now: real)
    requires SameFuture(p, StateBefore(p, us, |us|), b, last) && last <= now
    ensures var vs := us + [now];
            && Reports(p, vs, |vs|) == Reports(p, us, |us|) + [Report(p, Level(p, b, now))]
            && SameFuture(p, StateBefore(p, vs, |vs|), Some(After(p, b, now)), now)
  {
    StateOfPrefix(p, us, [now], |us|);
    SameFutureLasts(p, StateBefore(p, us, |us|), b, last, now);
    SameAfter(p, StateBefore(p, us, |us|), b, now);
  }

  /**
   * Deleting any set of refused hits from a run leaves the complete answer of
   * every other hit as it was.
   */
  lemma {:induction false} RefusedLeaveNoTrace(p: Policy, ts: seq<real>, keep: seq<bool>, n: nat)
    requires Nondecreasing(ts) && |keep| == |ts| && n <= |ts|
    requires OnlyDropsRefused(p, ts, keep)
    ensures var us := Pick(ts, keep, n);
            && Reports(p, us, |us|) == Pick(Reports(p, ts, |ts|), keep, n)
            && (n > 0 ==> SameFuture(p, StateBefore(p, us, |us|), StateBefore(p, ts, n), ts[n - 1]))
  {
    if n > 0 {
      RefusedLeaveNoTrace(p, ts, keep, n - 1);
      var us := Pick(ts, keep, n - 1);
      var a, b, now := StateBefore(p, us, |us|), StateBefore(p, ts, n - 1), ts[n - 1];
      var last := if n > 1 then ts[n - 2] else now;
      var answers := Reports(p, ts, |ts|);
      if keep[n - 1] {
        ExtendPicked(p, us, b, last, now);
        assert Pick(ts, keep, n) == us + [now];
        assert Pick(answers, keep, n) == Pick(answers, keep, n - 1) + [Report(p, Level(p, b, now))];
      } else {
        SameFutureLasts(p, a, b, last, now);
        RefusedIsNoOp(p, b, now);
        assert Pick(ts, keep, n) == us;
        assert Pick(answers, keep, n) == Pick(answers, keep, n - 1);
      }
    }
  }

  // ---- what retry_after means ----

  lemma {:induction false} RefusalsFreeze(p: Policy, ts: seq<real>, d: nat, e: nat)
    requires Nondecreasing(ts) && d < e <= |ts|
    requires Accepted(p, ts, d, e) == 0
    ensures SameFuture(p, StateBefore(p, ts, d + 1), StateBefore(p, ts, e), ts[e - 1])
    decreases e
  {
    if d + 1 < e {
      AcceptedSplits(p, ts, d, e - 1, e);
      RefusalsFreeze(p, ts, d, e - 1);
      var a, b := StateBefore(p, ts, d + 1), StateBefore(p, ts, e - 1);
      SameFutureLasts(p, a, b, ts[e - 2], ts[e - 1]);
      assert !AllowedAt(p, ts, e - 1);
      RefusedIsNoOp(p, b, ts[e - 1]);
    }
  }

  lemma WaitingPays(p: Policy, level: real, elapsed: real, second: int)
    requires !Admits(level)
    ensures elapsed >= RetryAfter(p, level) as real ==> level + Gain(p, elapsed) >= 1.0
    ensures 1 <= second < RetryAfter(p, level) && elapsed == second as real ==> level + Gain(p, elapsed) < 1.0
  {
    var wait := RetryAfter(p, level);
    RetryAfterLeast(p, level, 1);
    RetryAfterLeast(p, level, wait);
    if elapsed >= wait as real {
      GainGrows(p, wait as real, elapsed);
    }
    if 1 <= second < wait {
      RetryAfterLeast(p, level, second);
    }
  }

  lemma FrozenLevel(p: Policy, ts: seq<real>, d: nat, e: nat)
    requires Nondecreasing(ts) && d < e < |ts|
    requires Accepted(p, ts, d, e) == 0
    ensures LevelAt(p, ts, e) == Min(Capacity(p), LevelAt(p, ts, d) + Gain(p, ts[e] - ts[d]))
  {
    AcceptedSplits(p, ts, d, d + 1, e);
    assert Accepted(p, ts, d, d + 1) == 0;
    assert !AllowedAt(p, ts, d);
    RefusalsFreeze(p, ts, d, e);
    var b := StateBefore(p, ts, d);
    var a := StateBefore(p, ts, d + 1);
    SameFutureLasts(p, a, StateBefore(p, ts, e), ts[e - 1], ts[e]);
    RefusedIsNoOp(p, b, ts[d]);
    SameFutureLasts(p, b, a, ts[d], ts[e]);
    RefillPathIndependent(p, b, ts[d], ts[e]);
  }

  /**
   * After a refusal at hit d, however many refused polls follow: a hit that
   * waits for the announced time is let through, and a poll at an earlier
   * whole second still finds less than one token.
   */
  lemma RetryAfterHonest(p: Policy, ts: seq<real>, d: nat, e: nat, second: int)
    requires Nondecreasing(ts) && d < e < |ts|
    requires Accepted(p, ts, d, e) == 0
    ensures var wait := Reports(p, ts, |ts|)[d].retryAfter;
            && (ts[e] >= ts[d] + wait as real ==> AllowedAt(p, ts, e) && LevelAt(p, ts, e) >= 1.0)
            && (1 <= second < wait && ts[e] == ts[d] + second as real ==> LevelAt(p, ts, e) < 1.0)
  {
    AcceptedSplits(p, ts, d, d + 1, e);
    assert Accepted(p, ts, d, d + 1) == 0;
    FrozenLevel(p, ts, d, e);
    WaitingPays(p, LevelAt(p, ts, d), ts[e] - ts[d], second);
  }

  // ---- what remaining means ----

  function MinInt(a: int, b: int): int { if a <= b then a else b }

  /**
   * Of n further hits at the very instant of hit d, exactly as many pass as the
   * tokens left, rounded down with the tolerance.
   */
  lemma {:induction false} SameInstant(p: Policy, ts: seq<real>, d: nat, n: nat)
    requires d + n < |ts|
    requires forall k :: d <= k <= d + n ==> ts[k] == ts[d]
    ensures var left := StateBefore(p, ts, d + 1).value.tokens;
            var passed := MinInt(n, (left + EPSILON).Floor);
            && Accepted(p, ts, d + 1, d + 1 + n) == passed
            && StateBefore(p, ts, d + 1 + n).value.tokens == Max(0.0, left - passed as real)
  {
    GainGrows(p, 0.0, 0.0);
    if n > 0 {
      SameInstant(p, ts, d, n - 1);
      LevelInRange(p, StateBefore(p, ts, d + n), ts[d + n]);
    }
  }

  /** So exactly `remaining` hits pass at once, or one more if what is left beyond them is a token but for the tolerance. */
  lemma RemainingMeans(p: Policy, ts: seq<real>, d: nat, n: nat)
    requires d + n < |ts|
    requires forall k :: d <= k <= d + n ==> ts[k] == ts[d]
    ensures var k := Reports(p, ts, |ts|)[d].remaining;
            var left := StateBefore(p, ts, d + 1).value.tokens;
            Accepted(p, ts, d + 1, d + 1 + n) == MinInt(n, if left + 0.000000001 >= k as real + 1.0 then k + 1 else k)
  {
    SameInstant(p, ts, d, n);
  }
}
