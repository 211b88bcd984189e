/**
 * The browser capacity benchmark: slots run in parallel and finish in any
 * order, their samples are pooled and sorted, and latencies are summarised by
 * interpolated percentiles.
 */
module Bench {
  // ---- percentiles ----

  predicate Ascending(v: seq<real>) {
    forall i, j :: 0 <= i <= j < |v| ==> v[i] <= v[j]
  }

  /** Where a percentile falls among n sorted values, counted from 0. */
  function Position(n: nat, pct: real): real
    requires n > 0
  {
    (n - 1) as real * (pct / 100.0)
  }

  function Percentile(v: seq<real>, pct: real): real
    requires 0.0 <= pct <= 100.0
  {
    if v == [] then 0.0
    else if |v| == 1 then v[0]
    else
      var k := Position(|v|, pct);
      PositionInRange(|v|, pct);
      var f := k.Floor;
      var c := if f + 1 <= |v| - 1 then f + 1 else |v| - 1;
      if f == c then v[f] else Lerp(v[f], v[c], k - f as real)
  }

  function Lerp(lo: real, hi: real, t: real): real {
    lo + (hi - lo) * t
  }

  lemma Scale(a: real, s: real, t: real)
    requires a >= 0.0 && s <= t
    ensures a * s <= a * t
  {
    assert a * (t - s) >= 0.0;
    assert a * (t - s) == a * t - a * s;
  }

  lemma LerpBetween(lo: real, hi: real, t: real)
    requires lo <= hi && 0.0 <= t <= 1.0
    ensures lo <= Lerp(lo, hi, t) <= hi
  {
    Scale(hi - lo, 0.0, t);
    Scale(hi - lo, t, 1.0);
  }

  lemma PositionInRange(n: nat, pct: real)
    requires n > 0 && 0.0 <= pct <= 100.0
    ensures 0.0 <= Position(n, pct) <= (n - 1) as real
  {
    Scale((n - 1) as real, 0.0, pct / 100.0);
    Scale((n - 1) as real, pct / 100.0, 1.0);
  }

  lemma PositionGrows(n: nat, p: real, q: real)
    requires n > 0 && p <= q
    ensures Position(n, p) <= Position(n, q)
  {
    Scale((n - 1) as real, p / 100.0, q / 100.0);
  }

  /** A percentile lies between the two samples next to its position. */
  lemma PercentileBetween(v: seq<real>, pct: real)
    requires Ascending(v) && |v| > 0 && 0.0 <= pct <= 100.0
    ensures var f := Position(|v|, pct).Floor;
            && 0 <= f < |v|
            && v[f] <= Percentile(v, pct)
            && Percentile(v, pct) <= if f + 1 < |v| then v[f + 1] else v[f]
  {
    PositionInRange(|v|, pct);
    var k := Position(|v|, pct);
    var f := k.Floor;
    if f + 1 < |v| {
      LerpBetween(v[f], v[f + 1], k - f as real);
    }
  }

  /** Of no samples every percentile is zero, and of one sample it is that sample. */
  lemma PercentileOfFew(v: seq<real>, pct: real)
    requires 0.0 <= pct <= 100.0
    ensures |v| == 0 ==> Percentile(v, pct) == 0.0
    ensures |v| == 1 ==> Percentile(v, pct) == v[0]
  {
  }

  /** Between two neighbouring samples a percentile moves on a straight line, from the one to the other. */
  lemma PercentileInterpolates(v: seq<real>, pct: real, i: nat, t: real)
    requires i + 1 < |v| && 0.0 <= t <= 1.0 && 0.0 <= pct <= 100.0
    requires pct * (|v| - 1) as real == 100.0 * (i as real + t)
    ensures Percentile(v, pct) == v[i] + t * (v[i + 1] - v[i])
  {
    var k := Position(|v|, pct);
    assert k * 100.0 == (|v| - 1) as real * pct;
    assert k == i as real + t;
    PositionInRange(|v|, pct);
    if t == 1.0 {
      assert k.Floor == i + 1;
    } else {
      assert k.Floor == i;
    }
  }

  /** A higher percentage never gives a lower percentile. */
  lemma PercentileMonotone(v: seq<real>, p: real, q: real)
    requires Ascending(v) && 0.0 <= p <= q <= 100.0
    ensures Percentile(v, p) <= Percentile(v, q)
  {
    if |v| > 1 {
      PositionInRange(|v|, p);
      PositionInRange(|v|, q);
      PositionGrows(|v|, p, q);
      PercentileBetween(v, p);
      PercentileBetween(v, q);
      var f, g := Position(|v|, p).Floor, Position(|v|, q).Floor;
      if f == g && f + 1 < |v| {
        Scale(v[f + 1] - v[f], Position(|v|, p) - f as real, Position(|v|, q) - f as real);
      } else if f < g {
        assert v[f + 1] <= v[g];
      }
    }
  }

  /** The whole range: from the least sample at 0 to the greatest at 100. */
  lemma PercentileEnds(v: seq<real>)
    requires |v| > 0
    ensures Percentile(v, 0.0) == v[0] && Percentile(v, 100.0) == v[|v| - 1]
  {
    assert Position(|v|, 0.0) == 0.0;
    assert Position(|v|, 100.0) == (|v| - 1) as real;
    if |v| > 1 {
      assert (v[1] - v[0]) * 0.0 == 0.0;
    }
  }

  // ---- slots ----

  datatype Sample = Sample(slot: nat, iteration: nat, ok: bool, wall: real)

  /** What the i-th fetch of a slot comes to: whether it succeeds and how long it takes. */
  type Fetch = (nat, nat) -> (bool, real)

  /** A slot's first n samples; the slots number their iterations one after the other. */
  function RunSlot(fetch: Fetch, slot: nat, iterations: nat, n: nat): (r: seq<Sample>)
    ensures |r| == n
    ensures forall i :: 0 <= i < n ==>
              r[i] == Sample(slot, slot * iterations + 1 + i, fetch(slot, i).0, fetch(slot, i).1)
  {
    if n == 0 then []
    else
      RunSlot(fetch, slot, iterations, n - 1)
      + [Sample(slot, slot * iterations + 1 + (n - 1), fetch(slot, n - 1).0, fetch(slot, n - 1).1)]
  }

  // ---- pooling ----

  function FlatMap<T, U>(xs: seq<T>, f: T -> seq<U>): seq<U> {
    if xs == [] then [] else f(xs[0]) + FlatMap(xs[1..], f)
  }

  lemma {:induction false} FlatMapConcat<T, U>(a: seq<T>, b: seq<T>, f: T -> seq<U>)
    ensures FlatMap(a + b, f) == FlatMap(a, f) + FlatMap(b, f)
  {
    if a == [] {
      assert a + b == b;
    } else {
      assert (a + b)[1..] == a[1..] + b;
      FlatMapConcat(a[1..], b, f);
    }
  }

  lemma Extract<T>(xs: seq<T>, x: T) returns (k: nat)
    requires x in multiset(xs)
    ensures k < |xs| && xs == xs[..k] + ([x] + xs[k + 1..])
    ensures multiset(xs[..k] + xs[k + 1..]) == multiset(xs) - multiset{x}
  {
    k :| 0 <= k < |xs| && xs[k] == x;
    assert xs == xs[..k] + ([x] + xs[k + 1..]);
  }

  lemma FlatMapExtract<T, U>(before: seq<T>, x: T, after: seq<T>, f: T -> seq<U>)
    ensures multiset(FlatMap(before + ([x] + after), f)) == multiset(f(x)) + multiset(FlatMap(before + after, f))
  {
    FlatMapConcat(before, [x] + after, f);
    FlatMapConcat(before, after, f);
    assert ([x] + after)[1..] == after;
  }

  /** Only what is pooled matters, not the order it comes in. */
  lemma {:induction false} PoolIgnoresOrder<T, U>(a: seq<T>, b: seq<T>, f: T -> seq<U>)
    requires multiset(a) == multiset(b)
    ensures multiset(FlatMap(a, f)) == multiset(FlatMap(b, f))
    decreases |a|
  {
    if a == [] {
      assert |multiset(b)| == 0;
    } else {
      assert a == [a[0]] + a[1..];
      assert a[0] in multiset(a);
      var k := Extract(b, a[0]);
      PoolIgnoresOrder(a[1..], b[..k] + b[k + 1..], f);
      FlatMapExtract(b[..k], a[0], b[k + 1..], f);
    }
  }

  function SlotRun(fetch: Fetch, iterations: nat): nat -> seq<Sample> {
    (slot: nat) => RunSlot(fetch, slot, iterations, iterations)
  }

  /** The samples in the order in which slots finish. */
  function Collect(fetch: Fetch, iterations: nat, order: seq<nat>): seq<Sample> {
    FlatMap(order, SlotRun(fetch, iterations))
  }

  function UpTo(n: nat): (r: seq<nat>)
    ensures |r| == n && forall i :: 0 <= i < n ==> r[i] == i
  {
    seq(n, i => i)
  }

  /** All slots, each once, in whatever order. */
  ghost predicate IsOrder(order: seq<nat>, capacity: nat) {
    multiset(order) == multiset(UpTo(capacity))
  }

  // ---- sorting ----

  ghost predicate SortedBy<T>(leq: (T, T) -> bool, v: seq<T>) {
    forall i, j :: 0 <= i < j < |v| ==> leq(v[i], v[j])
  }

  lemma HeadIsLeast<T>(leq: (T, T) -> bool, v: seq<T>, x: T)
    requires SortedBy(leq, v) && x in multiset(v)
    ensures v[0] == x || leq(v[0], x)
  {
    var i :| 0 <= i < |v| && v[i] == x;
  }

  lemma TailMultiset<T>(v: seq<T>)
    requires v != []
    ensures multiset(v[1..]) == multiset(v) - multiset{v[0]} && v[0] in multiset(v)
  {
    assert v == [v[0]] + v[1..];
  }

  /** Sorting has one result: elements in order, with the same multiplicities, are the same sequence. */
  lemma {:induction false} SortedUnique<T>(leq: (T, T) -> bool, a: seq<T>, b: seq<T>)
    requires multiset(a) == multiset(b) && SortedBy(leq, a) && SortedBy(leq, b)
    requires forall i, j :: 0 <= i < |a| && 0 <= j < |b| && leq(a[i], b[j]) && leq(b[j], a[i]) ==> a[i] == b[j]
    ensures a == b
    decreases |a|
  {
    assert |a| == |multiset(a)| == |multiset(b)| == |b|;
    if a != [] {
      TailMultiset(a);
      TailMultiset(b);
      HeadIsLeast(leq, b, a[0]);
      HeadIsLeast(leq, a, b[0]);
      assert a[0] == b[0];
      SortedUnique(leq, a[1..], b[1..]);
      assert a == [a[0]] + a[1..] && b == [b[0]] + b[1..];
    }
  }

  predicate KeyOrder(a: Sample, b: Sample) {
    a.slot < b.slot || (a.slot == b.slot && a.iteration <= b.iteration)
  }

  lemma CollectNext(fetch: Fetch, iterations: nat, n: nat)
    ensures Collect(fetch, iterations, UpTo(n + 1))
         == Collect(fetch, iterations, UpTo(n)) + RunSlot(fetch, n, iterations, iterations)
  {
    var f := SlotRun(fetch, iterations);
    assert UpTo(n + 1) == UpTo(n) + [n];
    FlatMapConcat(UpTo(n), [n], f);
    assert FlatMap([n], f) == f(n) + FlatMap([n][1..], f) == f(n);
  }

  /** Slot after slot, the j-th sample is iteration j + 1. */
  lemma {:induction false} CanonicalSamples(fetch: Fetch, iterations: nat, capacity: nat)
    ensures var all := Collect(fetch, iterations, UpTo(capacity));
            && |all| == capacity * iterations
            && (forall j :: 0 <= j < |all| ==> all[j].iteration == j + 1 && all[j].slot < capacity)
            && SortedBy(KeyOrder, all)
  {
    if capacity > 0 {
      CanonicalSamples(fetch, iterations, capacity - 1);
      CollectNext(fetch, iterations, capacity - 1);
    }
  }

  lemma SameIterationSameSample(all: seq<Sample>, s: Sample, j: nat)
    requires forall k :: 0 <= k < |all| ==> all[k].iteration == k + 1
    requires s in multiset(all) && j < |all| && s.iteration == all[j].iteration
    ensures s == all[j]
  {
    var k :| 0 <= k < |all| && all[k] == s;
  }

  /**
   * Whatever order the slots finish in, sorting the pooled samples by slot and
   * iteration gives iterations 1, 2, ... up to the last, slot after slot.
   */
  lemma SamplesIgnoreSchedule(fetch: Fetch, iterations: nat, capacity: nat, order: seq<nat>, sorted: seq<Sample>)
    requires IsOrder(order, capacity)
    requires multiset(sorted) == multiset(Collect(fetch, iterations, order)) && SortedBy(KeyOrder, sorted)
    ensures sorted == Collect(fetch, iterations, UpTo(capacity))
    ensures |sorted| == capacity * iterations && forall j :: 0 <= j < |sorted| ==> sorted[j].iteration == j + 1
  {
    var all := Collect(fetch, iterations, UpTo(capacity));
    PoolIgnoresOrder(order, UpTo(capacity), SlotRun(fetch, iterations));
    CanonicalSamples(fetch, iterations, capacity);
    forall i, j | 0 <= i < |sorted| && 0 <= j < |all| && KeyOrder(sorted[i], all[j]) && KeyOrder(all[j], sorted[i])
      ensures sorted[i] == all[j]
    {
      assert sorted[i] in multiset(sorted);
      SameIterationSameSample(all, sorted[i], j);
    }
    SortedUnique(KeyOrder, sorted, all);
  }

  // ---- latencies and totals ----

  function OkWall(s: Sample): seq<real> { if s.ok then [s.wall] else [] }

  function OkWalls(samples: seq<Sample>): seq<real> {
    FlatMap(samples, OkWall)
  }

  predicate AtMost(a: real, b: real) { a <= b }

  /**
   * The sorted latencies do not depend on the schedule either, nor does any
   * percentile; and the median, the 95th percentile and the maximum are in order.
   */
  lemma LatenciesIgnoreSchedule(fetch: Fetch, iterations: nat, capacity: nat, order: seq<nat>, walls: seq<real>, others: seq<real>)
    requires IsOrder(order, capacity)
    requires multiset(walls) == multiset(OkWalls(Collect(fetch, iterations, order))) && Ascending(walls)
    requires multiset(others) == multiset(OkWalls(Collect(fetch, iterations, UpTo(capacity)))) && Ascending(others)
    ensures walls == others
    ensures walls != [] ==> Percentile(walls, 50.0) <= Percentile(walls, 95.0) <= walls[|walls| - 1]
  {
    PoolIgnoresOrder(order, UpTo(capacity), SlotRun(fetch, iterations));
    PoolIgnoresOrder(Collect(fetch, iterations, order), Collect(fetch, iterations, UpTo(capacity)), OkWall);
    SortedUnique(AtMost, walls, others);
    PercentileMonotone(walls, 50.0, 95.0);
    if walls != [] {
      PercentileMonotone(walls, 95.0, 100.0);
      PercentileEnds(walls);
    }
  }

  function SlotOk(fetch: Fetch, iterations: nat, slot: nat): nat {
    |OkWalls(RunSlot(fetch, slot, iterations, iterations))|
  }

  /** The sum of the slots' own counts, in whatever order the slots are listed. */
  function SumOk(fetch: Fetch, iterations: nat, order: seq<nat>): nat {
    if order == [] then 0 else SlotOk(fetch, iterations, order[0]) + SumOk(fetch, iterations, order[1..])
  }

  /** Each slot's counts of fetches and of successes add up to the report's. */
  lemma {:induction false} SlotTotals(fetch: Fetch, iterations: nat, order: seq<nat>)
    ensures SumOk(fetch, iterations, order) == |OkWalls(Collect(fetch, iterations, order))|
    ensures |Collect(fetch, iterations, order)| == |order| * iterations
  {
    if order != [] {
      SlotTotals(fetch, iterations, order[1..]);
      FlatMapConcat(RunSlot(fetch, order[0], iterations, iterations), Collect(fetch, iterations, order[1..]), OkWall);
    }
  }

  // ---- the run itself ----

  method MeasureSlot(fetch: Fetch, slot: nat, iterations: nat, start: nat) returns (samples: seq<Sample>, okCount: nat)
    requires start == slot * iterations + 1
    ensures samples == RunSlot(fetch, slot, iterations, iterations) && okCount == |OkWalls(samples)|
    ensures okCount == Successes(fetch, slot, iterations)
  {
    SlotCountsSuccesses(fetch, slot, iterations, iterations);
    samples, okCount := [], 0;
    for i := 0 to iterations
      invariant samples == RunSlot(fetch, slot, iterations, i)
      invariant okCount == |OkWalls(samples)|
    {
      var (ok, wall) := fetch(slot, i);
      var s := Sample(slot, start + i, ok, wall);
      FlatMapConcat(samples, [s], OkWall);
      assert [s][1..] == [];
      samples := samples + [s];
      okCount := okCount + if ok then 1 else 0;
    }
  }

  /**
   * `run_capacity`, up to the sort: the pool is in completion order, but its
   * totals are those of the slots, whatever that order is.
   */
  method RunCapacity(fetch: Fetch, capacity: nat, iterations: nat, order: seq<nat>)
    returns (pool: seq<Sample>, totalFetches: nat, totalOk: nat, totalErrors: nat)
    requires IsOrder(order, capacity)
    ensures pool == Collect(fetch, iterations, order)
    ensures totalFetches == capacity * iterations == totalOk + totalErrors
    ensures totalOk == SumOk(fetch, iterations, UpTo(capacity)) == AllSuccesses(fetch, iterations, capacity)
  {
    SumOkIsSuccesses(fetch, iterations, capacity);
    pool := [];
    totalOk := 0;
    for i := 0 to |order|
      invariant Collect(fetch, iterations, order) == pool + Collect(fetch, iterations, order[i..])
      invariant totalOk == |OkWalls(pool)|
    {
      var slot := order[i];
      var mine, ok := MeasureSlot(fetch, slot, iterations, slot * iterations + 1);
      assert order[i..][1..] == order[i + 1..];
      FlatMapConcat(pool, mine, OkWall);
      pool, totalOk := pool + mine, totalOk + ok;
    }
    assert order[|order|..] == [];
    assert pool == Collect(fetch, iterations, order);
    TotalsIgnoreSchedule(fetch, iterations, capacity, order);
    OkAtMostAll(pool);
    totalFetches := |pool|;
    totalErrors := totalFetches - totalOk;
  }

  lemma TotalsIgnoreSchedule(fetch: Fetch, iterations: nat, capacity: nat, order: seq<nat>)
    requires IsOrder(order, capacity)
    ensures |Collect(fetch, iterations, order)| == capacity * iterations
    ensures |OkWalls(Collect(fetch, iterations, order))| == SumOk(fetch, iterations, UpTo(capacity))
  {
    var a, b := Collect(fetch, iterations, order), Collect(fetch, iterations, UpTo(capacity));
    PoolIgnoresOrder(order, UpTo(capacity), SlotRun(fetch, iterations));
    PoolIgnoresOrder(a, b, OkWall);
    assert |multiset(a)| == |multiset(b)| && |multiset(OkWalls(a))| == |multiset(OkWalls(b))|;
    SlotTotals(fetch, iterations, UpTo(capacity));
  }

  /** How many of a slot's first n fetches succeed. */
  function Successes(fetch: Fetch, slot: nat, n: nat): nat {
    if n == 0 then 0 else Successes(fetch, slot, n - 1) + if fetch(slot, n - 1).0 then 1 else 0
  }

  function AllSuccesses(fetch: Fetch, iterations: nat, slots: nat): nat {
    if slots == 0 then 0 else AllSuccesses(fetch, iterations, slots - 1) + Successes(fetch, slots - 1, iterations)
  }

  lemma {:induction false} SlotCountsSuccesses(fetch: Fetch, slot: nat, iterations: nat, n: nat)
    ensures |OkWalls(RunSlot(fetch, slot, iterations, n))| == Successes(fetch, slot, n)
  {
    if n > 0 {
      var s := Sample(slot, slot * iterations + 1 + (n - 1), fetch(slot, n - 1).0, fetch(slot, n - 1).1);
      SlotCountsSuccesses(fetch, slot, iterations, n - 1);
      FlatMapConcat(RunSlot(fetch, slot, iterations, n - 1), [s], OkWall);
      assert [s][1..] == [];
    }
  }

  lemma {:induction false} SumOkMore(fetch: Fetch, iterations: nat, order: seq<nat>, slot: nat)
    ensures SumOk(fetch, iterations, order + [slot]) == SumOk(fetch, iterations, order) + SlotOk(fetch, iterations, slot)
  {
    if order == [] {
      assert order + [slot] == [slot];
      assert [slot][1..] == [];
    } else {
      assert (order + [slot])[1..] == order[1..] + [slot];
      SumOkMore(fetch, iterations, order[1..], slot);
    }
  }

  /** The slots' own counts are their successful fetches. */
  lemma {:induction false} SumOkIsSuccesses(fetch: Fetch, iterations: nat, capacity: nat)
    ensures SumOk(fetch, iterations, UpTo(capacity)) == AllSuccesses(fetch, iterations, capacity)
  {
    if capacity > 0 {
      SumOkIsSuccesses(fetch, iterations, capacity - 1);
      SlotCountsSuccesses(fetch, capacity - 1, iterations, iterations);
      assert UpTo(capacity) == UpTo(capacity - 1) + [capacity - 1];
      SumOkMore(fetch, iterations, UpTo(capacity - 1), capacity - 1);
    }
  }

  /** And the latencies are those of the successful ones, each as often as it was measured. */
  lemma {:induction false} LatencyOfSuccess(samples: seq<Sample>, wall: real)
    ensures multiset(OkWalls(samples))[wall] == CountWall(samples, wall)
  {
    if samples != [] {
      LatencyOfSuccess(samples[1..], wall);
    }
  }

  function CountWall(samples: seq<Sample>, wall: real): nat {
    if samples == [] then 0
    else (if samples[0].ok && samples[0].wall == wall then 1 else 0) + CountWall(samples[1..], wall)
  }

  lemma {:induction false} OkAtMostAll(samples: seq<Sample>)
    ensures |OkWalls(samples)| <= |samples|
  {
    if samples != [] {
      OkAtMostAll(samples[1..]);
    }
  }
}
