/**
 * The in-process limiter's dictionary of buckets: many keys, one periodic sweep.
 * The sweep drops idle entries; no answer can tell.
 */
module MemoryStore {
  import opened Wrappers
  import opened Basics
  import opened TokenBucket

  const SWEEP_SECONDS: real := 60.0

  datatype Entry = Entry(bucket: Bucket, expires: real)

  datatype Memory = Memory(entries: map<string, Entry>, nextCleanup: real)

  datatype Hit = Hit(key: string, time: real)

  const EMPTY: Memory := Memory(map[], 0.0)

  function Sweep(m: Memory, now: real): Memory {
    if now >= m.nextCleanup then
      Memory(map k | k in m.entries && m.entries[k].expires > now :: m.entries[k], now + SWEEP_SECONDS)
    else m
  }

  function Find(m: Memory, key: string): Option<Bucket> {
    if key in m.entries then Some(m.entries[key].bucket) else None
  }

  /** What a hit finds: the dictionary is swept first. */
  function HitLevel(p: Policy, m: Memory, key: string, now: real): real {
    Level(p, Find(Sweep(m, now), key), now)
  }

  function AfterHit(p: Policy, m: Memory, key: string, now: real): Memory {
    var swept := Sweep(m, now);
    var b := After(p, Find(swept, key), now);
    Memory(swept.entries[key := Entry(b, now + p.window as real)], swept.nextCleanup)
  }

  // ---- runs over many keys ----

  function MemoryBefore(policy: string -> Policy, hits: seq<Hit>, n: nat): Memory
    requires n <= |hits|
  {
    if n == 0 then EMPTY
    else
      var h := hits[n - 1];
      AfterHit(policy(h.key), MemoryBefore(policy, hits, n - 1), h.key, h.time)
  }

  function Answer(policy: string -> Policy, hits: seq<Hit>, n: nat): Outcome
    requires n < |hits|
  {
    var h := hits[n];
    var p := policy(h.key);
    Report(p, HitLevel(p, MemoryBefore(policy, hits, n), h.key, h.time))
  }

  /** The times of the first n hits that fall on `key`: the run that key alone would see. */
  function TimesOf(hits: seq<Hit>, key: string, n: nat): seq<real>
    requires n <= |hits|
  {
    if n == 0 then []
    else TimesOf(hits, key, n - 1) + if hits[n - 1].key == key then [hits[n - 1].time] else []
  }

  predicate InOrder(hits: seq<Hit>) {
    forall i, j :: 0 <= i < j < |hits| ==> hits[i].time <= hits[j].time
  }

  lemma {:induction false} TimesInOrder(hits: seq<Hit>, key: string, n: nat)
    requires InOrder(hits) && n <= |hits|
    ensures var ts := TimesOf(hits, key, n);
            Nondecreasing(ts) && forall i :: 0 <= i < |ts| ==> ts[i] <= hits[n - 1].time
  {
    if n > 0 {
      TimesInOrder(hits, key, n - 1);
    }
  }

  /** The bucket that only this key's hits ever touched and that nothing ever dropped. */
  function Alone(policy: string -> Policy, hits: seq<Hit>, key: string, n: nat): Option<Bucket>
    requires n <= |hits|
  {
    var ts := TimesOf(hits, key, n);
    StateBefore(policy(key), ts, |ts|)
  }

  /** The dictionary and the bucket on its own cannot be told apart through `key`. */
  ghost predicate Tracks(policy: string -> Policy, hits: seq<Hit>, n: nat, m: Memory, key: string, now: real)
    requires n <= |hits|
  {
    var p := policy(key);
    && InRange(p, Find(m, key))
    && (key in m.entries ==> m.entries[key].expires == m.entries[key].bucket.updated + p.window as real)
    && SameFuture(p, Find(m, key), Alone(policy, hits, key, n), now)
  }

  lemma SweepKeepsTrack(policy: string -> Policy, hits: seq<Hit>, n: nat, m: Memory, key: string, now: real)
    requires n <= |hits| && Tracks(policy, hits, n, m, key, now)
    ensures Tracks(policy, hits, n, Sweep(m, now), key, now)
  {
    if key in m.entries && key !in Sweep(m, now).entries {
      IdleWindowRefills(policy(key), m.entries[key].bucket, now);
    }
  }

  lemma HitKeepsTrack(policy: string -> Policy, hits: seq<Hit>, n: nat, m: Memory, key: string)
    requires n < |hits|
    requires Tracks(policy, hits, n, m, key, hits[n].time)
    ensures var h := hits[n];
            Tracks(policy, hits, n + 1, AfterHit(policy(h.key), m, h.key, h.time), key, h.time)
  {
    var h := hits[n];
    var p := policy(key);
    SweepKeepsTrack(policy, hits, n, m, key, h.time);
    if h.key == key {
      var ts := TimesOf(hits, key, n);
      StateOfPrefix(p, ts, [h.time], |ts|);
      assert TimesOf(hits, key, n + 1) == ts + [h.time];
      LevelInRange(p, Find(Sweep(m, h.time), key), h.time);
      assert Alone(policy, hits, key, n + 1) == Some(After(p, Alone(policy, hits, key, n), h.time));
    } else {
      assert TimesOf(hits, key, n + 1) == TimesOf(hits, key, n);
      assert Find(AfterHit(policy(h.key), m, h.key, h.time), key) == Find(Sweep(m, h.time), key);
    }
  }

  lemma {:induction false} RunKeepsTrack(policy: string -> Policy, hits: seq<Hit>, n: nat, key: string, now: real)
    requires InOrder(hits) && n <= |hits|
    requires n > 0 ==> hits[n - 1].time <= now
    ensures Tracks(policy, hits, n, MemoryBefore(policy, hits, n), key, now)
  {
    if n > 0 {
      var h, m := hits[n - 1], MemoryBefore(policy, hits, n - 1);
      RunKeepsTrack(policy, hits, n - 1, key, h.time);
      HitKeepsTrack(policy, hits, n - 1, m, key);
      SameFutureLasts(policy(key), Find(MemoryBefore(policy, hits, n), key), Alone(policy, hits, key, n), h.time, now);
    }
  }

  /**
   * Forgetting is invisible and keys are independent: in any interleaving of
   * hits on any keys, each answer is the one the key's own hits would have got
   * from a bucket that nothing else touches and that is never swept.
   */
  lemma AnswersAsIfAlone(policy: string -> Policy, hits: seq<Hit>, n: nat)
    requires InOrder(hits) && n < |hits|
    ensures var key := hits[n].key;
            var ts := TimesOf(hits, key, n + 1);
            && |ts| > 0
            && Answer(policy, hits, n) == Reports(policy(key), ts, |ts|)[|ts| - 1]
  {
    var h, m := hits[n], MemoryBefore(policy, hits, n);
    var ts := TimesOf(hits, h.key, n);
    RunKeepsTrack(policy, hits, n, h.key, h.time);
    SweepKeepsTrack(policy, hits, n, m, h.key, h.time);
    StateOfPrefix(policy(h.key), ts, [h.time], |ts|);
    var us := TimesOf(hits, h.key, n + 1);
    assert us == ts + [h.time];
    assert LevelAt(policy(h.key), us, |ts|) == Level(policy(h.key), Alone(policy, hits, h.key, n), h.time);
  }

  /** Whatever the other keys do, the same hits on `key` get the same answers. */
  lemma OtherKeysInvisible(policy: string -> Policy, some: seq<Hit>, others: seq<Hit>, n: nat, k: nat)
    requires InOrder(some) && InOrder(others) && n < |some| && k < |others|
    requires some[n].key == others[k].key
    requires TimesOf(some, some[n].key, n + 1) == TimesOf(others, some[n].key, k + 1)
    ensures Answer(policy, some, n) == Answer(policy, others, k)
  {
    AnswersAsIfAlone(policy, some, n);
    AnswersAsIfAlone(policy, others, k);
  }

  /** In every run, each hit is right for what its key's entry held and holds. */
  lemma EveryAnswerRight(policy: string -> Policy, hits: seq<Hit>, n: nat)
    requires InOrder(hits) && n < |hits|
    ensures var h, m, m' := hits[n], MemoryBefore(policy, hits, n), MemoryBefore(policy, hits, n + 1);
            EntryRight(policy(h.key), m, h.key, h.time, m', Answer(policy, hits, n))
  {
    var h, m := hits[n], MemoryBefore(policy, hits, n);
    RunKeepsTrack(policy, hits, n, h.key, h.time);
    HitAnswers(policy(h.key), m, h.key, h.time);
  }

  /** What an entry must come to, whether the sweep has left it or not, and what must be answered. */
  ghost predicate EntryRight(p: Policy, m: Memory, key: string, now: real, m': Memory, r: Outcome) {
    && key in m'.entries && m'.entries[key].expires == now + p.window as real
    && HitRight(p, if Kept(m, key, now) then Some(m.entries[key].bucket) else None, now, m'.entries[key].bucket, r)
  }

  /** What the sweep, once a minute, leaves of a dictionary. */
  predicate Kept(m: Memory, key: string, now: real) {
    key in m.entries && (now < m.nextCleanup || m.entries[key].expires > now)
  }

  predicate NoDebts(m: Memory) {
    forall k :: k in m.entries ==> m.entries[k].bucket.tokens >= 0.0
  }

  lemma HitAnswers(p: Policy, m: Memory, key: string, now: real)
    requires NoDebt(Find(m, key))
    ensures EntryRight(p, m, key, now, AfterHit(p, m, key, now), Report(p, HitLevel(p, m, key, now)))
  {
    HitIsRight(p, Find(Sweep(m, now), key), now);
  }

  /** What a hit does to the dictionary beyond its own entry. */
  lemma OthersAfterHit(p: Policy, m: Memory, key: string, now: real, other: string)
    requires other != key
    ensures var m' := AfterHit(p, m, key, now);
            && (other in m'.entries <==> Kept(m, other, now))
            && (other in m'.entries ==> m'.entries[other] == m.entries[other])
            && m'.nextCleanup == if now >= m.nextCleanup then now + 60.0 else m.nextCleanup
  {
  }

  // ---- nothing idle is kept for long ----

  ghost predicate Fresh(policy: string -> Policy, m: Memory, now: real) {
    && now < m.nextCleanup <= now + SWEEP_SECONDS
    && forall k :: k in m.entries ==>
        && m.entries[k].bucket.updated <= now
        && m.nextCleanup - SWEEP_SECONDS - policy(k).window as real < m.entries[k].bucket.updated
        && m.entries[k].expires == m.entries[k].bucket.updated + policy(k).window as real
  }

  lemma HitKeepsFresh(policy: string -> Policy, m: Memory, h: Hit, before: real)
    requires Fresh(policy, m, before) && before <= h.time
    ensures Fresh(policy, AfterHit(policy(h.key), m, h.key, h.time), h.time)
  {
  }

  /**
   * After each hit, every entry that is still kept was itself hit within its
   * window and one sweep period. The clock starts at or after zero, where the
   * first sweep is due.
   */
  lemma {:induction false} RetainedRecently(policy: string -> Policy, hits: seq<Hit>, n: nat)
    requires InOrder(hits) && 0 < n <= |hits| && hits[0].time >= 0.0
    ensures var m, now := MemoryBefore(policy, hits, n), hits[n - 1].time;
            && Fresh(policy, m, now)
            && forall k :: k in m.entries ==>
                now - policy(k).window as real - 60.0 < m.entries[k].bucket.updated <= now
  {
    if n == 1 {
      assert MemoryBefore(policy, hits, 0) == EMPTY;
    } else {
      RetainedRecently(policy, hits, n - 1);
      HitKeepsFresh(policy, MemoryBefore(policy, hits, n - 1), hits[n - 1], hits[n - 2].time);
    }
  }

  // ---- the mutable form ----

  class MemoryBucket {
    var buckets: map<string, Entry>
    var nextCleanup: real

    function State(): Memory
      reads this
    {
      Memory(buckets, nextCleanup)
    }

    constructor ()
      ensures State() == EMPTY && NoDebts(State())
    {
      buckets, nextCleanup := map[], 0.0;
    }

    method Hit(key: string, p: Policy, now: real) returns (r: Outcome)
      modifies this
      requires NoDebts(State())
      ensures NoDebts(State())
      ensures r == Report(p, HitLevel(p, old(State()), key, now))
      ensures State() == AfterHit(p, old(State()), key, now)
      ensures EntryRight(p, old(State()), key, now, State(), r)
    {
      if now >= nextCleanup {
        buckets := map k | k in buckets && buckets[k].expires > now :: buckets[k];
        nextCleanup := now + SWEEP_SECONDS;
      }
      var tokens, updated := p.limit as real, now;
      if key in buckets {
        tokens, updated := buckets[key].bucket.tokens, buckets[key].bucket.updated;
      }
      var rate := p.limit as real / p.window as real;
      ghost var level := HitLevel(p, old(State()), key, now);
      assert buckets == Sweep(old(State()), now).entries;
      FlowIsGain(p, Max(0.0, now - updated), rate);
      tokens := Min(p.limit as real, tokens + Max(0.0, now - updated) * rate);
      assert tokens == level by {
        GainGrows(p, 0.0, 0.0);
      }
      var allowed := tokens >= 1.0 - EPSILON;
      if allowed {
        tokens := Max(0.0, tokens - 1.0);
      }
      buckets := buckets[key := Entry(Bucket(tokens, now), now + p.window as real)];
      r := Outcome(allowed, MaxInt(0, tokens.Floor), if allowed then 0 else MaxInt(1, Ceil((1.0 - tokens) / rate)));
      HitAnswers(p, old(State()), key, now);
    }
  }
}
