/** Routing between the Redis form and the in-process form, and the keys both use. */
module RateLimiter {
  import opened Wrappers
  import opened TokenBucket
  import MemoryStore
  import RedisBucket

  /** The two forms give the same answers, key by key, on every common clock that never runs back. */
  lemma FormsAgree(policy: string -> Policy, hits: seq<MemoryStore.Hit>, gone: seq<bool>, n: nat)
    requires MemoryStore.InOrder(hits) && n < |hits|
    requires var ts := MemoryStore.TimesOf(hits, hits[n].key, n + 1);
             |gone| == |ts| && RedisBucket.RespectsDeadlines(policy(hits[n].key), ts, gone)
    ensures var p, ts := policy(hits[n].key), MemoryStore.TimesOf(hits, hits[n].key, n + 1);
            && |ts| > 0
            && MemoryStore.Answer(policy, hits, n) == Report(p, RedisBucket.RedisLevel(p, ts, gone, |ts| - 1))
  {
    MemoryStore.AnswersAsIfAlone(policy, hits, n);
    MemoryStore.TimesInOrder(hits, hits[n].key, n + 1);
    var ts := MemoryStore.TimesOf(hits, hits[n].key, n + 1);
    RedisBucket.RedisAgrees(policy(hits[n].key), ts, gone, |ts| - 1);
  }

  // ---- keys ----

  function Key(scope: string, identity: string): string {
    "rl:tb:" + scope + ":" + identity
  }

  lemma KeyTail(scope: string, identity: string, scope': string, identity': string)
    ensures Key(scope, identity) == Key(scope', identity') <==> scope + ":" + identity == scope' + ":" + identity'
  {
    var a, b := scope + ":" + identity, scope' + ":" + identity';
    assert Key(scope, identity) == "rl:tb:" + a && Key(scope', identity') == "rl:tb:" + b;
    assert a == ("rl:tb:" + a)[6..] && b == ("rl:tb:" + b)[6..];
  }

  /** The other scope begins with this one and a colon. */
  predicate Shadows(scope: string, scope': string) {
    scope + ":" <= scope'
  }

  /** Two scopes some of whose callers end up in one bucket. */
  ghost predicate ShareABucket(scope: string, scope': string) {
    exists identity, identity' :: Key(scope, identity) == Key(scope', identity')
  }

  /** Keys of which the first scope is no longer than the second. */
  lemma SameKey(scope: string, identity: string, scope': string, identity': string)
    requires Key(scope, identity) == Key(scope', identity') && |scope| <= |scope'|
    ensures (scope == scope' && identity == identity') || Shadows(scope, scope')
  {
    KeyTail(scope, identity, scope', identity');
    var a, b := scope + ":" + identity, scope' + ":" + identity';
    assert a[..|scope|] == scope && b[..|scope'|] == scope';
    if |scope| == |scope'| {
      assert a[|scope| + 1..] == identity && b[|scope'| + 1..] == identity';
    } else {
      assert a[..|scope| + 1] == scope + ":" && scope'[..|scope| + 1] == b[..|scope| + 1];
    }
  }

  lemma ShadowShares(scope: string, scope': string)
    requires Shadows(scope, scope')
    ensures ShareABucket(scope, scope')
  {
    var n := |scope| + 1;
    var identity := scope'[n..] + ":";
    assert scope + ":" == scope'[..n];
    assert scope + ":" + identity == scope' + ":" + "";
    KeyTail(scope, identity, scope', "");
  }

  /** Two scopes share a bucket exactly when one of them begins with the other and a colon. */
  lemma ShareABucketIff(scope: string, scope': string)
    requires scope != scope'
    ensures ShareABucket(scope, scope') <==> Shadows(scope, scope') || Shadows(scope', scope)
  {
    if Shadows(scope, scope') {
      ShadowShares(scope, scope');
    } else if Shadows(scope', scope) {
      ShadowShares(scope', scope);
      var identity', identity :| Key(scope', identity') == Key(scope, identity);
    } else if ShareABucket(scope, scope') {
      var identity, identity' :| Key(scope, identity) == Key(scope', identity');
      if |scope| <= |scope'| {
        SameKey(scope, identity, scope', identity');
      } else {
        SameKey(scope', identity', scope, identity);
      }
    }
  }

  /**
   * Callers share a bucket exactly when scope and identity agree, provided
   * neither scope begins with the other and a colon; an identity may hold
   * colons, as an IPv6 address does.
   */
  lemma KeysSeparate(scope: string, identity: string, scope': string, identity': string)
    requires !Shadows(scope, scope') && !Shadows(scope', scope)
    ensures Key(scope, identity) == Key(scope', identity') <==> scope == scope' && identity == identity'
  {
    if Key(scope, identity) == Key(scope', identity') {
      if scope != scope' {
        ShareABucketIff(scope, scope');
      } else {
        SameKey(scope, identity, scope', identity');
      }
    }
  }

  /** So scopes without colons never do. */
  lemma ShadowedHoldsColon(scope: string, scope': string)
    requires Shadows(scope, scope')
    ensures ':' in scope'
  {
    assert scope'[|scope|] == (scope + ":")[|scope|];
  }

  lemma ColonInScopeCollides()
    ensures Key("poll:u", "1") == Key("poll", "u:1")
  {
    assert "rl:tb:" + "poll:u" + ":" + "1" == "rl:tb:" + "poll" + ":" + "u:1";
  }

  // ---- routing ----

  datatype RateLimitResult = RateLimitResult(allowed: bool, limit: int, remaining: int, retryAfter: int, scope: string)

  /** What asking Redis yields: not set up, no client or a failed call, or the script's three numbers. */
  datatype RedisReply = NotConfigured | Unavailable | Reply(allowed: int, remaining: int, retry: int)

  class Limiter {
    const enabled: bool
    const memory: MemoryStore.MemoryBucket
    var nextFallbackWarning: real

    constructor (enabled: bool)
      ensures this.enabled == enabled && fresh(memory)
      ensures memory.State() == MemoryStore.EMPTY && MemoryStore.NoDebts(memory.State()) && nextFallbackWarning == 0.0
    {
      this.enabled := enabled;
      memory := new MemoryStore.MemoryBucket();
      nextFallbackWarning := 0.0;
    }

    method Check(scope: string, identity: string, limit: int, window: int, reply: RedisReply, now: real)
      returns (r: Result<RateLimitResult, string>, warned: bool)
      requires MemoryStore.NoDebts(memory.State())
      modifies this, memory
      ensures MemoryStore.NoDebts(memory.State())
      // Switched off: everything passes, and nothing is remembered.
      ensures !enabled ==> r == Ok(RateLimitResult(true, limit, limit, 0, scope)) && memory.State() == old(memory.State())
      // A capacity or window that is not positive is an error of the caller.
      ensures enabled ==> (r.Err? <==> limit <= 0 || window <= 0)
      ensures r.Err? ==> memory.State() == old(memory.State())
      // Redis decides alone when it answers.
      ensures r.Ok? && enabled && reply.Reply? ==>
                && r.value == RateLimitResult(reply.allowed != 0, limit, MaxInt(0, reply.remaining), MaxInt(0, reply.retry), scope)
                && memory.State() == old(memory.State())
      // Otherwise the bucket of exactly this scope and identity decides.
      ensures r.Ok? && enabled && !reply.Reply? ==>
                var p: Policy, key := PolicyRecord(limit, window), "rl:tb:" + scope + ":" + identity;
                var o := Report(p, MemoryStore.HitLevel(p, old(memory.State()), key, now));
                && r.value == RateLimitResult(o.allowed, limit, o.remaining, o.retryAfter, scope)
                && MemoryStore.EntryRight(p, old(memory.State()), key, now, memory.State(), o)
                && memory.State() == MemoryStore.AfterHit(p, old(memory.State()), key, now)
      // The fallback is announced at most once a minute.
      ensures warned <==> r.Ok? && enabled && reply.Unavailable? && now >= old(nextFallbackWarning)
      ensures nextFallbackWarning == if warned then now + 60.0 else old(nextFallbackWarning)
    {
      warned := false;
      if !enabled {
        r := Ok(RateLimitResult(true, limit, limit, 0, scope));
        return;
      }
      if limit <= 0 || window <= 0 {
        r := Err("Rate limit capacity and window must be positive");
        return;
      }
      var key := Key(scope, identity);
      if reply != NotConfigured {
        if reply.Reply? {
          r := Ok(RateLimitResult(reply.allowed != 0, limit, MaxInt(0, reply.remaining), MaxInt(0, reply.retry), scope));
          return;
        }
        if now >= nextFallbackWarning {
          warned := true;
          nextFallbackWarning := now + 60.0;
        }
      }
      var result := memory.Hit(key, PolicyRecord(limit, window), now);
      r := Ok(RateLimitResult(result.allowed, limit, result.remaining, result.retryAfter, scope));
    }
  }
}
