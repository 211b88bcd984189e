/**
 * Matching one reference product across stores: every store is searched with
 * one query after another, candidates are scraped and scored, the best hit of
 * each store is kept, and a barcode learned on the way changes later searches.
 *
 * Searching, scraping and scoring are arbitrary: their results may depend on
 * everything they are given and on how many calls were made before.
 */
module MatchLoop {
  import opened Wrappers

  // ---- what the loop works on ----

  datatype Decision = AutoMatch | Review | Reject

  datatype Product = Product(store: string, url: string, gtin: string)

  /** A barcode is the empty string when there is none. */
  datatype Identity = Identity(title: string, gtin: string)

  datatype Score = Score(decision: Decision, confidence: real)

  datatype Hit = Hit(store: string, decision: Decision, confidence: real, query: string, product: Product)

  datatype Trusted = Trusted(gtin: string, source: string)

  datatype Search = Candidates(urls: seq<string>) | RequestFailed(code: string) | ParseFailed

  datatype Error = Error(store: string, code: string)

  datatype World = World(
    supports: string -> bool,
    search: (string, string, nat) -> Search,
    isSelf: string -> bool,
    scrape: (string, nat) -> Option<Product>,
    score: (Identity, Product) -> Score,
    queriesFor: Identity -> seq<string>,
    normalize: string -> string,
    brandsAgree: (Identity, Product) -> bool)

  const UNSUPPORTED := "SEARCH_UNSUPPORTED"

  /** What the loop carries from one candidate to the next. */
  datatype Progress = Progress(identity: Identity, queries: seq<string>, learned: Option<Trusted>, calls: nat)

  // ---- learning ----

  /**
   * Whether some barcode can be trusted, given one automatic match: those seen
   * are the reference's own and, if the brands agree, the product's; there must
   * be one, and they must not differ.
   */
  predicate Trusts(w: World, identity: Identity, product: Product) {
    var own, cand := w.normalize(identity.gtin), w.normalize(product.gtin);
    if cand == "" || !w.brandsAgree(identity, product) then own != ""
    else own == "" || own == cand
  }

  function MaybeLearn(w: World, current: Option<Trusted>, identity: Identity, product: Product): Option<Trusted> {
    var cand := w.normalize(product.gtin);
    if cand == "" || !Trusts(w, identity, product) then current
    else if current == None then Some(Trusted(cand, "auto_match:" + product.store))
    else if current.value.gtin == cand || current.value.source == "reference" then current
    else None
  }

  function Learn(w: World, g: Progress, product: Product): Progress {
    var learned := MaybeLearn(w, g.learned, g.identity, product);
    if learned.Some? && g.identity.gtin == "" then
      var identity := g.identity.(gtin := learned.value.gtin);
      g.(identity := identity, queries := w.queriesFor(identity), learned := learned)
    else
      g.(learned := learned)
  }

  // ---- one candidate, one query, one store ----

  /** At most one hit comes of a candidate. */
  function Consider(w: World, g: Progress, query: string, url: string): (Progress, seq<Hit>) {
    if w.isSelf(url) then (g, [])
    else
      var g' := g.(calls := g.calls + 1);
      match w.scrape(url, g.calls)
      case None => (g', [])
      case Some(product) =>
        var s := w.score(g.identity, product);
        if s.decision == Reject then (g', [])
        else
          var hit := Hit(product.store, s.decision, s.confidence, query, product);
          (if s.decision == AutoMatch then Learn(w, g', product) else g', [hit])
  }

  /** The first n candidates of one search, in order. */
  function ConsiderAll(w: World, g: Progress, query: string, urls: seq<string>, n: nat): (Progress, seq<Hit>)
    requires n <= |urls|
  {
    if n == 0 then (g, [])
    else
      var (before, hits) := ConsiderAll(w, g, query, urls, n - 1);
      var (after, more) := Consider(w, before, query, urls[n - 1]);
      (after, hits + more)
  }

  predicate HasAuto(hits: seq<Hit>) {
    exists i :: 0 <= i < |hits| && hits[i].decision == AutoMatch
  }

  lemma AutoOfMore(hits: seq<Hit>, hit: Hit)
    ensures HasAuto(hits + [hit]) <==> HasAuto(hits) || hit.decision == AutoMatch
  {
    assert (hits + [hit])[|hits|] == hit;
    assert forall k :: 0 <= k < |hits| ==> (hits + [hit])[k] == hits[k];
  }

  /** What a store's queries have come to so far. */
  datatype Found = Found(progress: Progress, hits: seq<Hit>, error: Option<Error>, stop: bool)

  function RunQuery(w: World, store: string, f: Found, query: string): Found {
    var g := f.progress.(calls := f.progress.calls + 1);
    match w.search(store, query, f.progress.calls)
    case RequestFailed(code) => Found(g, f.hits, Some(Error(store, code)), code == UNSUPPORTED)
    case ParseFailed => Found(g, f.hits, Some(Error(store, "PARSE_ERROR")), false)
    case Candidates(urls) =>
      var (after, hits) := ConsiderAll(w, g, query, urls, |urls|);
      Found(after, f.hits + hits, f.error, HasAuto(hits))
  }

  /** The first n queries, one after the other, without ever stopping early. */
  function RunQueries(w: World, store: string, g: Progress, queries: seq<string>, n: nat): Found
    requires n <= |queries|
  {
    if n == 0 then Found(g, [], None, false)
    else RunQuery(w, store, RunQueries(w, store, g, queries, n - 1), queries[n - 1])
  }

  /** How many queries a store gets: up to and including the first that says stop. */
  function Needed(w: World, store: string, g: Progress, queries: seq<string>, n: nat): (k: nat)
    requires n <= |queries|
    ensures k <= n
    ensures forall i :: 0 < i < k ==> !RunQueries(w, store, g, queries, i).stop
    ensures k < n ==> k > 0 && RunQueries(w, store, g, queries, k).stop
  {
    if n == 0 then 0
    else
      var k := Needed(w, store, g, queries, n - 1);
      if k < n - 1 || (k > 0 && RunQueries(w, store, g, queries, k).stop) then k else n
  }

  function SearchStore(w: World, store: string, g: Progress): Found {
    RunQueries(w, store, g, g.queries, Needed(w, store, g, g.queries, |g.queries|))
  }

  // ---- the best hit ----

  function Better(best: Option<Hit>, hit: Hit): Option<Hit> {
    if best == None || hit.confidence > best.value.confidence then Some(hit) else best
  }

  function BestFrom(best: Option<Hit>, hits: seq<Hit>): Option<Hit> {
    if hits == [] then best else Better(BestFrom(best, hits[..|hits| - 1]), hits[|hits| - 1])
  }

  function Best(hits: seq<Hit>): Option<Hit> {
    BestFrom(None, hits)
  }

  ghost predicate IsFirstHighest(hits: seq<Hit>, k: nat) {
    && k < |hits|
    && (forall i :: 0 <= i < |hits| ==> hits[i].confidence <= hits[k].confidence)
    && (forall i :: 0 <= i < k ==> hits[i].confidence < hits[k].confidence)
  }

  /** The hit that is kept is the first among those of highest confidence. */
  lemma {:induction false} BestIsFirstHighest(hits: seq<Hit>) returns (k: nat)
    requires hits != []
    ensures IsFirstHighest(hits, k) && Best(hits) == Some(hits[k])
  {
    var last := |hits| - 1;
    assert Best(hits) == Better(Best(hits[..last]), hits[last]);
    if last == 0 {
      k := 0;
    } else {
      k := BestIsFirstHighest(hits[..last]);
      if hits[last].confidence > hits[k].confidence {
        k := last;
      }
    }
  }

  lemma FirstHighestUnique(hits: seq<Hit>, k: nat)
    requires IsFirstHighest(hits, k)
    ensures Best(hits) == Some(hits[k])
  {
    var j := BestIsFirstHighest(hits);
    assert hits[j].confidence == hits[k].confidence;
  }

  lemma BestOfMore(best: Option<Hit>, hits: seq<Hit>, hit: Hit)
    ensures BestFrom(best, hits + [hit]) == Better(BestFrom(best, hits), hit)
  {
    assert (hits + [hit])[..|hits|] == hits;
  }

  lemma {:induction false} BestContinues(sofar: seq<Hit>, hits: seq<Hit>)
    ensures BestFrom(Best(sofar), hits) == Best(sofar + hits)
  {
    if hits == [] {
      assert sofar + hits == sofar;
    } else {
      var n := |hits| - 1;
      BestContinues(sofar, hits[..n]);
      BestOfMore(None, sofar + hits[..n], hits[n]);
      assert sofar + hits == sofar + hits[..n] + [hits[n]];
    }
  }

  // ---- all stores ----

  datatype StoreResult = StoreResult(store: string, supported: bool, hits: seq<Hit>, error: Option<Error>)

  datatype Run = Run(progress: Progress, results: seq<StoreResult>)

  function RunStore(w: World, r: Run, store: string): Run {
    if !w.supports(store) then
      r.(results := r.results + [StoreResult(store, false, [], Some(Error(store, UNSUPPORTED)))])
    else
      var f := SearchStore(w, store, r.progress);
      Run(f.progress, r.results + [StoreResult(store, true, f.hits, f.error)])
  }

  function RunStores(w: World, g: Progress, ordered: seq<string>, n: nat): (r: Run)
    requires n <= |ordered|
    ensures |r.results| == n
    ensures forall i :: 0 <= i < n ==> r.results[i].store == ordered[i]
  {
    if n == 0 then Run(g, []) else RunStore(w, RunStores(w, g, ordered, n - 1), ordered[n - 1])
  }

  // ---- when a store stops asking ----

  function HitsOf(w: World, store: string, g: Progress, queries: seq<string>, n: nat): seq<Hit>
    requires n <= |queries|
  {
    RunQueries(w, store, g, queries, n).hits
  }

  predicate ToldUnsupported(store: string, f: Found) {
    f.error == Some(Error(store, UNSUPPORTED))
  }

  /**
   * A store's hits are those of its queries up to and including the first that
   * yields an automatic match or is told that searching is unsupported: no
   * earlier query yielded one or was told so, and no later query is asked.
   */
  lemma StopsAtFirstAuto(w: World, store: string, g: Progress) returns (k: nat)
    ensures k <= |g.queries| && SearchStore(w, store, g) == RunQueries(w, store, g, g.queries, k)
    ensures forall i :: 0 < i < k ==>
              !HasAuto(HitsOf(w, store, g, g.queries, i)) && !ToldUnsupported(store, RunQueries(w, store, g, g.queries, i))
    ensures k < |g.queries| ==>
              k > 0 && (HasAuto(HitsOf(w, store, g, g.queries, k)) || ToldUnsupported(store, SearchStore(w, store, g)))
  {
    k := Needed(w, store, g, g.queries, |g.queries|);
    forall i | 0 < i < k
      ensures !HasAuto(HitsOf(w, store, g, g.queries, i)) && !ToldUnsupported(store, RunQueries(w, store, g, g.queries, i))
    {
      NoStopNoAuto(w, store, g, g.queries, i);
    }
    if 0 < k < |g.queries| {
      StopMeans(w, store, RunQueries(w, store, g, g.queries, k - 1), g.queries[k - 1]);
    }
  }

  lemma StopMeans(w: World, store: string, f: Found, query: string)
    requires RunQuery(w, store, f, query).stop
    ensures var r := RunQuery(w, store, f, query); HasAuto(r.hits) || ToldUnsupported(store, r)
  {
    var g := f.progress.(calls := f.progress.calls + 1);
    match w.search(store, query, f.progress.calls)
    case Candidates(urls) =>
      var hits := ConsiderAll(w, g, query, urls, |urls|).1;
      var i :| 0 <= i < |hits| && hits[i].decision == AutoMatch;
      assert (f.hits + hits)[|f.hits| + i] == hits[i];
    case _ =>
  }

  lemma {:induction false} NoStopNoAuto(w: World, store: string, g: Progress, queries: seq<string>, n: nat)
    requires n <= |queries| && forall i :: 0 < i <= n ==> !RunQueries(w, store, g, queries, i).stop
    ensures !HasAuto(HitsOf(w, store, g, queries, n)) && !ToldUnsupported(store, RunQueries(w, store, g, queries, n))
  {
    if n > 0 {
      NoStopNoAuto(w, store, g, queries, n - 1);
      var f := RunQueries(w, store, g, queries, n - 1);
      match w.search(store, queries[n - 1], f.progress.calls)
      case Candidates(urls) =>
        var hits := ConsiderAll(w, f.progress.(calls := f.progress.calls + 1), queries[n - 1], urls, |urls|).1;
        assert RunQueries(w, store, g, queries, n).stop == HasAuto(hits);
      case _ =>
    }
  }

  // ---- query by query ----

  /** What one search must change: its candidates add their hits, a failure becomes the last error. */
  ghost predicate SearchCounts(w: World, store: string, query: string, f: Found, next: Found) {
    var g := f.progress.(calls := f.progress.calls + 1);
    match w.search(store, query, f.progress.calls)
    case Candidates(urls) =>
      && next.progress == ConsiderAll(w, g, query, urls, |urls|).0
      && next.hits == f.hits + ConsiderAll(w, g, query, urls, |urls|).1
      && next.error == f.error
      && (next.stop <==> exists i :: |f.hits| <= i < |next.hits| && next.hits[i].decision == AutoMatch)
    case RequestFailed(code) =>
      next == Found(g, f.hits, Some(Error(store, code)), code == "SEARCH_UNSUPPORTED")
    case ParseFailed =>
      next == Found(g, f.hits, Some(Error(store, "PARSE_ERROR")), false)
  }

  /** The queries of a store are asked in order, each once, and none disturbs the hits so far. */
  lemma {:induction false} EveryQueryCounts(w: World, store: string, g: Progress, queries: seq<string>, n: nat, i: nat)
    requires i < n <= |queries|
    ensures SearchCounts(w, store, queries[i], RunQueries(w, store, g, queries, i), RunQueries(w, store, g, queries, i + 1))
    ensures RunQueries(w, store, g, queries, i + 1).hits <= RunQueries(w, store, g, queries, n).hits
    ensures RunQueries(w, store, g, queries, 0) == Found(g, [], None, false)
  {
    if i + 1 < n {
      EveryQueryCounts(w, store, g, queries, n - 1, i);
    } else {
      QueryCounts(w, store, queries[i], RunQueries(w, store, g, queries, i));
    }
  }

  lemma QueryCounts(w: World, store: string, query: string, f: Found)
    ensures SearchCounts(w, store, query, f, RunQuery(w, store, f, query))
  {
    var next := RunQuery(w, store, f, query);
    match w.search(store, query, f.progress.calls)
    case Candidates(urls) =>
      var hits := ConsiderAll(w, f.progress.(calls := f.progress.calls + 1), query, urls, |urls|).1;
      assert forall i :: 0 <= i < |hits| ==> next.hits[|f.hits| + i] == hits[i];
      if HasAuto(hits) {
        var i :| 0 <= i < |hits| && hits[i].decision == AutoMatch;
        assert next.hits[|f.hits| + i].decision == AutoMatch;
      }
    case _ =>
  }

  /** Each hit of a turn comes of the query it bears, and so hits are in the order of the queries. */
  lemma {:induction false} HitBearsQuery(w: World, store: string, g: Progress, queries: seq<string>, n: nat, h: nat)
    returns (i: nat)
    requires n <= |queries| && h < |RunQueries(w, store, g, queries, n).hits|
    ensures i < n && RunQueries(w, store, g, queries, n).hits[h].query == queries[i]
    ensures |RunQueries(w, store, g, queries, i).hits| <= h < |RunQueries(w, store, g, queries, i + 1).hits|
  {
    var f := RunQueries(w, store, g, queries, n - 1);
    if h < |f.hits| {
      i := HitBearsQuery(w, store, g, queries, n - 1, h);
      EveryQueryCounts(w, store, g, queries, n, n - 1);
    } else {
      i := n - 1;
      match w.search(store, queries[i], f.progress.calls)
      case Candidates(urls) =>
        HitsAreScored(w, f.progress.(calls := f.progress.calls + 1), queries[i], urls, |urls|, h - |f.hits|);
      case _ =>
    }
  }

  /** A hit is a product scraped from a candidate that is not the reference itself, as it was scored, and not rejected. */
  ghost predicate IsScored(w: World, urls: seq<string>, query: string, hit: Hit) {
    && hit.query == query && hit.store == hit.product.store && hit.decision != Reject
    && (exists j, t: nat :: 0 <= j < |urls| && !w.isSelf(urls[j]) && w.scrape(urls[j], t) == Some(hit.product))
    && (exists identity :: w.score(identity, hit.product) == Score(hit.decision, hit.confidence))
  }

  lemma {:induction false} HitsAreScored(w: World, g: Progress, query: string, urls: seq<string>, n: nat, k: nat)
    requires n <= |urls| && k < |ConsiderAll(w, g, query, urls, n).1|
    ensures IsScored(w, urls, query, ConsiderAll(w, g, query, urls, n).1[k])
  {
    var (before, hits) := ConsiderAll(w, g, query, urls, n - 1);
    if k < |hits| {
      HitsAreScored(w, g, query, urls, n - 1, k);
    } else {
      var hit := ConsiderAll(w, g, query, urls, n).1[k];
      assert hit == Consider(w, before, query, urls[n - 1]).1[0];
      assert w.scrape(urls[n - 1], before.calls) == Some(hit.product);
      assert w.score(before.identity, hit.product) == Score(hit.decision, hit.confidence);
    }
  }

  /** The hit that a candidate yields when its turn comes: one if it is scraped, is not the reference and is not rejected. */
  ghost predicate Yields(w: World, g: Progress, query: string, url: string, hit: Hit) {
    && !w.isSelf(url) && w.scrape(url, g.calls) == Some(hit.product)
    && w.score(g.identity, hit.product) == Score(hit.decision, hit.confidence) && hit.decision != Reject
    && hit.query == query && hit.store == hit.product.store
  }

  /** The hits before a candidate, and with it: one more if it yields one, else the same. */
  ghost predicate AddsYield(w: World, g: Progress, query: string, url: string, sofar: seq<Hit>, next: seq<Hit>) {
    if exists hit :: Yields(w, g, query, url, hit) then
      |next| == |sofar| + 1 && next[..|sofar|] == sofar && Yields(w, g, query, url, next[|sofar|])
    else next == sofar
  }

  /** And no candidate is passed over, nor does a later one disturb the hits so far. */
  lemma {:induction false} EveryCandidateCounts(w: World, g: Progress, query: string, urls: seq<string>, n: nat, i: nat)
    requires i < n <= |urls|
    ensures var next := ConsiderAll(w, g, query, urls, i + 1).1;
            && AddsYield(w, ConsiderAll(w, g, query, urls, i).0, query, urls[i], ConsiderAll(w, g, query, urls, i).1, next)
            && next <= ConsiderAll(w, g, query, urls, n).1
    ensures ConsiderAll(w, g, query, urls, i + 1).0.calls
         == ConsiderAll(w, g, query, urls, i).0.calls + if w.isSelf(urls[i]) then 0 else 1
  {
    if i + 1 < n {
      EveryCandidateCounts(w, g, query, urls, n - 1, i);
    } else {
      var before, sofar := ConsiderAll(w, g, query, urls, i).0, ConsiderAll(w, g, query, urls, i).1;
      var more := Consider(w, before, query, urls[i]).1;
      assert sofar + [] == sofar;
      if more != [] {
        assert Yields(w, before, query, urls[i], more[0]) && more == [more[0]];
      }
    }
  }

  // ---- what learning may change ----

  /**
   * The queries are always those of the identity; once the identity has a
   * barcode it never changes, and a barcode of the reference itself stays learned.
   */
  ghost predicate Settled(w: World, g: Progress, g': Progress) {
    && (g.queries == w.queriesFor(g.identity) ==> g'.queries == w.queriesFor(g'.identity))
    && (g.identity.gtin != "" ==> g'.identity == g.identity && g'.queries == g.queries)
    && (g.learned.Some? && g.learned.value.source == "reference" ==> g'.learned == g.learned)
    && g'.identity.title == g.identity.title
  }

  lemma {:induction false} CandidatesSettle(w: World, g: Progress, query: string, urls: seq<string>, n: nat)
    requires n <= |urls|
    ensures Settled(w, g, ConsiderAll(w, g, query, urls, n).0)
  {
    if n > 0 {
      CandidatesSettle(w, g, query, urls, n - 1);
    }
  }

  lemma {:induction false} QueriesSettle(w: World, store: string, g: Progress, queries: seq<string>, n: nat)
    requires n <= |queries|
    ensures Settled(w, g, RunQueries(w, store, g, queries, n).progress)
  {
    if n > 0 {
      QueriesSettle(w, store, g, queries, n - 1);
      var f := RunQueries(w, store, g, queries, n - 1);
      var h := f.progress.(calls := f.progress.calls + 1);
      match w.search(store, queries[n - 1], f.progress.calls)
      case Candidates(urls) =>
        CandidatesSettle(w, h, queries[n - 1], urls, |urls|);
      case _ =>
    }
  }

  lemma {:induction false} RunSettles(w: World, g: Progress, ordered: seq<string>, n: nat)
    requires n <= |ordered|
    ensures Settled(w, g, RunStores(w, g, ordered, n).progress)
  {
    if n > 0 {
      RunSettles(w, g, ordered, n - 1);
      var h := RunStores(w, g, ordered, n - 1).progress;
      QueriesSettle(w, ordered[n - 1], h, h.queries, Needed(w, ordered[n - 1], h, h.queries, |h.queries|));
    }
  }
}
