/** The loops over stores, queries and candidates as the script runs them. */
module MatchRun {
  import opened Wrappers
  import opened Basics
  import opened MatchLoop
  import opened MatchReport

  /** All candidates of one search, keeping the best hit of the store in `best`. */
  method ConsiderCandidates(w: World, g: Progress, query: string, urls: seq<string>, best: Option<Hit>)
    returns (g': Progress, best': Option<Hit>, matched: bool)
    ensures var (after, hits) := ConsiderAll(w, g, query, urls, |urls|);
            g' == after && best' == BestFrom(best, hits) && (matched <==> HasAuto(hits))
  {
    g', best', matched := g, best, false;
    ghost var hits: seq<Hit> := [];
    var i := 0;
    while i < |urls|
      invariant 0 <= i <= |urls|
      invariant (g', hits) == ConsiderAll(w, g, query, urls, i)
      invariant matched <==> HasAuto(hits)
      invariant best' == BestFrom(best, hits)
    {
      var url := urls[i];
      i := i + 1;
      if w.isSelf(url) {
        assert hits + [] == hits;
        continue;
      }
      var product := w.scrape(url, g'.calls);
      var identity := g'.identity;
      g' := g'.(calls := g'.calls + 1);
      if product.None? {
        assert hits + [] == hits;
        continue;
      }
      var score := w.score(identity, product.value);
      if score.decision == Reject {
        assert hits + [] == hits;
        continue;
      }
      var hit := Hit(product.value.store, score.decision, score.confidence, query, product.value);
      if best' == None || hit.confidence > best'.value.confidence {
        best' := Some(hit);
      }
      BestOfMore(best, hits, hit);
      AutoOfMore(hits, hit);
      hits := hits + [hit];
      if score.decision == AutoMatch {
        matched := true;
        g' := Learn(w, g', product.value);
      }
    }
  }

  /** One search, after which the store may be done. */
  method AskOnce(w: World, store: string, g: Progress, query: string, best: Option<Hit>, error: Option<Error>,
                 ghost hits: seq<Hit>)
    returns (g': Progress, best': Option<Hit>, error': Option<Error>, stop: bool)
    requires best == Best(hits)
    ensures var f := RunQuery(w, store, Found(g, hits, error, false), query);
            g' == f.progress && best' == Best(f.hits) && error' == f.error && stop == f.stop
  {
    best', error', stop := best, error, false;
    var found := w.search(store, query, g.calls);
    g' := g.(calls := g.calls + 1);
    match found
    case RequestFailed(code) =>
      error' := Some(Error(store, code));
      stop := code == UNSUPPORTED;
    case ParseFailed =>
      error' := Some(Error(store, "PARSE_ERROR"));
    case Candidates(urls) =>
      BestContinues(hits, ConsiderAll(w, g', query, urls, |urls|).1);
      g', best', stop := ConsiderCandidates(w, g', query, urls, best);
  }

  /** One supported store: its queries as they stood when its turn came. */
  method AskStore(w: World, store: string, g: Progress)
    returns (g': Progress, best: Option<Hit>, error: Option<Error>)
    ensures var f := SearchStore(w, store, g);
            g' == f.progress && best == Best(f.hits) && error == f.error
  {
    var queries := g.queries;
    g', best, error := g, None, None;
    ghost var hits: seq<Hit> := [];
    var stop := false;
    var i := 0;
    while i < |queries| && !stop
      invariant 0 <= i <= |queries|
      invariant Found(g', hits, error, stop) == RunQueries(w, store, g, queries, i)
      invariant best == Best(hits)
      invariant forall k :: 0 < k < i ==> !RunQueries(w, store, g, queries, k).stop
      invariant stop ==> i > 0
    {
      ghost var before := hits;
      hits := RunQueries(w, store, g, queries, i + 1).hits;
      g', best, error, stop := AskOnce(w, store, g', queries[i], best, error, before);
      i := i + 1;
    }
    NeededIs(w, store, g, queries, i);
  }

  /** There is only one number of queries that stops as described. */
  lemma NeededIs(w: World, store: string, g: Progress, queries: seq<string>, k: nat)
    requires k <= |queries|
    requires forall i :: 0 < i < k ==> !RunQueries(w, store, g, queries, i).stop
    requires k < |queries| ==> k > 0 && RunQueries(w, store, g, queries, k).stop
    ensures Needed(w, store, g, queries, |queries|) == k
  {
    var n := Needed(w, store, g, queries, |queries|);
    assert n == k;
  }

  lemma NotBefore(stores: seq<string>, i: nat)
    requires Distinct(stores) && i < |stores|
    ensures stores[i] !in stores[..i]
  {
    DistinctIff(stores);
  }

  /** The whole run, and the report it leaves. */
  method MatchAll(w: World, start: Progress, ordered: seq<string>) returns (report: Report, end: Progress)
    requires Distinct(ordered)
    ensures var run := RunStores(w, start, ordered, |ordered|);
            report == Reported(run.results, |ordered|) && end == run.progress
  {
    var matches: seq<(string, Hit)>, unmatched: seq<string>, errors: seq<Error> := [], [], [];
    var bestByStore: map<string, Hit> := map[];
    end := start;
    ghost var results: seq<StoreResult> := [];
    var i := 0;
    while i < |ordered|
      invariant 0 <= i <= |ordered|
      invariant Run(end, results) == RunStores(w, start, ordered, i)
      invariant Report(matches, unmatched, errors) == Reported(results, i)
      invariant forall s :: s in bestByStore ==> s in ordered[..i]
    {
      var store := ordered[i];
      NotBefore(ordered, i);
      ghost var r;
      if !w.supports(store) {
        errors := errors + [Error(store, UNSUPPORTED)];
        unmatched := unmatched + [store];
        r := StoreResult(store, false, [], Some(Error(store, UNSUPPORTED)));
      } else {
        var best, lastError;
        ghost var hits := SearchStore(w, store, end).hits;
        end, best, lastError := AskStore(w, store, end);
        if best.Some? {
          bestByStore := bestByStore[store := best.value];
        }
        if store in bestByStore {
          matches := matches + [(store, bestByStore[store])];
        } else {
          unmatched := unmatched + [store];
          if lastError.Some? {
            errors := errors + [lastError.value];
          }
        }
        r := StoreResult(store, true, hits, lastError);
      }
      assert Report(matches, unmatched, errors) == AddResult(Reported(results, i), r);
      assert Run(end, results + [r]) == RunStore(w, RunStores(w, start, ordered, i), store);
      ReportedMore(results, r);
      results := results + [r];
      i := i + 1;
    }
    report := Report(matches, unmatched, errors);
  }

  lemma ReportedMore(results: seq<StoreResult>, r: StoreResult)
    ensures Reported(results + [r], |results| + 1) == AddResult(Reported(results, |results|), r)
  {
    ReportedPrefix(results, r, |results|);
  }

  lemma {:induction false} ReportedPrefix(results: seq<StoreResult>, more: StoreResult, n: nat)
    requires n <= |results|
    ensures Reported(results + [more], n) == Reported(results, n)
  {
    if n > 0 {
      ReportedPrefix(results, more, n - 1);
    }
  }
}
