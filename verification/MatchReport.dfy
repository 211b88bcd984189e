/** What the report of a run says of every store: its match, or that it has none, and why. */
module MatchReport {
  import opened Wrappers
  import opened Basics
  import opened MatchLoop

  /** The report's three lists, each in the order of the stores. */
  datatype Report = Report(matches: seq<(string, Hit)>, unmatched: seq<string>, errors: seq<Error>)

  function AddResult(so: Report, r: StoreResult): Report {
    match Best(r.hits)
    case Some(hit) => so.(matches := so.matches + [(r.store, hit)])
    case None =>
      so.(unmatched := so.unmatched + [r.store],
          errors := so.errors + if r.error.Some? then [r.error.value] else [])
  }

  /** The report on the first n stores. */
  function Reported(results: seq<StoreResult>, n: nat): Report
    requires n <= |results|
  {
    if n == 0 then Report([], [], []) else AddResult(Reported(results, n - 1), results[n - 1])
  }

  function CountMatched(results: seq<StoreResult>, n: nat): (k: nat)
    requires n <= |results|
    ensures k <= n
  {
    if n == 0 then 0 else CountMatched(results, n - 1) + if results[n - 1].hits != [] then 1 else 0
  }

  function CountErrors(results: seq<StoreResult>, n: nat): (k: nat)
    requires n <= |results|
    ensures k <= n
  {
    if n == 0 then 0
    else CountErrors(results, n - 1) + if results[n - 1].hits == [] && results[n - 1].error.Some? then 1 else 0
  }

  lemma BestNoneIff(hits: seq<Hit>)
    ensures Best(hits) == None <==> hits == []
  {
  }

  lemma {:induction false} ReportSizes(results: seq<StoreResult>, n: nat)
    requires n <= |results|
    ensures var rep := Reported(results, n);
            && |rep.matches| == CountMatched(results, n)
            && |rep.unmatched| == n - CountMatched(results, n)
            && |rep.errors| == CountErrors(results, n)
  {
    if n > 0 {
      ReportSizes(results, n - 1);
      BestNoneIff(results[n - 1].hits);
    }
  }

  /**
   * Where each store's outcome stands in the report: the matched stores and the
   * unmatched ones keep their order, a match is its store's best hit, and a
   * store's error is reported only if nothing was found there.
   */
  lemma {:induction false} ReportPlaces(results: seq<StoreResult>, n: nat, i: nat)
    requires i < n <= |results|
    ensures var rep, m, e, r := Reported(results, n), CountMatched(results, i), CountErrors(results, i), results[i];
            && (r.hits != [] ==> m < |rep.matches| && rep.matches[m].0 == r.store && Some(rep.matches[m].1) == Best(r.hits))
            && (r.hits == [] ==> i - m < |rep.unmatched| && rep.unmatched[i - m] == r.store)
            && (r.hits == [] && r.error.Some? ==> e < |rep.errors| && rep.errors[e] == r.error.value)
  {
    ReportSizes(results, n - 1);
    BestNoneIff(results[n - 1].hits);
    if i < n - 1 {
      ReportPlaces(results, n - 1, i);
    }
  }

  /** Nothing else is in the report. */
  lemma {:induction false} MatchComesFrom(results: seq<StoreResult>, n: nat, m: nat) returns (i: nat)
    requires n <= |results| && m < CountMatched(results, n)
    ensures i < n && results[i].hits != [] && CountMatched(results, i) == m
  {
    i := n - 1;
    if m < CountMatched(results, n - 1) {
      i := MatchComesFrom(results, n - 1, m);
    }
  }

  lemma {:induction false} UnmatchedComesFrom(results: seq<StoreResult>, n: nat, u: nat) returns (i: nat)
    requires n <= |results| && u < n - CountMatched(results, n)
    ensures i < n && results[i].hits == [] && i - CountMatched(results, i) == u
  {
    i := n - 1;
    if u < n - 1 - CountMatched(results, n - 1) {
      i := UnmatchedComesFrom(results, n - 1, u);
    }
  }

  lemma {:induction false} ErrorComesFrom(results: seq<StoreResult>, n: nat, e: nat) returns (i: nat)
    requires n <= |results| && e < CountErrors(results, n)
    ensures i < n && results[i].hits == [] && results[i].error.Some? && CountErrors(results, i) == e
  {
    i := n - 1;
    if e < CountErrors(results, n - 1) {
      i := ErrorComesFrom(results, n - 1, e);
    }
  }

  predicate StoresDiffer(results: seq<StoreResult>) {
    forall j, k :: 0 <= j < k < |results| ==> results[j].store != results[k].store
  }

  predicate ErrorsOwn(results: seq<StoreResult>) {
    forall i :: 0 <= i < |results| && results[i].error.Some? ==> results[i].error.value.store == results[i].store
  }

  ghost predicate IsMatched(rep: Report, store: string) {
    exists m :: 0 <= m < |rep.matches| && rep.matches[m].0 == store
  }

  lemma SameStore(results: seq<StoreResult>, i: nat, j: nat)
    requires i < |results| && j < |results| && StoresDiffer(results)
    requires results[i].store == results[j].store
    ensures i == j
  {
  }

  lemma NobodyElseMatches(results: seq<StoreResult>, i: nat)
    requires i < |results| && StoresDiffer(results)
    requires IsMatched(Reported(results, |results|), results[i].store)
    ensures results[i].hits != []
  {
    var rep := Reported(results, |results|);
    var m :| 0 <= m < |rep.matches| && rep.matches[m].0 == results[i].store;
    ReportSizes(results, |results|);
    var j := MatchComesFrom(results, |results|, m);
    ReportPlaces(results, |results|, j);
    SameStore(results, i, j);
  }

  lemma NobodyElseFails(results: seq<StoreResult>, i: nat)
    requires i < |results| && StoresDiffer(results)
    requires results[i].store in Reported(results, |results|).unmatched
    ensures results[i].hits == []
  {
    var rep := Reported(results, |results|);
    var u :| 0 <= u < |rep.unmatched| && rep.unmatched[u] == results[i].store;
    ReportSizes(results, |results|);
    var j := UnmatchedComesFrom(results, |results|, u);
    ReportPlaces(results, |results|, j);
    SameStore(results, i, j);
  }

  /** Every store ends in exactly one of the two lists, according to whether it had a hit. */
  lemma ExactlyOneList(results: seq<StoreResult>, i: nat)
    requires i < |results| && StoresDiffer(results)
    ensures var rep := Reported(results, |results|);
            && (IsMatched(rep, results[i].store) <==> results[i].hits != [])
            && (results[i].store in rep.unmatched <==> results[i].hits == [])
  {
    ReportPlaces(results, |results|, i);
    if IsMatched(Reported(results, |results|), results[i].store) {
      NobodyElseMatches(results, i);
    }
    if results[i].store in Reported(results, |results|).unmatched {
      NobodyElseFails(results, i);
    }
  }

  /** Errors name only unmatched stores, each at most once. */
  lemma ErrorsNameUnmatched(results: seq<StoreResult>, d: nat, e: nat)
    requires StoresDiffer(results)
    requires ErrorsOwn(results)
    requires d <= e < |Reported(results, |results|).errors|
    ensures var rep := Reported(results, |results|);
            rep.errors[e].store in rep.unmatched && (d < e ==> rep.errors[d].store != rep.errors[e].store)
  {
    var n := |results|;
    ReportSizes(results, n);
    var i := ErrorComesFrom(results, n, d);
    var j := ErrorComesFrom(results, n, e);
    ReportPlaces(results, n, i);
    ReportPlaces(results, n, j);
    ExactlyOneList(results, j);
  }

  lemma {:induction false} QueriesErrorsOwn(w: World, store: string, g: Progress, queries: seq<string>, n: nat)
    requires n <= |queries|
    ensures var f := RunQueries(w, store, g, queries, n); f.error.Some? ==> f.error.value.store == store
  {
    if n > 0 {
      QueriesErrorsOwn(w, store, g, queries, n - 1);
    }
  }

  lemma {:induction false} StoresErrorsOwn(w: World, g: Progress, ordered: seq<string>, n: nat)
    requires n <= |ordered|
    ensures ErrorsOwn(RunStores(w, g, ordered, n).results)
  {
    if n > 0 {
      StoresErrorsOwn(w, g, ordered, n - 1);
      var h := RunStores(w, g, ordered, n - 1).progress;
      QueriesErrorsOwn(w, ordered[n - 1], h, h.queries, Needed(w, ordered[n - 1], h, h.queries, |h.queries|));
    }
  }

  lemma {:induction false} ResultsGrow(w: World, g: Progress, ordered: seq<string>, n: nat, i: nat)
    requires i < n <= |ordered|
    ensures RunStores(w, g, ordered, n).results[i] == RunStores(w, g, ordered, i + 1).results[i]
  {
    if i + 1 < n {
      ResultsGrow(w, g, ordered, n - 1, i);
    }
  }

  /** So in the report of every run errors name only unmatched stores, each at most once. */
  lemma RunErrors(w: World, start: Progress, ordered: seq<string>, d: nat, e: nat)
    requires Distinct(ordered)
    requires d <= e < |Reported(RunStores(w, start, ordered, |ordered|).results, |ordered|).errors|
    ensures var rep := Reported(RunStores(w, start, ordered, |ordered|).results, |ordered|);
            rep.errors[e].store in rep.unmatched && (d < e ==> rep.errors[d].store != rep.errors[e].store)
  {
    DistinctIff(ordered);
    StoresErrorsOwn(w, start, ordered, |ordered|);
    ErrorsNameUnmatched(RunStores(w, start, ordered, |ordered|).results, d, e);
  }

  /** What a store's turn must come to, and what it hands on to the next. */
  lemma TurnResult(w: World, start: Progress, ordered: seq<string>, i: nat)
    requires i < |ordered|
    ensures RunStores(w, start, ordered, 0).progress == start
    ensures var now, next := RunStores(w, start, ordered, i).progress, RunStores(w, start, ordered, i + 1);
            var result := RunStores(w, start, ordered, |ordered|).results[i];
            if w.supports(ordered[i]) then
              var f := SearchStore(w, ordered[i], now);
              next.progress == f.progress && result == StoreResult(ordered[i], true, f.hits, f.error)
            else
              && next.progress == now
              && result == StoreResult(ordered[i], false, [], Some(Error(ordered[i], "SEARCH_UNSUPPORTED")))
  {
    ResultsGrow(w, start, ordered, |ordered|, i);
  }

  /** The error a store's turn leaves: none for want of candidates, the last one if a search failed. */
  function TurnError(w: World, start: Progress, ordered: seq<string>, i: nat): Option<Error>
    requires i < |ordered|
  {
    if w.supports(ordered[i]) then SearchStore(w, ordered[i], RunStores(w, start, ordered, i).progress).error
    else Some(Error(ordered[i], "SEARCH_UNSUPPORTED"))
  }

  /** All hits a store's turn brings, in the order they are scored. */
  function TurnHits(w: World, start: Progress, ordered: seq<string>, i: nat): seq<Hit>
    requires i < |ordered|
  {
    if w.supports(ordered[i]) then SearchStore(w, ordered[i], RunStores(w, start, ordered, i).progress).hits else []
  }

  /**
   * What the report says of one store, whatever searching, scraping and scoring
   * returned: it is matched exactly when its turn brought a hit, then with the
   * first of its highest-scored hits, and it is unmatched exactly otherwise.
   */
  lemma StoreOutcome(w: World, start: Progress, ordered: seq<string>, i: nat) returns (m: nat, k: nat)
    requires Distinct(ordered) && i < |ordered|
    ensures var rep := Reported(RunStores(w, start, ordered, |ordered|).results, |ordered|);
            var hits := TurnHits(w, start, ordered, i);
            && (ordered[i] in rep.unmatched <==> hits == [])
            && (IsMatched(rep, ordered[i]) <==> hits != [])
            && (hits != [] ==> m < |rep.matches| && IsFirstHighest(hits, k) && rep.matches[m] == (ordered[i], hits[k]))
            && (hits == [] && TurnError(w, start, ordered, i).Some? ==> TurnError(w, start, ordered, i).value in rep.errors)
  {
    var results := RunStores(w, start, ordered, |ordered|).results;
    ResultsGrow(w, start, ordered, |ordered|, i);
    TurnResult(w, start, ordered, i);
    assert results[i].hits == TurnHits(w, start, ordered, i) && results[i].error == TurnError(w, start, ordered, i);
    DistinctIff(ordered);
    assert StoresDiffer(results);
    ExactlyOneList(results, i);
    ReportPlaces(results, |results|, i);
    m, k := CountMatched(results, i), 0;
    if results[i].hits != [] {
      k := BestIsFirstHighest(results[i].hits);
    }
  }
}
