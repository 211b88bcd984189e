/**
 * What a run of the match loop comes to know about the reference's barcode,
 * and when it loses a barcode that it had learned.
 */
module LearnedBarcodes {
  import opened Wrappers
  import opened MatchLoop

  // ---- a run's hits are all that teaches it ----

  /** What the run holds about barcodes: the identity it searches for and what it has learned. */
  datatype Mind = Mind(identity: Identity, learned: Option<Trusted>)

  function MindOf(g: Progress): Mind { Mind(g.identity, g.learned) }

  /** What one hit changes about it. */
  function Taught(w: World, m: Mind, hit: Hit): Mind {
    if hit.decision != AutoMatch then m
    else
      var learned := MaybeLearn(w, m.learned, m.identity, hit.product);
      Mind(if learned.Some? && m.identity.gtin == "" then m.identity.(gtin := learned.value.gtin) else m.identity, learned)
  }

  /** And what the first k hits of a sequence do. */
  function TaughtBy(w: World, m: Mind, hits: seq<Hit>, k: nat): Mind
    requires k <= |hits|
  {
    if k == 0 then m else Taught(w, TaughtBy(w, m, hits, k - 1), hits[k - 1])
  }

  lemma {:induction false} TaughtByMore(w: World, m: Mind, hits: seq<Hit>, more: seq<Hit>, k: nat)
    requires k <= |hits|
    ensures TaughtBy(w, m, hits + more, k) == TaughtBy(w, m, hits, k)
  {
    if k > 0 {
      TaughtByMore(w, m, hits, more, k - 1);
    }
  }

  lemma {:induction false} TaughtInTurn(w: World, m: Mind, hits: seq<Hit>, more: seq<Hit>)
    ensures TaughtBy(w, m, hits + more, |hits + more|) == TaughtBy(w, TaughtBy(w, m, hits, |hits|), more, |more|)
  {
    if more == [] {
      assert hits + more == hits;
    } else {
      var n := |more| - 1;
      var first := more[..n];
      TaughtInTurn(w, m, hits, first);
      assert hits + more == (hits + first) + [more[n]] && more == first + [more[n]];
      TaughtByMore(w, m, hits + first, [more[n]], |hits + first|);
      TaughtByMore(w, TaughtBy(w, m, hits, |hits|), first, [more[n]], n);
    }
  }

  lemma {:induction false} CandidatesTeach(w: World, g: Progress, query: string, urls: seq<string>, n: nat)
    requires n <= |urls|
    ensures var (after, hits) := ConsiderAll(w, g, query, urls, n);
            MindOf(after) == TaughtBy(w, MindOf(g), hits, |hits|)
  {
    if n > 0 {
      CandidatesTeach(w, g, query, urls, n - 1);
      var (before, hits) := ConsiderAll(w, g, query, urls, n - 1);
      var (after, more) := Consider(w, before, query, urls[n - 1]);
      TaughtInTurn(w, MindOf(g), hits, more);
      assert |more| <= 1;
      assert MindOf(after) == TaughtBy(w, MindOf(before), more, |more|);
    }
  }

  lemma {:induction false} QueriesTeach(w: World, store: string, g: Progress, queries: seq<string>, n: nat)
    requires n <= |queries|
    ensures var f := RunQueries(w, store, g, queries, n);
            MindOf(f.progress) == TaughtBy(w, MindOf(g), f.hits, |f.hits|)
  {
    if n > 0 {
      QueriesTeach(w, store, g, queries, n - 1);
      var f := RunQueries(w, store, g, queries, n - 1);
      match w.search(store, queries[n - 1], f.progress.calls)
      case Candidates(urls) =>
        var h := f.progress.(calls := f.progress.calls + 1);
        CandidatesTeach(w, h, queries[n - 1], urls, |urls|);
        TaughtInTurn(w, MindOf(g), f.hits, ConsiderAll(w, h, queries[n - 1], urls, |urls|).1);
      case _ =>
    }
  }

  /** All hits of a run, store after store. */
  function AllHits(results: seq<StoreResult>): seq<Hit> {
    if results == [] then [] else AllHits(results[..|results| - 1]) + results[|results| - 1].hits
  }

  /** What a run ends up knowing about barcodes depends on its hits alone, in order. */
  lemma {:induction false} RunTeaches(w: World, start: Progress, ordered: seq<string>, n: nat)
    requires n <= |ordered|
    ensures var run := RunStores(w, start, ordered, n);
            MindOf(run.progress) == TaughtBy(w, MindOf(start), AllHits(run.results), |AllHits(run.results)|)
  {
    if n > 0 {
      RunTeaches(w, start, ordered, n - 1);
      var run, more := RunStores(w, start, ordered, n - 1), RunStores(w, start, ordered, n);
      var store, h := ordered[n - 1], run.progress;
      assert more.results[..n - 1] == run.results;
      TaughtInTurn(w, MindOf(start), AllHits(run.results), more.results[n - 1].hits);
      QueriesTeach(w, store, h, h.queries, Needed(w, store, h, h.queries, |h.queries|));
    }
  }

  // ---- when a learned barcode is lost ----

  /** An automatic match that a run without any barcode learns from. */
  predicate Adopts(w: World, identity: Identity, hit: Hit) {
    hit.decision == AutoMatch && w.normalize(hit.product.gtin) != "" && w.brandsAgree(identity, hit.product)
  }

  /** An automatic match with another barcode than the identity has, under a brand that disagrees. */
  predicate Rivals(w: World, identity: Identity, hit: Hit) {
    && hit.decision == AutoMatch
    && w.normalize(hit.product.gtin) !in {"", identity.gtin} && !w.brandsAgree(identity, hit.product)
  }

  /** Barcodes are normalised once and for all, and no barcode is none. */
  ghost predicate Normalizes(w: World) {
    w.normalize("") == "" && forall s :: w.normalize(w.normalize(s)) == w.normalize(s)
  }

  /** A barcode adopted from a match, which the identity now bears. */
  predicate Adopted(w: World, m: Mind) {
    && m.learned.Some? && m.learned.value.source != "reference"
    && m.identity.gtin == m.learned.value.gtin && m.identity.gtin != "" && w.normalize(m.identity.gtin) == m.identity.gtin
  }

  /** One more hit takes an adopted barcode away exactly if it rivals it; otherwise nothing changes. */
  lemma RivalTakesAway(w: World, m: Mind, hit: Hit)
    requires Adopted(w, m)
    ensures Taught(w, m, hit) == if Rivals(w, m.identity, hit) then m.(learned := None) else m
  {
  }

  /** The first automatic match that can be learned from is. */
  lemma AdoptionTeaches(w: World, m: Mind, hit: Hit)
    requires Normalizes(w) && m.learned == None && m.identity.gtin == ""
    ensures var m' := Taught(w, m, hit);
            if Adopts(w, m.identity, hit) then
              Adopted(w, m') && m'.identity == m.identity.(gtin := w.normalize(hit.product.gtin))
            else m' == m
  {
    assert |"auto_match:" + hit.product.store| >= 11 > |"reference"|;
  }

  ghost predicate FirstAdopted(w: World, identity: Identity, hits: seq<Hit>, j: nat) {
    j < |hits| && Adopts(w, identity, hits[j]) && forall i :: 0 <= i < j ==> !Adopts(w, identity, hits[i])
  }

  lemma {:induction false} NothingAdopted(w: World, m: Mind, hits: seq<Hit>, k: nat)
    requires Normalizes(w) && m.learned == None && m.identity.gtin == "" && k <= |hits|
    requires forall i :: 0 <= i < k ==> !Adopts(w, m.identity, hits[i])
    ensures TaughtBy(w, m, hits, k) == m
  {
    if k > 0 {
      NothingAdopted(w, m, hits, k - 1);
      AdoptionTeaches(w, m, hits[k - 1]);
    }
  }

  lemma {:induction false} AdoptedStays(w: World, m: Mind, hits: seq<Hit>, j: nat, k: nat)
    requires j <= k <= |hits| && Adopted(w, TaughtBy(w, m, hits, j))
    requires forall i :: j <= i < k ==> !Rivals(w, TaughtBy(w, m, hits, j).identity, hits[i])
    ensures TaughtBy(w, m, hits, k) == TaughtBy(w, m, hits, j)
  {
    if j < k {
      AdoptedStays(w, m, hits, j, k - 1);
      RivalTakesAway(w, TaughtBy(w, m, hits, k - 1), hits[k - 1]);
    }
  }

  /** A barcode has been learned after so many hits and is gone after more. */
  ghost predicate LosesBarcode(w: World, m: Mind, hits: seq<Hit>) {
    exists i, k :: 0 <= i < k <= |hits| && TaughtBy(w, m, hits, i).learned.Some? && TaughtBy(w, m, hits, k).learned == None
  }

  /** Once something is adopted, a rival comes. */
  ghost predicate RivalFollows(w: World, identity: Identity, hits: seq<Hit>) {
    exists j, k :: 0 <= j < k < |hits| && FirstAdopted(w, identity, hits, j)
      && Rivals(w, identity.(gtin := w.normalize(hits[j].product.gtin)), hits[k])
  }

  lemma {:induction false} FindFirstAdopted(w: World, identity: Identity, hits: seq<Hit>, n: nat) returns (j: nat)
    requires n <= |hits|
    ensures j <= n && (forall i :: 0 <= i < j ==> !Adopts(w, identity, hits[i])) && (j < n ==> FirstAdopted(w, identity, hits, j))
  {
    j := 0;
    if n > 0 {
      j := FindFirstAdopted(w, identity, hits, n - 1);
      if j == n - 1 && !Adopts(w, identity, hits[j]) {
        j := n;
      }
    }
  }

  lemma RivalLoses(w: World, m: Mind, hits: seq<Hit>, j: nat, k: nat)
    requires Normalizes(w) && m.learned == None && m.identity.gtin == ""
    requires j < k < |hits| && FirstAdopted(w, m.identity, hits, j)
    requires Rivals(w, m.identity.(gtin := w.normalize(hits[j].product.gtin)), hits[k])
    ensures LosesBarcode(w, m, hits)
    decreases k
  {
    NothingAdopted(w, m, hits, j);
    AdoptionTeaches(w, m, hits[j]);
    var adopted := TaughtBy(w, m, hits, j + 1);
    if i :| j < i < k && Rivals(w, adopted.identity, hits[i]) {
      RivalLoses(w, m, hits, j, i);
    } else {
      AdoptedStays(w, m, hits, j + 1, k);
      RivalTakesAway(w, adopted, hits[k]);
      assert TaughtBy(w, m, hits, k + 1).learned == None;
    }
  }

  lemma LosesBarcodeIff(w: World, m: Mind, hits: seq<Hit>)
    requires Normalizes(w) && m.learned == None && m.identity.gtin == ""
    ensures LosesBarcode(w, m, hits) <==> RivalFollows(w, m.identity, hits)
  {
    if RivalFollows(w, m.identity, hits) {
      var j, k :| 0 <= j < k < |hits| && FirstAdopted(w, m.identity, hits, j)
        && Rivals(w, m.identity.(gtin := w.normalize(hits[j].product.gtin)), hits[k]);
      RivalLoses(w, m, hits, j, k);
    } else {
      var j := FindFirstAdopted(w, m.identity, hits, |hits|);
      forall i, k | 0 <= i < k <= |hits| && TaughtBy(w, m, hits, i).learned.Some?
        ensures TaughtBy(w, m, hits, k).learned.Some?
      {
        if i <= j {
          NothingAdopted(w, m, hits, i);
        } else {
          NothingAdopted(w, m, hits, j);
          AdoptionTeaches(w, m, hits[j]);
          AdoptedStays(w, m, hits, j + 1, k);
        }
      }
    }
  }

  /**
   * Of a run over any stores that starts without a barcode: it loses one it has
   * learned exactly when, after the first automatic match it could learn from, an
   * automatic match shows another barcode under a brand that disagrees.
   */
  lemma RunLosesBarcodeIff(w: World, start: Progress, ordered: seq<string>)
    requires Normalizes(w) && start.learned == None && start.identity.gtin == ""
    ensures var run := RunStores(w, start, ordered, |ordered|);
            var hits := AllHits(run.results);
            && MindOf(run.progress) == TaughtBy(w, MindOf(start), hits, |hits|)
            && (LosesBarcode(w, MindOf(start), hits) <==> RivalFollows(w, start.identity, hits))
  {
    RunTeaches(w, start, ordered, |ordered|);
    LosesBarcodeIff(w, MindOf(start), AllHits(RunStores(w, start, ordered, |ordered|).results));
  }

  // ---- when a run ends up with another product's barcode ----

  /** An automatic match that shows the identity's own barcode. */
  predicate Homes(w: World, identity: Identity, hit: Hit) {
    hit.decision == AutoMatch && w.normalize(hit.product.gtin) == identity.gtin
  }

  /** What has been learned is not what the run searches for. */
  predicate Astray(m: Mind) {
    m.learned.Some? && m.learned.value.gtin != m.identity.gtin
  }

  ghost predicate GoesAstray(w: World, m: Mind, hits: seq<Hit>) {
    exists k :: 0 <= k <= |hits| && Astray(TaughtBy(w, m, hits, k))
  }

  /** Nothing learned, or the identity's barcode. */
  predicate AtHome(w: World, m: Mind) {
    && m.identity.gtin != "" && w.normalize(m.identity.gtin) == m.identity.gtin
    && (m.learned.Some? ==> m.learned.value.gtin == m.identity.gtin && m.learned.value.source != "reference")
  }

  /** With nothing learned, a barcode is taken up if it is the identity's own or of a brand that disagrees. */
  lemma RelearnedIff(w: World, m: Mind, hit: Hit)
    requires m.learned == None && m.identity.gtin != "" && w.normalize(m.identity.gtin) == m.identity.gtin
    ensures var cand := w.normalize(hit.product.gtin);
            Taught(w, m, hit).learned == (
              if hit.decision == AutoMatch && cand != "" && (cand == m.identity.gtin || !w.brandsAgree(m.identity, hit.product))
              then Some(Trusted(cand, "auto_match:" + hit.product.store)) else None)
  {
  }

  /** What one hit does then: a rival takes the barcode away or, with none, brings its own. */
  lemma AtHomeStep(w: World, m: Mind, hit: Hit)
    requires AtHome(w, m)
    ensures var m' := Taught(w, m, hit);
            && m'.identity == m.identity
            && (if Rivals(w, m.identity, hit) then (if m.learned.Some? then m'.learned == None else Astray(m'))
                else if Homes(w, m.identity, hit) then AtHome(w, m') && m'.learned.Some?
                else m' == m)
  {
    assert |"auto_match:" + hit.product.store| >= 11 > |"reference"|;
    if m.learned == None {
      RelearnedIff(w, m, hit);
    } else {
      RivalTakesAway(w, m, hit);
    }
  }

  /** A rival after which no hit so far has shown the identity's barcode again. */
  ghost predicate RivalStands(w: World, identity: Identity, hits: seq<Hit>, from: nat, r: nat, k: nat) {
    from <= r < k <= |hits| && Rivals(w, identity, hits[r]) && forall i :: r < i < k ==> !Homes(w, identity, hits[i])
  }

  lemma {:induction false} StaysAtHome(w: World, m: Mind, hits: seq<Hit>, j: nat, k: nat)
    requires j <= k <= |hits| && Adopted(w, TaughtBy(w, m, hits, j))
    requires forall i :: j <= i <= k ==> !Astray(TaughtBy(w, m, hits, i))
    ensures var now := TaughtBy(w, m, hits, k);
            && AtHome(w, now) && now.identity == TaughtBy(w, m, hits, j).identity
            && (now.learned == None ==> exists r :: RivalStands(w, now.identity, hits, j, r, k))
  {
    if j < k {
      StaysAtHome(w, m, hits, j, k - 1);
      var before, hit := TaughtBy(w, m, hits, k - 1), hits[k - 1];
      AtHomeStep(w, before, hit);
      assert !Astray(TaughtBy(w, m, hits, k));
      if Rivals(w, before.identity, hit) {
        assert RivalStands(w, before.identity, hits, j, k - 1, k);
      } else if before.learned == None && !Homes(w, before.identity, hit) {
        var r :| RivalStands(w, before.identity, hits, j, r, k - 1);
        assert RivalStands(w, before.identity, hits, j, r, k);
      }
    }
  }

  lemma {:induction false} NoneStays(w: World, m: Mind, hits: seq<Hit>, from: nat, k: nat)
    requires from <= k <= |hits|
    requires AtHome(w, TaughtBy(w, m, hits, from)) && TaughtBy(w, m, hits, from).learned == None
    requires forall i :: from <= i < k ==> !Homes(w, TaughtBy(w, m, hits, from).identity, hits[i])
    requires forall i :: from <= i <= k ==> !Astray(TaughtBy(w, m, hits, i))
    ensures TaughtBy(w, m, hits, k) == TaughtBy(w, m, hits, from)
  {
    if from < k {
      NoneStays(w, m, hits, from, k - 1);
      AtHomeStep(w, TaughtBy(w, m, hits, k - 1), hits[k - 1]);
      assert !Astray(TaughtBy(w, m, hits, k));
    }
  }

  /** Two rivals in a row: the first takes the barcode away, the second brings its own. */
  lemma TwoRivalsLeadAstray(w: World, m: Mind, hits: seq<Hit>, j: nat, r: nat, s: nat)
    requires j <= r < s < |hits| && Adopted(w, TaughtBy(w, m, hits, j))
    requires var identity := TaughtBy(w, m, hits, j).identity;
             RivalStands(w, identity, hits, j, r, s) && Rivals(w, identity, hits[s])
    ensures GoesAstray(w, m, hits)
  {
    if forall i :: j <= i <= |hits| ==> !Astray(TaughtBy(w, m, hits, i)) {
      StaysAtHome(w, m, hits, j, r);
      AtHomeStep(w, TaughtBy(w, m, hits, r), hits[r]);
      assert !Astray(TaughtBy(w, m, hits, r + 1));
      NoneStays(w, m, hits, r + 1, s);
      AtHomeStep(w, TaughtBy(w, m, hits, s), hits[s]);
      assert Astray(TaughtBy(w, m, hits, s + 1));
    }
  }

  /** After the first adoption, two rivals with no match of the adopted barcode between them. */
  ghost predicate RivalsInARow(w: World, identity: Identity, hits: seq<Hit>, j: nat, r: nat, s: nat) {
    && j < r < s < |hits| && FirstAdopted(w, identity, hits, j)
    && RivalStands(w, identity.(gtin := w.normalize(hits[j].product.gtin)), hits, j + 1, r, s)
    && Rivals(w, identity.(gtin := w.normalize(hits[j].product.gtin)), hits[s])
  }

  ghost predicate TwoRivals(w: World, identity: Identity, hits: seq<Hit>) {
    exists j, r, s :: RivalsInARow(w, identity, hits, j, r, s)
  }

  lemma {:induction false} FirstAstray(w: World, m: Mind, hits: seq<Hit>, n: nat) returns (k: nat)
    requires n <= |hits| && Astray(TaughtBy(w, m, hits, n))
    ensures k <= n && Astray(TaughtBy(w, m, hits, k)) && forall i :: 0 <= i < k ==> !Astray(TaughtBy(w, m, hits, i))
  {
    if i :| 0 <= i < n && Astray(TaughtBy(w, m, hits, i)) {
      k := FirstAstray(w, m, hits, i);
    } else {
      k := n;
    }
  }

  lemma GoesAstrayIff(w: World, m: Mind, hits: seq<Hit>)
    requires Normalizes(w) && m.learned == None && m.identity.gtin == ""
    ensures GoesAstray(w, m, hits) <==> TwoRivals(w, m.identity, hits)
  {
    var j := FindFirstAdopted(w, m.identity, hits, |hits|);
    NothingAdopted(w, m, hits, j);
    if j < |hits| {
      AdoptionTeaches(w, m, hits[j]);
    }
    if GoesAstray(w, m, hits) {
      var n :| 0 <= n <= |hits| && Astray(TaughtBy(w, m, hits, n));
      var k := FirstAstray(w, m, hits, n);
      if k <= j {
        NothingAdopted(w, m, hits, k);
      }
      StaysAtHome(w, m, hits, j + 1, k - 1);
      var before := TaughtBy(w, m, hits, k - 1);
      AtHomeStep(w, before, hits[k - 1]);
      var r :| RivalStands(w, before.identity, hits, j + 1, r, k - 1);
      assert RivalsInARow(w, m.identity, hits, j, r, k - 1);
    }
    if TwoRivals(w, m.identity, hits) {
      var i, r, s :| RivalsInARow(w, m.identity, hits, i, r, s);
      assert i == j;
      TwoRivalsLeadAstray(w, m, hits, j + 1, r, s);
    }
  }

  /**
   * Of a run over any stores that starts without a barcode: at some point it
   * holds another barcode than it searches for exactly when, after the first
   * adoption, two rivals come with no match of the adopted barcode between them.
   */
  lemma RunGoesAstrayIff(w: World, start: Progress, ordered: seq<string>)
    requires Normalizes(w) && start.learned == None && start.identity.gtin == ""
    ensures var run := RunStores(w, start, ordered, |ordered|);
            var hits := AllHits(run.results);
            && MindOf(run.progress) == TaughtBy(w, MindOf(start), hits, |hits|)
            && (GoesAstray(w, MindOf(start), hits) <==> TwoRivals(w, start.identity, hits))
  {
    RunTeaches(w, start, ordered, |ordered|);
    GoesAstrayIff(w, MindOf(start), AllHits(RunStores(w, start, ordered, |ordered|).results));
  }

  /** A run whose reference had a barcode keeps it as learned, whatever it finds. */
  lemma {:induction false} ReferenceStays(w: World, m: Mind, hits: seq<Hit>, k: nat)
    requires m.learned.Some? && m.learned.value.source == "reference" && m.identity.gtin != "" && k <= |hits|
    ensures TaughtBy(w, m, hits, k) == m
  {
    if k > 0 {
      ReferenceStays(w, m, hits, k - 1);
    }
  }

  // ---- a run that loses one ----

  /** One shop with two products, both matched automatically, of two brands. */
  const TWO_BRANDS: World := World(
    _ => true,
    (store, query, calls) => Candidates(["a", "b"]),
    _ => false,
    (url, calls) => Some(Product("shop", url, url)),
    (identity, product) => Score(AutoMatch, 1.0),
    _ => ["q"],
    gtin => gtin,
    (identity: Identity, product: Product) => product.gtin == "a")

  const UNKNOWN := Progress(Identity("phone", ""), ["q"], None, 0)

  const KNOWN := Progress(Identity("phone", "a"), ["q"], Some(Trusted("a", "auto_match:" + "shop")), 2)

  function MatchOf(gtin: string): Hit {
    Hit("shop", AutoMatch, 1.0, "q", Product("shop", gtin, gtin))
  }

  lemma TwoBrandsConsidered()
    ensures ConsiderAll(TWO_BRANDS, UNKNOWN.(calls := 1), "q", ["a", "b"], 1) == (KNOWN, [MatchOf("a")])
    ensures ConsiderAll(TWO_BRANDS, UNKNOWN.(calls := 1), "q", ["a", "b"], 2)
         == (KNOWN.(learned := None, calls := 3), [MatchOf("a"), MatchOf("b")])
  {
    var w, g, urls := TWO_BRANDS, UNKNOWN.(calls := 1), ["a", "b"];
    assert ConsiderAll(w, g, "q", urls, 0) == (g, []);
    assert Consider(w, g, "q", "a") == (KNOWN, [MatchOf("a")]);
    assert [] + [MatchOf("a")] == [MatchOf("a")];
    assert ConsiderAll(w, g, "q", urls, 1) == (KNOWN, [MatchOf("a")]);
    assert Consider(w, KNOWN, "q", "b") == (KNOWN.(learned := None, calls := 3), [MatchOf("b")]);
    assert [MatchOf("a")] + [MatchOf("b")] == [MatchOf("a"), MatchOf("b")];
  }

  /** The first teaches the run its barcode, the second makes it forget; the identity goes on with the first. */
  lemma TwoBrandsForget()
    ensures Normalizes(TWO_BRANDS)
    ensures var run := RunStores(TWO_BRANDS, UNKNOWN, ["shop"], 1);
            && run.progress.learned == None && run.progress.identity.gtin == "a"
            && AllHits(run.results) == [MatchOf("a"), MatchOf("b")]
            && LosesBarcode(TWO_BRANDS, MindOf(UNKNOWN), AllHits(run.results))
  {
    var w, hits := TWO_BRANDS, [MatchOf("a"), MatchOf("b")];
    TwoBrandsConsidered();
    assert RunQueries(w, "shop", UNKNOWN, ["q"], 0) == Found(UNKNOWN, [], None, false);
    assert [] + hits == hits;
    assert RunQueries(w, "shop", UNKNOWN, ["q"], 1).hits == hits;
    assert Needed(w, "shop", UNKNOWN, ["q"], 1) == 1;
    assert RunStores(w, UNKNOWN, ["shop"], 0) == Run(UNKNOWN, []);
    var results := RunStores(w, UNKNOWN, ["shop"], 1).results;
    assert AllHits(results[..0]) == [];
    RivalLoses(w, MindOf(UNKNOWN), hits, 0, 1);
  }
}
