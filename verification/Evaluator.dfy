/**
 * The offline benchmark of the match engine: loading a reviewed data set whose
 * groups must not straddle splits, and counting how the engine did on one split.
 */
module Evaluator {
  import opened Wrappers
  import opened Basics

  // ---- the data set ----

  datatype Split = Development | Train | Calibration | Validation | Holdout

  /** Labels and predictions share their three values. */
  datatype Label = Same | Different | Uncertain

  datatype Example = Example(sampleId: string, groupId: string, split: Split, gold: Label, category: string, languages: string)

  /** What a line holds: nothing, something that is not an example, or an example. */
  datatype Line = Blank | Invalid | Row(example: Example)

  datatype Dataset = Loaded(examples: seq<Example>) | Empty | Rejected(line: nat)

  function Examples(lines: seq<Line>, n: nat): seq<Example>
    requires n <= |lines|
  {
    if n == 0 then []
    else Examples(lines, n - 1) + if lines[n - 1].Row? then [lines[n - 1].example] else []
  }

  /** The data set holds the examples of the lines that have one, each once, in the order of the file. */
  lemma {:induction false} ExamplesPlaces(lines: seq<Line>, n: nat, holds: nat -> bool)
    requires n <= |lines| && forall i :: 0 <= i < n ==> holds(i) == lines[i].Row?
    ensures var at, r := PlacesOf(n, holds), Examples(lines, n);
            |r| == |at| && forall k :: 0 <= k < |at| ==> at[k] < n && lines[at[k]] == Row(r[k])
  {
    if n > 0 {
      ExamplesPlaces(lines, n - 1, holds);
    }
  }

  ghost predicate Separate(examples: seq<Example>) {
    forall i, j :: 0 <= i < j < |examples| ==>
      && examples[i].sampleId != examples[j].sampleId
      && (examples[i].groupId == examples[j].groupId ==> examples[i].split == examples[j].split)
  }

  /** The first n lines are all that a data set may hold. */
  ghost predicate Acceptable(lines: seq<Line>, n: nat)
    requires n <= |lines|
  {
    (forall i :: 0 <= i < n ==> lines[i] != Invalid) && Separate(Examples(lines, n))
  }

  lemma SeparateMore(examples: seq<Example>, e: Example)
    ensures Separate(examples + [e]) <==>
              && Separate(examples)
              && (forall i :: 0 <= i < |examples| ==> examples[i].sampleId != e.sampleId)
              && (forall i :: 0 <= i < |examples| && examples[i].groupId == e.groupId ==> examples[i].split == e.split)
  {
    var more := examples + [e];
    assert more[|examples|] == e;
    assert forall i :: 0 <= i < |examples| ==> more[i] == examples[i];
  }

  /** What the loader remembers of the examples so far: their samples, and the split of each group. */
  function IdSet(examples: seq<Example>): set<string> {
    if examples == [] then {} else IdSet(examples[..|examples| - 1]) + {examples[|examples| - 1].sampleId}
  }

  function SplitMap(examples: seq<Example>): map<string, Split> {
    if examples == [] then map[]
    else
      var e := examples[|examples| - 1];
      SplitMap(examples[..|examples| - 1])[e.groupId := e.split]
  }

  lemma {:induction false} IdSetMeans(examples: seq<Example>, id: string)
    ensures id in IdSet(examples) <==> exists k :: 0 <= k < |examples| && examples[k].sampleId == id
  {
    if examples != [] {
      var n := |examples| - 1;
      IdSetMeans(examples[..n], id);
      assert forall k :: 0 <= k < n ==> examples[..n][k] == examples[k];
    }
  }

  lemma {:induction false} SplitMapMeans(examples: seq<Example>, g: string)
    requires Separate(examples)
    ensures g in SplitMap(examples) <==> exists k :: 0 <= k < |examples| && examples[k].groupId == g
    ensures forall k :: 0 <= k < |examples| && examples[k].groupId == g ==> SplitMap(examples)[g] == examples[k].split
  {
    if examples != [] {
      var n := |examples| - 1;
      SplitMapMeans(examples[..n], g);
      assert forall k :: 0 <= k < n ==> examples[..n][k] == examples[k];
    }
  }

  predicate Clashes(e: Example, seenIds: set<string>, groupSplits: map<string, Split>) {
    e.sampleId in seenIds || (e.groupId in groupSplits && groupSplits[e.groupId] != e.split)
  }

  lemma ClashesIff(examples: seq<Example>, e: Example)
    requires Separate(examples)
    ensures Separate(examples + [e]) <==> !Clashes(e, IdSet(examples), SplitMap(examples))
  {
    SeparateMore(examples, e);
    IdSetMeans(examples, e.sampleId);
    SplitMapMeans(examples, e.groupId);
  }

  /** Line by line: what the loader checks as it reads. */
  predicate Readable(lines: seq<Line>, n: nat)
    requires n <= |lines|
  {
    n == 0 ||
    (Readable(lines, n - 1) &&
     match lines[n - 1]
     case Blank => true
     case Invalid => false
     case Row(e) => !Clashes(e, IdSet(Examples(lines, n - 1)), SplitMap(Examples(lines, n - 1))))
  }

  /** Its checks come to the two conditions on the data set as a whole. */
  lemma {:induction false} ReadableIff(lines: seq<Line>, n: nat)
    requires n <= |lines|
    ensures Readable(lines, n) <==> Acceptable(lines, n)
  {
    if n > 0 {
      ReadableIff(lines, n - 1);
      var so := Examples(lines, n - 1);
      match lines[n - 1]
      case Row(e) =>
        SeparateMore(so, e);
        if Separate(so) {
          ClashesIff(so, e);
        }
      case _ =>
        assert Examples(lines, n) == so;
    }
  }

  lemma {:induction false} UnreadableStays(lines: seq<Line>, n: nat, m: nat)
    requires n <= m <= |lines| && !Readable(lines, n)
    ensures !Readable(lines, m)
    decreases m
  {
    if n < m {
      UnreadableStays(lines, n, m - 1);
    }
  }

  /** The first bad line, counted from 1, or 0 and all examples. */
  method ReadLines(lines: seq<Line>) returns (examples: seq<Example>, bad: nat)
    ensures bad <= |lines|
    ensures bad == 0 ==> Readable(lines, |lines|) && examples == Examples(lines, |lines|)
    ensures bad > 0 ==> Readable(lines, bad - 1) && !Readable(lines, bad)
  {
    var seenIds: set<string>, groupSplits: map<string, Split> := {}, map[];
    examples := [];
    var i := 0;
    while i < |lines|
      invariant 0 <= i <= |lines|
      invariant examples == Examples(lines, i) && Readable(lines, i)
      invariant seenIds == IdSet(examples) && groupSplits == SplitMap(examples)
    {
      match lines[i] {
      case Row(e) =>
        if Clashes(e, seenIds, groupSplits) {
          return examples, i + 1;
        }
        ghost var so := examples;
        examples := examples + [e];
        assert examples[..|so|] == so;
        seenIds := seenIds + {e.sampleId};
        groupSplits := groupSplits[e.groupId := e.split];
      case Invalid =>
        return examples, i + 1;
      case Blank =>
      }
      i := i + 1;
    }
    bad := 0;
  }

  /**
   * `load_dataset`: accepts exactly the data sets whose samples are distinct and
   * whose groups keep to one split, and otherwise names the first line by which
   * that is no longer so.
   */
  method LoadDataset(lines: seq<Line>) returns (r: Dataset)
    ensures r.Loaded? <==> Acceptable(lines, |lines|) && Examples(lines, |lines|) != []
    ensures r.Loaded? ==> r.examples == Examples(lines, |lines|) && Separate(r.examples)
    ensures r.Empty? <==> Acceptable(lines, |lines|) && Examples(lines, |lines|) == []
    ensures r.Rejected? ==> 0 < r.line <= |lines| && Acceptable(lines, r.line - 1) && !Acceptable(lines, r.line)
  {
    var examples, bad := ReadLines(lines);
    ReadableIff(lines, |lines|);
    if bad > 0 {
      ReadableIff(lines, bad - 1);
      ReadableIff(lines, bad);
      UnreadableStays(lines, bad, |lines|);
      return Rejected(bad);
    }
    return if examples == [] then Empty else Loaded(examples);
  }

  // ---- one split ----

  function Select(examples: seq<Example>, split: Split): (r: seq<Example>)
    ensures forall k :: 0 <= k < |r| ==> r[k] in examples && r[k].split == split
  {
    if examples == [] then []
    else
      var n := |examples| - 1;
      Select(examples[..n], split) + if examples[n].split == split then [examples[n]] else []
  }

  /** Selections for two different splits never share a group or a sample. */
  lemma SplitsIsolated(examples: seq<Example>, a: Split, b: Split, i: nat, j: nat)
    requires Separate(examples) && a != b
    requires i < |Select(examples, a)| && j < |Select(examples, b)|
    ensures Select(examples, a)[i].groupId != Select(examples, b)[j].groupId
    ensures Select(examples, a)[i].sampleId != Select(examples, b)[j].sampleId
  {
    var x, y := Select(examples, a)[i], Select(examples, b)[j];
    var p :| 0 <= p < |examples| && examples[p] == x;
    var q :| 0 <= q < |examples| && examples[q] == y;
    assert p != q;
  }

  // ---- counting ----

  /** An example with what the engine said about it. */
  datatype Case = Case(gold: Label, prediction: Label, category: string, languages: string)

  function Count(cases: seq<Case>, f: Case -> bool): nat {
    if cases == [] then 0 else Count(cases[1..], f) + if f(cases[0]) then 1 else 0
  }

  function Is(gold: Label, prediction: Label): Case -> bool {
    (c: Case) => c.gold == gold && c.prediction == prediction
  }

  function IsMissed(gold: Label): Case -> bool {
    (c: Case) => c.gold == gold && c.prediction != Same
  }

  function HasGold(gold: Label): Case -> bool {
    (c: Case) => c.gold == gold
  }

  function HasPrediction(prediction: Label): Case -> bool {
    (c: Case) => c.prediction == prediction
  }

  function Cell(cases: seq<Case>, gold: Label, prediction: Label): nat {
    Count(cases, Is(gold, prediction))
  }

  /** The rows of the confusion matrix add up to the label counts, its columns to the decision counts. */
  lemma {:induction false} ConfusionConserves(cases: seq<Case>, x: Label)
    ensures Cell(cases, x, Same) + Cell(cases, x, Different) + Cell(cases, x, Uncertain) == Count(cases, HasGold(x))
    ensures Cell(cases, Same, x) + Cell(cases, Different, x) + Cell(cases, Uncertain, x) == Count(cases, HasPrediction(x))
  {
    if cases != [] {
      ConfusionConserves(cases[1..], x);
    }
  }

  function Binary(cases: seq<Case>): (r: seq<Case>) {
    if cases == [] then [] else (if cases[0].gold != Uncertain then [cases[0]] else []) + Binary(cases[1..])
  }

  datatype Metrics = Metrics(
    count: nat, tp: nat, fp: nat, fn: nat, tn: nat,
    precision: Option<real>, recall: Option<real>, f1: Option<real>, falsePositiveRate: Option<real>)

  function Measure(rows: seq<Case>): Metrics {
    var tp, fp := Count(rows, Is(Same, Same)), Count(rows, Is(Different, Same));
    var fn, tn := Count(rows, IsMissed(Same)), Count(rows, IsMissed(Different));
    Metrics(|rows|, tp, fp, fn, tn, Ratio(tp, tp + fp), Ratio(tp, tp + fn), F1(tp, fp, fn), Ratio(fp, fp + tn))
  }

  lemma {:induction false} MetricsConserve(rows: seq<Case>)
    requires forall i :: 0 <= i < |rows| ==> rows[i].gold != Uncertain
    ensures var m := Measure(rows); m.tp + m.fp + m.fn + m.tn == m.count
  {
    if rows != [] {
      MetricsConserve(rows[1..]);
    }
  }

  lemma CountMore(c: Case, cases: seq<Case>, f: Case -> bool)
    ensures Count([c] + cases, f) == Count(cases, f) + if f(c) then 1 else 0
  {
    assert ([c] + cases)[1..] == cases;
  }

  lemma {:induction false} BinaryCount(cases: seq<Case>, f: Case -> bool)
    requires forall c: Case :: f(c) ==> c.gold != Uncertain
    ensures Count(Binary(cases), f) == Count(cases, f)
  {
    if cases != [] {
      BinaryCount(cases[1..], f);
      CountMore(cases[0], Binary(cases[1..]), f);
      assert [] + Binary(cases[1..]) == Binary(cases[1..]);
    }
  }

  lemma {:induction false} MissedCells(cases: seq<Case>, x: Label)
    ensures Count(cases, IsMissed(x)) == Cell(cases, x, Different) + Cell(cases, x, Uncertain)
  {
    if cases != [] {
      MissedCells(cases[1..], x);
    }
  }

  lemma {:induction false} BinaryLabelled(cases: seq<Case>)
    ensures forall i :: 0 <= i < |Binary(cases)| ==> Binary(cases)[i].gold != Uncertain
  {
    if cases != [] {
      BinaryLabelled(cases[1..]);
    }
  }

  /** The four numbers of the binary metrics are sums of cells of the confusion matrix. */
  lemma BinaryCells(cases: seq<Case>)
    ensures var m := Measure(Binary(cases));
            && m.tp == Cell(cases, Same, Same) && m.fp == Cell(cases, Different, Same)
            && m.fn == Cell(cases, Same, Different) + Cell(cases, Same, Uncertain)
            && m.tn == Cell(cases, Different, Different) + Cell(cases, Different, Uncertain)
  {
    BinaryCount(cases, Is(Same, Same));
    BinaryCount(cases, Is(Different, Same));
    BinaryCount(cases, IsMissed(Same));
    BinaryCount(cases, IsMissed(Different));
    MissedCells(cases, Same);
    MissedCells(cases, Different);
  }

  /** Every case that is not uncertain is exactly one of the four. */
  lemma BinaryConserves(cases: seq<Case>)
    ensures var m := Measure(Binary(cases));
            m.tp + m.fp + m.fn + m.tn == m.count
            == Count(cases, HasGold(Same)) + Count(cases, HasGold(Different))
  {
    BinaryCells(cases);
    BinaryLabelled(cases);
    MetricsConserve(Binary(cases));
    ConfusionConserves(cases, Same);
    ConfusionConserves(cases, Different);
  }

  // ---- precision, recall, F1 ----

  function Ratio(part: nat, whole: nat): Option<real> {
    if whole == 0 then None else Some(part as real / whole as real)
  }

  function F1(tp: nat, fp: nat, fn: nat): Option<real> {
    var precision, recall := Ratio(tp, tp + fp), Ratio(tp, tp + fn);
    if precision == None || recall == None then None
    else if precision.value + recall.value == 0.0 then Some(0.0)
    else Some(Harmonic(precision.value, recall.value))
  }

  function Harmonic(x: real, y: real): real
    requires x + y != 0.0
  {
    2.0 * x * y / (x + y)
  }

  /** With tp = t, tp + fp = a and tp + fn = b: the harmonic mean of the ratios in closed form. */
  lemma HarmonicMean(t: real, a: real, b: real, x: real, y: real)
    requires 0.0 < t <= a && t <= b && x == t / a && y == t / b
    ensures x > 0.0 && y > 0.0
    ensures Harmonic(x, y) == 2.0 * t / (a + b)
    ensures Min(x, y) <= 2.0 * t / (a + b) <= Max(x, y)
  {
    var f := 2.0 * t / (a + b);
    assert x * a == t && y * b == t && f * (a + b) == 2.0 * t;
    assert x > 0.0 && y > 0.0;
    CrossMultiply(f, t, a, b, x, y);
    assert Harmonic(x, y) == f by {
      assert f * (x + y) / (x + y) == f;
    }
    Between(f, x, y);
  }

  lemma CrossMultiply(f: real, t: real, a: real, b: real, x: real, y: real)
    requires t > 0.0 && x * a == t && y * b == t && f * (a + b) == 2.0 * t
    ensures f * (x + y) == 2.0 * x * y
  {
    var u, v := f * (x + y), 2.0 * x * y;
    assert (a + b) * (x * y) == t * (x + y) by {
      assert a * (x * y) == (x * a) * y;
      assert b * (x * y) == (y * b) * x;
    }
    assert f * (t * (x + y)) == (f * (a + b)) * (x * y);
    assert t * u == t * v;
    Cancel(t, u, v);
  }

  lemma Cancel(t: real, u: real, v: real)
    requires t > 0.0 && t * u == t * v
    ensures u == v
  {
    assert t * (u - v) == 0.0;
  }

  lemma SignOf(a: real, s: real)
    requires s > 0.0
    ensures a < 0.0 ==> a * s < 0.0
  {
    if a < 0.0 {
      assert (-a) * s > 0.0;
    }
  }

  lemma BetweenOrdered(f: real, lo: real, hi: real)
    requires 0.0 < lo <= hi && f * (lo + hi) == 2.0 * lo * hi
    ensures lo <= f <= hi
  {
    var s, d := lo + hi, hi - lo;
    assert lo * s == lo * lo + lo * hi && hi * s == lo * hi + hi * hi;
    assert lo * d == lo * hi - lo * lo && hi * d == hi * hi - lo * hi;
    assert (f - lo) * s == f * s - lo * s && (hi - f) * s == hi * s - f * s;
    assert lo * d >= 0.0 && hi * d >= 0.0;
    SignOf(f - lo, s);
    SignOf(hi - f, s);
  }

  lemma Between(f: real, x: real, y: real)
    requires x > 0.0 && y > 0.0 && f * (x + y) == 2.0 * x * y
    ensures Min(x, y) <= f <= Max(x, y)
  {
    if x <= y {
      BetweenOrdered(f, x, y);
    } else {
      assert 2.0 * y * x == 2.0 * x * y;
      BetweenOrdered(f, y, x);
    }
  }

  /** F1 is defined when both ratios are; it is 2tp / (2tp + fp + fn) and lies between them. */
  lemma F1ClosedForm(tp: nat, fp: nat, fn: nat)
    ensures F1(tp, fp, fn).Some? <==> tp + fp > 0 && tp + fn > 0
    ensures F1(tp, fp, fn).Some? ==>
              var p, r := Ratio(tp, tp + fp).value, Ratio(tp, tp + fn).value;
              && F1(tp, fp, fn) == Ratio(2 * tp, 2 * tp + fp + fn)
              && Min(p, r) <= F1(tp, fp, fn).value <= Max(p, r)
  {
    if tp + fp > 0 && tp + fn > 0 {
      var t, a, b := tp as real, (tp + fp) as real, (tp + fn) as real;
      F1IsHarmonic(tp, fp, fn, t, a, b);
      var p, r := t / a, t / b;
      if tp > 0 {
        HarmonicMean(t, a, b, p, r);
        assert F1(tp, fp, fn) == Some(Harmonic(p, r));
      } else {
        assert F1(tp, fp, fn) == Some(0.0);
      }
    }
  }

  lemma F1IsHarmonic(tp: nat, fp: nat, fn: nat, t: real, a: real, b: real)
    requires tp + fp > 0 && tp + fn > 0
    requires t == tp as real && a == (tp + fp) as real && b == (tp + fn) as real
    ensures Ratio(tp, tp + fp) == Some(t / a) && Ratio(tp, tp + fn) == Some(t / b)
    ensures Ratio(2 * tp, 2 * tp + fp + fn) == Some(2.0 * t / (a + b))
    ensures t == 0.0 ==> t / a == 0.0 && t / b == 0.0 && 2.0 * t / (a + b) == 0.0
  {
    var u, v := (2 * tp) as real, (2 * tp + fp + fn) as real;
    assert u == 2.0 * t && v == a + b;
    assert u / v == 2.0 * t / (a + b);
    if t == 0.0 {
      assert 0.0 / a == 0.0 && 0.0 / b == 0.0 && 0.0 / (a + b) == 0.0;
    }
  }

  /** A share of a whole, to be there exactly when there is a whole. */
  predicate IsShare(r: Option<real>, part: nat, whole: nat) {
    if whole == 0 then r == None else r.Some? && r.value * whole as real == part as real && 0.0 <= r.value <= 1.0
  }

  lemma RatioIsShare(part: nat, whole: nat)
    requires part <= whole
    ensures IsShare(Ratio(part, whole), part, whole)
  {
    if whole > 0 {
      var p, w := part as real, whole as real;
      assert p / w * w == p;
    }
  }

  /** What the ratios of a metrics block are shares of: precision of the predicted, recall of the labelled, and so on. */
  lemma MetricsRatios(rows: seq<Case>)
    ensures var m := Measure(rows);
            && IsShare(m.precision, m.tp, m.tp + m.fp)
            && IsShare(m.recall, m.tp, m.tp + m.fn)
            && IsShare(m.falsePositiveRate, m.fp, m.fp + m.tn)
            && (m.f1.Some? <==> m.precision.Some? && m.recall.Some?)
            && (m.f1.Some? ==>
                  && IsShare(m.f1, 2 * m.tp, 2 * m.tp + m.fp + m.fn)
                  && Min(m.precision.value, m.recall.value) <= m.f1.value <= Max(m.precision.value, m.recall.value))
  {
    var m := Measure(rows);
    F1ClosedForm(m.tp, m.fp, m.fn);
    RatioIsShare(m.tp, m.tp + m.fp);
    RatioIsShare(m.tp, m.tp + m.fn);
    RatioIsShare(m.fp, m.fp + m.tn);
    RatioIsShare(2 * m.tp, 2 * m.tp + m.fp + m.fn);
  }

  // ---- groups ----

  function Having(cases: seq<Case>, key: Case -> string, k: string): seq<Case> {
    if cases == [] then [] else (if key(cases[0]) == k then [cases[0]] else []) + Having(cases[1..], key, k)
  }

  function Total(keys: seq<string>, f: string -> nat): nat {
    if keys == [] then 0 else f(keys[0]) + Total(keys[1..], f)
  }

  lemma {:induction false} TotalOfOne(keys: seq<string>, k: string, f: string -> nat, g: string -> nat)
    requires Distinct(keys) && k in keys
    requires forall x :: x in keys ==> f(x) == g(x) + if x == k then 1 else 0
    ensures Total(keys, f) == Total(keys, g) + 1
  {
    if keys[0] == k {
      TotalSame(keys[1..], f, g);
    } else {
      TotalOfOne(keys[1..], k, f, g);
    }
  }

  lemma {:induction false} TotalSame(keys: seq<string>, f: string -> nat, g: string -> nat)
    requires forall x :: x in keys ==> f(x) == g(x)
    ensures Total(keys, f) == Total(keys, g)
  {
    if keys != [] {
      TotalSame(keys[1..], f, g);
    }
  }

  lemma {:induction false} TotalZero(keys: seq<string>, f: string -> nat)
    requires forall x :: x in keys ==> f(x) == 0
    ensures Total(keys, f) == 0
  {
    if keys != [] {
      TotalZero(keys[1..], f);
    }
  }

  lemma {:induction false} GroupsConserve(cases: seq<Case>, key: Case -> string, keys: seq<string>, what: Case -> bool)
    requires Distinct(keys) && forall i :: 0 <= i < |cases| ==> key(cases[i]) in keys
    ensures Total(keys, k => Count(Having(cases, key, k), what)) == Count(cases, what)
  {
    var f: string -> nat := k => Count(Having(cases, key, k), what);
    if cases == [] {
      TotalZero(keys, f);
    } else {
      var g: string -> nat := k => Count(Having(cases[1..], key, k), what);
      GroupsConserve(cases[1..], key, keys, what);
      forall k | k in keys
        ensures f(k) == g(k) + if k == key(cases[0]) && what(cases[0]) then 1 else 0
      {
        var more := Having(cases[1..], key, k);
        assert ([cases[0]] + more)[1..] == more;
        assert [] + more == more;
      }
      if what(cases[0]) {
        TotalOfOne(keys, key(cases[0]), f, g);
      } else {
        TotalSame(keys, f, g);
      }
    }
  }

  // ---- the groups of the report ----

  function CategoryKey(c: Case): string { "category:" + c.category }

  function LanguageKey(c: Case): string { "language_pair:" + c.languages }

  predicate OfCategory(k: string) {
    |k| > 0 && k[0] == 'c'
  }

  /** The rows filed under a key: no row has one key in both roles. */
  function InGroup(rows: seq<Case>, k: string): seq<Case> {
    Having(rows, if OfCategory(k) then CategoryKey else LanguageKey, k)
  }

  lemma {:induction false} HavingMore(rows: seq<Case>, c: Case, key: Case -> string, k: string)
    ensures Having(rows + [c], key, k) == Having(rows, key, k) + if key(c) == k then [c] else []
  {
    var last := if key(c) == k then [c] else [];
    if rows == [] {
      assert rows + [c] == [c];
      assert Having([c][1..], key, k) == [];
      assert [] + last == last && last + [] == last;
    } else {
      var head := if key(rows[0]) == k then [rows[0]] else [];
      assert (rows + [c])[1..] == rows[1..] + [c];
      HavingMore(rows[1..], c, key, k);
      assert head + (Having(rows[1..], key, k) + last) == head + Having(rows[1..], key, k) + last;
    }
  }

  /** One more case goes to the end of two groups, and of no others. */
  lemma InGroupMore(rows: seq<Case>, c: Case, k: string)
    ensures InGroup([], k) == []
    ensures InGroup(rows + [c], k) ==
              InGroup(rows, k) + if k == "category:" + c.category || k == "language_pair:" + c.languages then [c] else []
  {
    assert CategoryKey(c)[0] == 'c' && LanguageKey(c)[0] == 'l';
    HavingMore(rows, c, if OfCategory(k) then CategoryKey else LanguageKey, k);
  }

  ghost predicate Files(groups: map<string, seq<Case>>, rows: seq<Case>) {
    forall k :: InGroup(rows, k) == if k in groups then groups[k] else []
  }

  function File(groups: map<string, seq<Case>>, k: string, c: Case): map<string, seq<Case>> {
    groups[k := (if k in groups then groups[k] else []) + [c]]
  }

  lemma FilesMore(groups: map<string, seq<Case>>, rows: seq<Case>, c: Case)
    requires Files(groups, rows)
    ensures Files(File(File(groups, CategoryKey(c), c), LanguageKey(c), c), rows + [c])
  {
    assert CategoryKey(c)[0] == 'c' && LanguageKey(c)[0] == 'l';
    var more := File(File(groups, CategoryKey(c), c), LanguageKey(c), c);
    forall k
      ensures InGroup(rows + [c], k) == if k in more then more[k] else []
    {
      InGroupMore(rows, c, k);
      assert InGroup(rows, k) == if k in groups then groups[k] else [];
    }
  }

  lemma BinaryFirst(c: Case, rest: seq<Case>)
    ensures Binary([c] + rest) == if c.gold != Uncertain then [c] + Binary(rest) else Binary(rest)
  {
    assert ([c] + rest)[1..] == rest;
    assert [] + Binary(rest) == Binary(rest);
  }

  lemma Reassociate<T>(a: seq<T>, b: seq<T>, c: seq<T>)
    ensures a + (b + c) == (a + b) + c
  {
  }

  lemma TailSplit<T>(xs: seq<T>, i: nat)
    requires i < |xs|
    ensures xs[i..] == [xs[i]] + xs[i + 1..]
  {
  }

  lemma BinaryMore(cases: seq<Case>, i: nat, rows: seq<Case>, c: Case, rest: seq<Case>)
    requires i < |cases| && c == cases[i] && rest == cases[i + 1..]
    requires Binary(cases) == rows + Binary(cases[i..])
    ensures Binary(cases) == if c.gold != Uncertain then (rows + [c]) + Binary(rest) else rows + Binary(rest)
  {
    TailSplit(cases, i);
    BinaryFirst(c, rest);
    if c.gold != Uncertain {
      Reassociate(rows, [c], Binary(rest));
    }
  }

  lemma NoneLeft(cases: seq<Case>, i: nat, rows: seq<Case>)
    requires i == |cases| && Binary(cases) == rows + Binary(cases[i..])
    ensures rows == Binary(cases)
  {
    assert cases[i..] == [];
  }

  /** Every row that is not uncertain is filed under its category and its language pair. */
  method GroupCases(cases: seq<Case>) returns (groups: map<string, seq<Case>>)
    ensures Files(groups, Binary(cases))
  {
    groups := map[];
    ghost var rows: seq<Case> := [];
    var i := 0;
    assert cases[0..] == cases;
    while i < |cases|
      invariant 0 <= i <= |cases|
      invariant Binary(cases) == rows + Binary(cases[i..])
      invariant Files(groups, rows)
    {
      var c := cases[i];
      BinaryMore(cases, i, rows, c, cases[i + 1..]);
      if c.gold != Uncertain {
        FilesMore(groups, rows, c);
        groups := File(groups, CategoryKey(c), c);
        groups := File(groups, LanguageKey(c), c);
        rows := rows + [c];
      }
      i := i + 1;
    }
    NoneLeft(cases, i, rows);
  }

  /**
   * Whatever is counted, the groups of the categories together count what all
   * rows count, and so do the groups of the language pairs.
   */
  lemma GroupsSumToWhole(groups: map<string, seq<Case>>, rows: seq<Case>, keys: seq<string>, category: bool, what: Case -> bool)
    requires Files(groups, rows) && Distinct(keys)
    requires forall k :: k in keys <==> k in groups && OfCategory(k) == category
    ensures Total(keys, k => if k in groups then Count(groups[k], what) else 0) == Count(rows, what)
  {
    var key := if category then CategoryKey else LanguageKey;
    forall i | 0 <= i < |rows|
      ensures key(rows[i]) in keys
    {
      FiledUnderKey(groups, rows, category, i);
    }
    GroupsConserve(rows, key, keys, what);
    TotalSame(keys, k => if k in groups then Count(groups[k], what) else 0, k => Count(Having(rows, key, k), what));
  }

  lemma FiledUnderKey(groups: map<string, seq<Case>>, rows: seq<Case>, category: bool, i: nat)
    requires Files(groups, rows) && i < |rows|
    ensures var k := (if category then CategoryKey else LanguageKey)(rows[i]); k in groups && OfCategory(k) == category
  {
    var key := if category then CategoryKey else LanguageKey;
    assert CategoryKey(rows[i])[0] == 'c' && LanguageKey(rows[i])[0] == 'l';
    HasItself(rows, key, i);
    assert InGroup(rows, key(rows[i])) != [];
  }

  lemma {:induction false} HasItself(rows: seq<Case>, key: Case -> string, i: nat)
    requires i < |rows|
    ensures Having(rows, key, key(rows[i])) != []
  {
    if i > 0 {
      HasItself(rows[1..], key, i - 1);
    }
  }

  // ---- evaluate ----

  datatype Decision = AutoMatch | Reject | Review

  function Predict(d: Decision): Label {
    match d case AutoMatch => Same case Reject => Different case Review => Uncertain
  }

  function Judge(examples: seq<Example>, score: Example -> Decision): (cases: seq<Case>)
    ensures |cases| == |examples|
    ensures forall i :: 0 <= i < |cases| ==>
              cases[i] == Case(examples[i].gold, Predict(score(examples[i])), examples[i].category, examples[i].languages)
  {
    seq(|examples|, i requires 0 <= i < |examples| =>
      Case(examples[i].gold, Predict(score(examples[i])), examples[i].category, examples[i].languages))
  }

  function ConfusionRow(cases: seq<Case>, gold: Label): map<Label, nat> {
    map[Same := Cell(cases, gold, Same), Different := Cell(cases, gold, Different), Uncertain := Cell(cases, gold, Uncertain)]
  }

  function Confusion(cases: seq<Case>): map<Label, map<Label, nat>> {
    map[Same := ConfusionRow(cases, Same), Different := ConfusionRow(cases, Different), Uncertain := ConfusionRow(cases, Uncertain)]
  }

  /** One line of the report's case list. */
  datatype Verdict = Verdict(sampleId: string, gold: Label, prediction: Label, decision: Decision)

  function VerdictOn(e: Example, d: Decision): Verdict {
    Verdict(e.sampleId, e.gold, Predict(d), d)
  }

  datatype Report =
    | NoSamples
    | Report(
        samples: nat,
        labelCounts: map<Label, nat>,
        decisionCounts: map<Label, nat>,
        confusion: map<Label, map<Label, nat>>,
        metrics: Metrics,
        cases: seq<Verdict>,
        groups: map<string, Metrics>)

  /** A counter holds a count for what occurs, and nothing else. */
  ghost predicate Counts(counter: map<Label, nat>, cases: seq<Case>, has: Label -> (Case -> bool)) {
    forall x :: (x in counter <==> Count(cases, has(x)) > 0) && (x in counter ==> counter[x] == Count(cases, has(x)))
  }

  function Counter(cases: seq<Case>, has: Label -> (Case -> bool)): map<Label, nat> {
    map x: Label | x in {Same, Different, Uncertain} && Count(cases, has(x)) > 0 :: Count(cases, has(x))
  }

  lemma CounterCounts(cases: seq<Case>, has: Label -> (Case -> bool))
    ensures Counts(Counter(cases, has), cases, has)
  {
    forall x: Label
      ensures x in {Same, Different, Uncertain} && (x in Counter(cases, has) <==> Count(cases, has(x)) > 0)
    {
      match x case Same => case Different => case Uncertain =>
    }
  }

  /** What the confusion matrix says of a label, and of a prediction, is what the counters say. */
  lemma CountersMatchConfusion(cases: seq<Case>, x: Label)
    ensures var c, labels, decisions := Confusion(cases), Counter(cases, HasGold), Counter(cases, HasPrediction);
            && c[x][Same] + c[x][Different] + c[x][Uncertain] == (if x in labels then labels[x] else 0)
            && c[Same][x] + c[Different][x] + c[Uncertain][x] == (if x in decisions then decisions[x] else 0)
  {
    ConfusionConserves(cases, x);
    CounterCounts(cases, HasGold);
    CounterCounts(cases, HasPrediction);
  }

  /** `evaluate`: everything in the report is counted over the cases of the chosen split alone. */
  method Evaluate(examples: seq<Example>, split: Split, score: Example -> Decision) returns (r: Report)
    ensures r.NoSamples? <==> forall i :: 0 <= i < |examples| ==> examples[i].split != split
    ensures r.Report? ==>
              var cases := Judge(Select(examples, split), score);
              var rows := Binary(cases);
              && r.samples == |cases| == |r.cases|
              && Counts(r.labelCounts, cases, HasGold) && Counts(r.decisionCounts, cases, HasPrediction)
              && r.confusion == Confusion(cases)
              && (forall i :: 0 <= i < |cases| ==>
                    var e := Select(examples, split)[i];
                    var said := if score(e).AutoMatch? then Same else if score(e).Reject? then Different else Uncertain;
                    r.cases[i] == Verdict(e.sampleId, e.gold, said, score(e)) && cases[i].gold == e.gold && cases[i].prediction == said)
              && r.metrics == Measure(rows)
              && (forall k :: k in r.groups <==> InGroup(rows, k) != [])
              && (forall k :: k in r.groups ==> r.groups[k] == Measure(InGroup(rows, k)))
  {
    var selected := Select(examples, split);
    SelectEmptyIff(examples, split);
    if selected == [] {
      return NoSamples;
    }
    var cases := Judge(selected, score);
    var groups := GroupCases(cases);
    var measured := map k | k in groups && groups[k] != [] :: Measure(groups[k]);
    CounterCounts(cases, HasGold);
    CounterCounts(cases, HasPrediction);
    var verdicts := seq(|selected|, i requires 0 <= i < |selected| => VerdictOn(selected[i], score(selected[i])));
    r := Report(|selected|, Counter(cases, HasGold), Counter(cases, HasPrediction), Confusion(cases),
                Measure(Binary(cases)), verdicts, measured);
  }

  lemma SelectMore(examples: seq<Example>, split: Split, n: nat)
    requires n < |examples|
    ensures Select(examples[..n + 1], split) ==
              Select(examples[..n], split) + if examples[n].split == split then [examples[n]] else []
  {
    assert examples[..n + 1][..n] == examples[..n];
  }

  /** The selection takes the examples of the split, each once, in the order of the file. */
  lemma {:induction false} SelectPlaces(examples: seq<Example>, split: Split, n: nat, chosen: nat -> bool)
    requires n <= |examples| && forall i :: 0 <= i < n ==> chosen(i) == (examples[i].split == split)
    ensures var at, r := PlacesOf(n, chosen), Select(examples[..n], split);
            |r| == |at| && forall k :: 0 <= k < |at| ==> at[k] < n && r[k] == examples[at[k]]
  {
    if n > 0 {
      SelectPlaces(examples, split, n - 1, chosen);
      SelectMore(examples, split, n - 1);
    }
  }

  lemma {:induction false} SelectEmptyIff(examples: seq<Example>, split: Split)
    ensures Select(examples, split) == [] <==> forall i :: 0 <= i < |examples| ==> examples[i].split != split
  {
    if examples != [] {
      var n := |examples| - 1;
      SelectEmptyIff(examples[..n], split);
      assert forall i :: 0 <= i < n ==> examples[..n][i] == examples[i];
    }
  }
}
