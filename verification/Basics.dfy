/** A few definitions that several of the models share. */
module Basics {
  function Min(a: real, b: real): real { if a <= b then a else b }

  function Max(a: real, b: real): real { if a <= b then b else a }

  predicate Distinct<T(==)>(xs: seq<T>) {
    xs == [] || (xs[0] !in xs[1..] && Distinct(xs[1..]))
  }

  lemma {:induction false} DistinctIff<T>(xs: seq<T>)
    ensures Distinct(xs) <==> forall i, j :: 0 <= i < j < |xs| ==> xs[i] != xs[j]
  {
    if xs != [] {
      DistinctIff(xs[1..]);
      var tail := xs[1..];
      assert forall i :: 0 <= i < |tail| ==> tail[i] == xs[i + 1];
      if Distinct(xs) {
        forall i, j | 0 <= i < j < |xs|
          ensures xs[i] != xs[j]
        {
          assert xs[j] == tail[j - 1] && (i > 0 ==> xs[i] == tail[i - 1]);
        }
      } else if xs[0] in tail {
        var j :| 0 <= j < |tail| && tail[j] == xs[0];
        assert xs[0] == xs[j + 1];
      } else {
        var i, j :| 0 <= i < j < |tail| && tail[i] == tail[j];
        assert xs[i + 1] == xs[j + 1];
      }
    }
  }

  function PlacesOf(n: nat, f: nat -> bool): seq<nat> {
    if n == 0 then [] else PlacesOf(n - 1, f) + if f(n - 1) then [n - 1] else []
  }

  /** They are the numbers below n of which f holds, each once, in order. */
  lemma {:induction false} PlacesAre(n: nat, f: nat -> bool)
    ensures forall i: nat :: i in PlacesOf(n, f) <==> i < n && f(i)
    ensures forall j, k :: 0 <= j < k < |PlacesOf(n, f)| ==> PlacesOf(n, f)[j] < PlacesOf(n, f)[k]
  {
    if n > 0 {
      PlacesAre(n - 1, f);
      var before := PlacesOf(n - 1, f);
      assert forall j :: 0 <= j < |before| ==> before[j] in before;
    }
  }
}
