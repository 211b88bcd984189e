/** What counting braces cuts out of a text, by how many braces are opened and closed. */
module ProductCut {
  import opened Wrappers
  import opened BraceScanner
  import opened NaiveScanner
  import opened ProductSearch

  /** How many more braces have been opened than closed in the first n characters. */
  function Surplus(s: string, n: nat): int
    requires n <= |s|
  {
    if n == 0 then 0 else Surplus(s, n - 1) + if s[n - 1] == '{' then 1 else if s[n - 1] == '}' then -1 else 0
  }

  lemma {:induction false} SurplusBehind(c: char, s: string, n: nat)
    requires n <= |s|
    ensures Surplus([c] + s, n + 1) == Surplus(s, n) + if c == '{' then 1 else if c == '}' then -1 else 0
  {
    if n > 0 {
      SurplusBehind(c, s, n - 1);
      assert ([c] + s)[n] == s[n - 1];
    } else {
      assert Surplus([c] + s, 0) == 0;
    }
  }

  /** A count from `depth` closes at the first closing brace that brings depth and surplus to zero. */
  ghost predicate ClosesAt(s: string, depth: int, n: nat) {
    0 < n <= |s| && s[n - 1] == '}' && depth + Surplus(s, n) == 0
  }

  lemma {:induction false} CountClosesFirst(s: string, depth: int, n: nat)
    ensures CountClose(s, depth) == Upto(n)
       <==> ClosesAt(s, depth, n) && forall m :: 0 < m < n ==> !ClosesAt(s, depth, m)
  {
    if s != "" {
      var c, rest := s[0], s[1..];
      assert s == [c] + rest;
      var d := depth + Delta(c);
      FirstCloses(s, depth);
      if n > 0 {
        CountClosesFirst(rest, d, n - 1);
        forall m | 0 < m < n
          ensures ClosesAt(s, depth, m + 1) <==> ClosesAt(rest, d, m)
        {
          ClosesBehind(c, rest, depth, m);
        }
        if n > 1 {
          ClosesBehind(c, rest, depth, n - 1);
        }
        assert forall m :: 1 < m < n ==> (ClosesAt(s, depth, m) <==> ClosesAt(rest, d, m - 1));
      }
    }
  }

  lemma FirstCloses(s: string, depth: int)
    requires s != ""
    ensures ClosesAt(s, depth, 1) <==> s[0] == '}' && depth == 1
  {
    assert Surplus(s, 1) == Surplus(s, 0) + if s[0] == '{' then 1 else if s[0] == '}' then -1 else 0;
  }

  lemma ClosesBehind(c: char, rest: string, depth: int, m: nat)
    requires m > 0
    ensures ClosesAt([c] + rest, depth, m + 1) <==> ClosesAt(rest, depth + Delta(c), m)
  {
    if m <= |rest| {
      SurplusBehind(c, rest, m);
      assert ([c] + rest)[m] == rest[m - 1];
    }
  }

  /** What is cut out is the shortest text from `start` on that ends in a closing brace and opens as many as it closes. */
  lemma CutIsShortest(blob: string, start: nat, n: nat)
    requires start + n <= |blob| && n > 0
    requires var s := blob[start..]; ClosesAt(s, 0, n) && forall m :: 0 < m < n ==> !ClosesAt(s, 0, m)
    ensures Cut(blob, start) == blob[start..start + n]
  {
    CountClosesFirst(blob[start..], 0, n);
  }

  /** And nothing is, if there is no such text. */
  lemma CutNothing(blob: string, start: nat)
    requires start <= |blob| && forall n :: !ClosesAt(blob[start..], 0, n)
    ensures Cut(blob, start) == ""
  {
    var e := CountClose(blob[start..], 0);
    if e.Upto? {
      CountClosesFirst(blob[start..], 0, e.count);
    }
  }
}
