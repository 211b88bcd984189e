/**
 * Finding a product in a page's script text: every occurrence of its name, a
 * colon and an opening brace is cut by counting braces, until a cut parses to
 * a product that is wanted.
 */
module ProductSearch {
  import opened Wrappers
  import opened Characters
  import opened BraceScanner
  import opened NaiveScanner

  // ---- the occurrences ----

  const WORD := "\"product\""

  /** Where the brace stands if a text begins with a colon and a brace, whitespace before each. */
  function BraceBehind(rest: string): (n: Option<nat>)
    ensures n.Some? ==> 0 < n.value < |rest| && rest[n.value] == '{'
  {
    var a := Spaces(rest);
    if a == |rest| || rest[a] != ':' then None
    else
      var b := Spaces(rest[a + 1..]);
      if a + 1 + b == |rest| || rest[a + 1 + b] != '{' then None else Some(a + 1 + b)
  }

  /** And if the word stands in front of that. */
  function BraceOf(s: string): (n: Option<nat>)
    ensures n.Some? ==> 9 < n.value < |s| && s[n.value] == '{' && s[..9] == WORD
  {
    if |s| < 9 || s[..9] != WORD || BraceBehind(s[9..]) == None then None else Some(9 + BraceBehind(s[9..]).value)
  }

  /** The brace of the occurrence that begins at `i`, if one does. */
  function Occurs(blob: string, i: nat): (b: Option<nat>)
    requires i <= |blob|
    ensures b.Some? ==> i + 9 < b.value < |blob| && blob[b.value] == '{'
  {
    var n := BraceOf(blob[i..]);
    if n.Some? then Some(i + n.value) else None
  }

  /** The braces of all occurrences from `from` on, each search going on behind the last match. */
  function Braces(blob: string, from: nat): (starts: seq<nat>)
    requires from <= |blob|
    ensures forall k :: 0 <= k < |starts| ==> from < starts[k] < |blob| && blob[starts[k]] == '{'
    ensures forall j, k :: 0 <= j < k < |starts| ==> starts[j] < starts[k]
    decreases |blob| - from
  {
    if from == |blob| then []
    else
      match Occurs(blob, from)
      case None => Braces(blob, from + 1)
      case Some(b) => [b] + Braces(blob, b + 1)
  }

  lemma WordStarts(s: string)
    requires BraceOf(s).Some?
    ensures s[0] == '"' && s[1] == 'p'
  {
    assert s[..9][0] == s[0] && s[..9][1] == s[1];
  }

  lemma NoQuoteInWord(s: string, k: nat)
    requires |s| >= 9 && s[..9] == WORD && 0 < k < 8
    ensures s[k] != '"' && s[8] == '"'
  {
    assert s[k] == s[..9][k] && s[8] == s[..9][8];
  }

  lemma SpacesAre(a: string, s: string)
    requires (forall i :: 0 <= i < |a| ==> IsSpace(a[i])) && s != "" && !IsSpace(s[0])
    ensures Spaces(a + s) == |a|
  {
    assert (a + s)[|a|] == s[0];
    assert forall i :: 0 <= i < |a| ==> (a + s)[i] == a[i];
  }

  lemma BraceFrom(rest: string, tail: string, m: nat, n: nat)
    requires Spaces(rest) == m < |rest| && rest[m] == ':' && rest[m + 1..] == tail
    requires Spaces(tail) == n < |tail| && tail[n] == '{'
    ensures BraceBehind(rest) == Some(m + 1 + n)
  {
    assert rest[m + 1 + n] == tail[n];
  }

  /** Whitespace, then a character that is none, and what is behind it. */
  lemma SpacedOut(a: string, c: char, more: string, s: string)
    requires s == a + ([c] + more) && !IsSpace(c) && forall i :: 0 <= i < |a| ==> IsSpace(a[i])
    ensures Spaces(s) == |a| < |s| && s[|a|] == c && s[|a| + 1..] == more
  {
    SpacesAre(a, [c] + more);
  }

  lemma WordInFront(s: string, rest: string, n: nat)
    requires s == "\"product\"" + rest && BraceBehind(rest) == Some(n)
    ensures BraceOf(s) == Some(9 + n)
  {
    assert s[..9] == WORD && s[9..] == rest;
  }

  lemma BehindSpelled(a: string, b: string, more: string, tail: string, rest: string)
    requires (forall i :: 0 <= i < |a| ==> IsSpace(a[i])) && (forall i :: 0 <= i < |b| ==> IsSpace(b[i]))
    requires rest == a + ([':'] + tail) && tail == b + (['{'] + more)
    ensures BraceBehind(rest) == Some(|a| + 1 + |b|)
  {
    SpacedOut(a, ':', tail, rest);
    SpacedOut(b, '{', more, tail);
    BraceFrom(rest, tail, |a|, |b|);
  }

  /** The quoted word, any whitespace, a colon, any whitespace, a brace, and anything. */
  ghost predicate Spells(s: string, a: string, b: string, more: string) {
    && s == "\"product\"" + (a + ([':'] + (b + (['{'] + more))))
    && (forall i :: 0 <= i < |a| ==> IsSpace(a[i])) && (forall i :: 0 <= i < |b| ==> IsSpace(b[i]))
  }

  /** That is an occurrence. */
  lemma OccurrenceSpelled(s: string, a: string, b: string, more: string)
    requires Spells(s, a, b, more)
    ensures BraceOf(s) == Some(9 + |a| + 1 + |b|)
  {
    var tail := b + (['{'] + more);
    var rest := a + ([':'] + tail);
    BehindSpelled(a, b, more, tail, rest);
    WordInFront(s, rest, |a| + 1 + |b|);
  }

  /** Whitespace up to a character that is none. */
  lemma CutAt(s: string, c: char)
    requires Spaces(s) < |s| && s[Spaces(s)] == c
    ensures var a := s[..Spaces(s)]; s == a + ([c] + s[Spaces(s) + 1..]) && forall i :: 0 <= i < |a| ==> IsSpace(a[i])
  {
    var n := Spaces(s);
    assert s[n..] == [c] + s[n + 1..] && s == s[..n] + s[n..];
  }

  lemma ColonAndBrace(rest: string) returns (a: string, b: string, more: string)
    requires BraceBehind(rest).Some?
    ensures rest == a + ([':'] + (b + (['{'] + more)))
    ensures (forall i :: 0 <= i < |a| ==> IsSpace(a[i])) && (forall i :: 0 <= i < |b| ==> IsSpace(b[i]))
  {
    var m := Spaces(rest);
    var tail := rest[m + 1..];
    BraceAtTail(rest, m, tail);
    CutAt(rest, ':');
    CutAt(tail, '{');
    a, b, more := rest[..m], tail[..Spaces(tail)], tail[Spaces(tail) + 1..];
  }

  lemma BraceAtTail(rest: string, m: nat, tail: string)
    requires BraceBehind(rest).Some? && m == Spaces(rest) && m < |rest| && tail == rest[m + 1..]
    ensures rest[m] == ':' && Spaces(tail) < |tail| && tail[Spaces(tail)] == '{'
  {
    assert rest[m + 1 + Spaces(tail)] == tail[Spaces(tail)];
  }

  /** And nothing else is one. */
  lemma OnlyOccurrences(s: string) returns (a: string, b: string, more: string)
    requires BraceOf(s).Some?
    ensures Spells(s, a, b, more)
  {
    a, b, more := ColonAndBrace(s[9..]);
    assert s == s[..9] + s[9..];
  }

  /** Behind the word there is only whitespace, a colon and the brace. */
  lemma AfterWord(s: string, k: nat)
    requires BraceOf(s).Some? && 9 <= k <= BraceOf(s).value
    ensures IsSpace(s[k]) || s[k] == ':' || s[k] == '{'
  {
    assert s[k] == s[9..][k - 9];
    BehindWord(s[9..], k - 9);
  }

  lemma BehindWord(rest: string, k: nat)
    requires BraceBehind(rest).Some? && k <= BraceBehind(rest).value
    ensures IsSpace(rest[k]) || rest[k] == ':' || rest[k] == '{'
  {
    var n, a := BraceBehind(rest).value, Spaces(rest);
    if a < k < n {
      assert rest[a + 1..][k - a - 1] == rest[k];
    }
  }

  /** Behind its first character, no occurrence looks like the beginning of one. */
  lemma InsideOccurrence(s: string, k: nat)
    requires BraceOf(s).Some? && 0 < k <= BraceOf(s).value
    ensures s[k] != '"' || s[k + 1] != 'p'
  {
    if k < 8 {
      NoQuoteInWord(s, k);
    } else if k == 8 {
      AfterWord(s, 9);
    } else {
      AfterWord(s, k);
    }
  }

  /** No other occurrence begins inside one. */
  lemma NoOverlap(blob: string, i: nat, j: nat)
    requires i <= |blob| && Occurs(blob, i).Some? && i < j <= Occurs(blob, i).value
    ensures Occurs(blob, j) == None
  {
    var s, t := blob[i..], blob[j..];
    InsideOccurrence(s, j - i);
    if BraceOf(t).Some? {
      WordStarts(t);
    }
  }

  function Occurrences(blob: string): nat -> Option<nat> {
    (i: nat) => if i <= |blob| then Occurs(blob, i) else None
  }

  /** A brace that an occurrence from `from` on leads to. */
  ghost predicate Leads(occurs: nat -> Option<nat>, from: nat, b: nat) {
    exists i :: from <= i && occurs(i) == Some(b)
  }

  lemma LeadsOn(occurs: nat -> Option<nat>, from: nat, next: nat, b: nat)
    requires from < next && forall i :: from < i < next ==> occurs(i) == None
    ensures Leads(occurs, from, b) <==> occurs(from) == Some(b) || Leads(occurs, next, b)
  {
  }

  /** So the search misses none, and finds nothing else. */
  lemma {:induction false} BracesIff(blob: string, from: nat, b: nat)
    requires from <= |blob|
    ensures b in Braces(blob, from) <==> Leads(Occurrences(blob), from, b)
    decreases |blob| - from
  {
    if from < |blob| {
      var next := if Occurs(blob, from).Some? then Occurs(blob, from).value + 1 else from + 1;
      forall i | from < i < next
        ensures Occurrences(blob)(i) == None
      {
        NoOverlap(blob, from, i);
      }
      LeadsOn(Occurrences(blob), from, next, b);
      BracesIff(blob, next, b);
    } else {
      NothingAtEnd(blob);
    }
  }

  lemma NothingAtEnd(blob: string)
    ensures Occurs(blob, |blob|) == None
  {
  }

  /** At every place of a text, an occurrence is just what is so spelled there. */
  lemma OccursSpelled(blob: string, i: nat, a: string, b: string, more: string)
    requires i <= |blob| && Spells(blob[i..], a, b, more)
    ensures Occurs(blob, i) == Some(i + (9 + |a| + 1 + |b|))
  {
    OccurrenceSpelled(blob[i..], a, b, more);
  }

  lemma OnlySpelledOccurs(blob: string, i: nat) returns (a: string, b: string, more: string)
    requires i <= |blob| && Occurs(blob, i).Some?
    ensures Spells(blob[i..], a, b, more)
  {
    a, b, more := OnlyOccurrences(blob[i..]);
  }

  // ---- extract_product ----

  /** What is cut out at one occurrence: nothing at all when the count never returns to zero. */
  function Cut(blob: string, start: nat): string
    requires start <= |blob|
  {
    var e := CountClose(blob[start..], 0);
    if e.Upto? then blob[start..start + e.count] else ""
  }

  ghost predicate Usable<V>(blob: string, start: nat, parse: string -> Option<V>, wanted: V -> bool)
    requires start <= |blob|
  {
    var v := parse(Cut(blob, start));
    v.Some? && wanted(v.value)
  }

  ghost predicate IsFirstUsable<V>(blob: string, starts: seq<nat>, k: nat, parse: string -> Option<V>, wanted: V -> bool)
    requires k < |starts| && forall j :: 0 <= j < |starts| ==> starts[j] <= |blob|
  {
    Usable(blob, starts[k], parse, wanted) && forall j :: 0 <= j < k ==> !Usable(blob, starts[j], parse, wanted)
  }

  /** `extract_product`: the first occurrence whose object parses and is wanted. */
  method ExtractProduct<V>(blob: string, parse: string -> Option<V>, wanted: V -> bool)
    returns (r: Option<V>)
    ensures var starts := Braces(blob, 0);
            && (r.None? <==> forall k :: 0 <= k < |starts| ==> !Usable(blob, starts[k], parse, wanted))
            && (r.Some? ==>
                  exists k :: 0 <= k < |starts| && IsFirstUsable(blob, starts, k, parse, wanted) && r == parse(Cut(blob, starts[k])))
  {
    var starts := Braces(blob, 0);
    var k := 0;
    while k < |starts|
      invariant k <= |starts|
      invariant forall j :: 0 <= j < k ==> !Usable(blob, starts[j], parse, wanted)
    {
      var start := starts[k];
      var end := CountFrom(blob, start);
      var value := parse(blob[start..end]);
      assert Usable(blob, start, parse, wanted) <==> value.Some? && wanted(value.value);
      if value.Some? && wanted(value.value) {
        assert IsFirstUsable(blob, starts, k, parse, wanted);
        return value;
      }
      k := k + 1;
    }
    return None;
  }

  method CountFrom(blob: string, start: nat) returns (end: nat)
    requires start < |blob|
    ensures start <= end <= |blob| && blob[start..end] == Cut(blob, start)
  {
    end := start;
    var depth, i := 0, start;
    assert blob[start..] == blob[i..];
    while i < |blob|
      invariant start <= i <= |blob|
      invariant CountClose(blob[start..], 0) == Shift(i - start, CountClose(blob[i..], depth))
    {
      var ch := blob[i];
      assert blob[i..][1..] == blob[i + 1..];
      i := i + 1;
      if ch == '{' {
        depth := depth + 1;
      } else if ch == '}' {
        depth := depth - 1;
        if depth == 0 {
          end := i;
          return;
        }
      }
    }
  }
}
