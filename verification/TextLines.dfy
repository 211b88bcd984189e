/**
 * Splitting a text into lines, as Python does it, and writing lines to a text,
 * each with a newline behind it.
 */
module TextLines {
  import opened Characters

  predicate Unbroken(s: string) {
    forall i :: 0 <= i < |s| ==> !IsBreak(s[i])
  }

  // ---- splitting ----

  function FirstBreak(s: string): (n: nat)
    ensures n <= |s| && forall i :: 0 <= i < n ==> !IsBreak(s[i])
    ensures n < |s| ==> IsBreak(s[n])
  {
    if s == "" || IsBreak(s[0]) then 0
    else
      1 + FirstBreak(s[1..])
  }

  /** A carriage return and the newline after it are one break. */
  function BreakLength(s: string, n: nat): (k: nat)
    requires n < |s|
    ensures 1 <= k <= 2 && n + k <= |s|
  {
    if s[n] == '\r' && n + 1 < |s| && s[n + 1] == '\n' then 2 else 1
  }

  function SplitLines(s: string): seq<string>
    decreases |s|
  {
    if s == "" then []
    else
      var n := FirstBreak(s);
      if n == |s| then [s]
      else [s[..n]] + SplitLines(s[n + BreakLength(s, n)..])
  }

  /** What ends a line, character by character. */
  predicate EndsLine(c: char) {
    || c == '\n' || c == '\r' || c == '\U{B}' || c == '\U{C}' || c == '\U{1C}' || c == '\U{1D}' || c == '\U{1E}'
    || c == '\U{85}' || c == '\U{2028}' || c == '\U{2029}'
  }

  predicate NoBreakIn(line: string) {
    forall i :: 0 <= i < |line| ==> !EndsLine(line[i])
  }

  /** A break of k characters at n: one of these, or a carriage return and the newline behind it, which are one break. */
  predicate BreaksAt(s: string, n: nat, k: nat) {
    && n + k <= |s|
    && if n + 1 < |s| && s[n] == '\r' && s[n + 1] == '\n' then k == 2 else k == 1 && EndsLine(s[n])
  }

  /** A text laid out as lines, each with a break behind it but for the last, which may lack it if it is not empty. */
  ghost predicate LaidOut(s: string, lines: seq<string>)
    decreases |lines|
  {
    if lines == [] then s == ""
    else
      NoBreakIn(lines[0]) &&
      if s == lines[0] then s != "" && |lines| == 1
      else lines[0] <= s && exists k :: BreaksAt(s, |lines[0]|, k) && LaidOut(s[|lines[0]| + k..], lines[1..])
  }

  lemma UnbrokenIs(line: string)
    ensures Unbroken(line) <==> NoBreakIn(line)
  {
    assert forall c :: IsBreak(c) <==> EndsLine(c);
  }

  lemma FirstBreakAt(s: string, n: nat)
    requires n < |s| && IsBreak(s[n]) && Unbroken(s[..n])
    ensures FirstBreak(s) == n
  {
    assert forall i :: 0 <= i < n ==> s[..n][i] == s[i];
  }

  /** Where a line ends and how long the break is are determined. */
  lemma BreakFound(s: string, line: string, k: nat)
    requires NoBreakIn(line) && line <= s && BreaksAt(s, |line|, k)
    ensures FirstBreak(s) == |line| < |s| && s[..|line|] == line && k == BreakLength(s, |line|)
  {
    UnbrokenIs(line);
    assert forall c :: IsBreak(c) <==> EndsLine(c);
    FirstBreakAt(s, |line|);
  }

  lemma BreakThere(s: string, n: nat)
    requires n < |s| && IsBreak(s[n])
    ensures BreaksAt(s, n, BreakLength(s, n))
  {
  }

  /** Splitting a text gives the one list of lines that lays it out, so that nothing of it is lost. */
  lemma {:induction false} SplitLinesIff(s: string, lines: seq<string>)
    ensures lines == SplitLines(s) <==> LaidOut(s, lines)
    decreases |lines| + |s|
  {
    if lines == [] {
      assert s != "" ==> SplitLines(s) != [];
    } else if s == "" {
      if LaidOut(s, lines) {
        LaidOutNotEmpty(s, lines);
      }
    } else {
      var n := FirstBreak(s);
      if n == |s| {
        SplitUnbroken(s, lines);
      } else {
        var k := BreakLength(s, n);
        SplitAtBreak(s, n, k);
        SplitLinesIff(s[n + k..], lines[1..]);
        LaidOutBroken(s, lines, n, k);
        FirstAndRest(lines, s[..n], SplitLines(s[n + k..]));
      }
    }
  }

  lemma LaidOutNotEmpty(s: string, lines: seq<string>)
    requires lines != [] && LaidOut(s, lines)
    ensures s != ""
  {
  }

  lemma SplitUnbroken(s: string, lines: seq<string>)
    requires s != "" && lines != [] && FirstBreak(s) == |s|
    ensures lines == SplitLines(s) <==> LaidOut(s, lines)
  {
    assert SplitLines(s) == [s];
    assert s[..|s|] == s;
    UnbrokenIs(s);
    if LaidOut(s, lines) && s != lines[0] {
      var k :| BreaksAt(s, |lines[0]|, k);
      BreakFound(s, lines[0], k);
    }
  }

  lemma SplitAtBreak(s: string, n: nat, k: nat)
    requires s != "" && n == FirstBreak(s) < |s| && k == BreakLength(s, n)
    ensures SplitLines(s) == [s[..n]] + SplitLines(s[n + k..])
  {
  }

  lemma FirstAndRest(lines: seq<string>, line: string, rest: seq<string>)
    requires lines != []
    ensures lines == [line] + rest <==> lines[0] == line && lines[1..] == rest
  {
    assert lines == [lines[0]] + lines[1..];
    assert ([line] + rest)[1..] == rest;
  }

  lemma LaidOutBroken(s: string, lines: seq<string>, n: nat, k: nat)
    requires lines != [] && n == FirstBreak(s) < |s| && k == BreakLength(s, n)
    ensures LaidOut(s, lines) <==> lines[0] == s[..n] && LaidOut(s[n + k..], lines[1..])
  {
    var line := s[..n];
    UnbrokenIs(line);
    if lines[0] == line && LaidOut(s[n + k..], lines[1..]) {
      BreakThere(s, n);
    }
    if LaidOut(s, lines) {
      WholeLineUnbroken(s, lines[0]);
      var j :| BreaksAt(s, |lines[0]|, j) && LaidOut(s[|lines[0]| + j..], lines[1..]);
      BreakFound(s, lines[0], j);
    }
  }

  lemma WholeLineUnbroken(s: string, line: string)
    requires NoBreakIn(line) && FirstBreak(s) < |s|
    ensures s != line
  {
    UnbrokenIs(line);
  }

  function JoinLines(lines: seq<string>): string {
    if lines == [] then "" else if |lines| == 1 then lines[0] else lines[0] + ("\n" + JoinLines(lines[1..]))
  }

  /** What is written to the file. */
  function Text(lines: seq<string>): string {
    JoinLines(lines) + "\n"
  }

  ghost predicate AllUnbroken(lines: seq<string>) {
    forall i :: 0 <= i < |lines| ==> Unbroken(lines[i])
  }

  lemma {:induction false} SplitIsUnbroken(s: string)
    ensures AllUnbroken(SplitLines(s))
    decreases |s|
  {
    if s != "" {
      var n := FirstBreak(s);
      if n == |s| {
        assert s[..n] == s;
      } else {
        SplitIsUnbroken(s[n + BreakLength(s, n)..]);
      }
    }
  }

  lemma JoinParts(line: string, rest: string)
    ensures var s := line + ("\n" + rest); |line| < |s| && s[|line|] == '\n' && s[..|line|] == line && s[|line| + 1..] == rest
  {
  }

  lemma SplitFirst(line: string, rest: string)
    requires Unbroken(line)
    ensures SplitLines(line + ("\n" + rest)) == [line] + SplitLines(rest)
  {
    var s := line + ("\n" + rest);
    JoinParts(line, rest);
    FirstBreakAt(s, |line|);
    SplitAtBreak(s, |line|, 1);
  }

  /** Lines that hold no break come back from the text as they were written. */
  lemma {:induction false} SplitInvertsText(lines: seq<string>)
    requires lines != [] && AllUnbroken(lines)
    ensures SplitLines(Text(lines)) == lines
  {
    if |lines| == 1 {
      SplitFirst(lines[0], "");
      assert lines[0] + ("\n" + "") == Text(lines);
    } else {
      SplitInvertsText(lines[1..]);
      SplitFirst(lines[0], Text(lines[1..]));
      assert lines[0] + ("\n" + Text(lines[1..])) == Text(lines);
      assert [lines[0]] + lines[1..] == lines;
    }
  }

  // ---- where a line stands ----

  /** A line of a text: at its beginning or behind a newline, and with one behind it. */
  ghost predicate Stands(text: string, line: string) {
    exists a, b :: text == a + (line + ("\n" + b)) && (a == "" || a[|a| - 1] == '\n')
  }

  lemma StandsFirst(line: string, b: string)
    ensures Stands(line + ("\n" + b), line)
  {
    assert line + ("\n" + b) == "" + (line + ("\n" + b));
  }

  lemma Nest(a: string, b: string, c: string)
    ensures a + ("\n" + (b + c)) == (a + "\n" + b) + c
    ensures b == "" || b[|b| - 1] == '\n' ==> (a + "\n" + b)[|a + "\n" + b| - 1] == '\n'
  {
  }

  lemma StandsBehind(head: string, rest: string, line: string)
    requires Stands(rest, line)
    ensures Stands(head + ("\n" + rest), line)
  {
    var a, b :| rest == a + (line + ("\n" + b)) && (a == "" || a[|a| - 1] == '\n');
    Nest(head, a, line + ("\n" + b));
  }

  lemma TextFirst(lines: seq<string>)
    requires lines != []
    ensures Text(lines) == lines[0] + ("\n" + if |lines| == 1 then "" else Text(lines[1..]))
  {
    if |lines| > 1 {
      var j := JoinLines(lines[1..]);
      assert (lines[0] + ("\n" + j)) + "\n" == lines[0] + ("\n" + (j + "\n"));
    }
  }

  lemma {:induction false} WrittenStands(lines: seq<string>, i: nat)
    requires i < |lines|
    ensures Stands(Text(lines), lines[i])
  {
    TextFirst(lines);
    if i == 0 {
      StandsFirst(lines[0], if |lines| == 1 then "" else Text(lines[1..]));
    } else {
      WrittenStands(lines[1..], i - 1);
      StandsBehind(lines[0], Text(lines[1..]), lines[i]);
    }
  }
}
