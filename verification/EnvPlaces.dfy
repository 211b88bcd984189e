/**
 * Where each line of a `.env` file ends up when it is rewritten: in place,
 * dropped, or at the end.
 */
module EnvPlaces {
  import opened Basics
  import opened EnvBinding
  import opened EnvRewrite

  /** A line of a selected key that is not, or no longer, to be written. */
  ghost predicate Dropped(d: Dict, lines: seq<string>, remaining: seq<string>, i: nat)
    requires i < |lines|
  {
    var key := LineKey(lines[i]);
    key in d.values && (key !in remaining || exists j :: 0 <= j < i && LineKey(lines[j]) == key)
  }

  /** The place of line i: how many lines before it are not dropped. */
  ghost function Place(d: Dict, lines: seq<string>, remaining: seq<string>, i: nat): nat
    requires i <= |lines|
  {
    if i == 0 then 0 else Place(d, lines, remaining, i - 1) + if Dropped(d, lines, remaining, i - 1) then 0 else 1
  }

  lemma DroppedShift(d: Dict, line: string, lines: seq<string>, remaining: seq<string>, i: nat)
    requires i < |lines|
    ensures Dropped(d, [line] + lines, remaining, i + 1) <==> Dropped(d, lines, RewriteLine(d, line, remaining).1, i)
  {
    var all, key := [line] + lines, LineKey(lines[i]);
    assert all[i + 1] == lines[i];
    if j :| 0 <= j < i && LineKey(lines[j]) == key {
      assert all[j + 1] == lines[j];
    }
    if j :| 0 <= j < i + 1 && LineKey(all[j]) == key {
      assert j > 0 ==> lines[j - 1] == all[j];
    }
    assert all[0] == line;
  }

  lemma {:induction false} PlaceShift(d: Dict, line: string, lines: seq<string>, remaining: seq<string>, i: nat)
    requires i <= |lines|
    ensures Place(d, [line] + lines, remaining, i + 1)
         == (if Dropped(d, [line] + lines, remaining, 0) then 0 else 1) + Place(d, lines, RewriteLine(d, line, remaining).1, i)
  {
    if i > 0 {
      PlaceShift(d, line, lines, remaining, i - 1);
      DroppedShift(d, line, lines, remaining, i - 1);
    } else {
      assert Place(d, [line] + lines, remaining, 0) == 0;
    }
  }

  lemma FirstPlace(d: Dict, line: string, lines: seq<string>, remaining: seq<string>)
    ensures |RewriteLine(d, line, remaining).0| == if Dropped(d, [line] + lines, remaining, 0) then 0 else 1
    ensures !Dropped(d, [line] + lines, remaining, 0) ==> RewriteLine(d, line, remaining).0 == [Standing(d, line)]
  {
    assert ([line] + lines)[0] == line;
  }

  /** What stands in the place of a line: the new value of a selected key, and any other line as it is. */
  function Standing(d: Dict, line: string): string {
    if LineKey(line) in d.values then LineKey(line) + "=\"" + d.values[LineKey(line)] + "\"" else line
  }

  /** A selected key gets its new value where it first stood, and every other line stays where it was. */
  lemma {:induction false} RewriteInPlace(d: Dict, lines: seq<string>, remaining: seq<string>, i: nat)
    requires (forall k :: k in remaining ==> k in d.values) && i < |lines| && !Dropped(d, lines, remaining, i)
    ensures var out, at := Rewrite(d, lines, remaining), Place(d, lines, remaining, i);
            at < |out| && out[at] == Standing(d, lines[i])
    decreases |lines|
  {
    var line, rest, left := lines[0], lines[1..], RewriteLine(d, lines[0], remaining).1;
    assert lines == [line] + rest;
    RewriteFirst(d, line, rest, remaining);
    FirstPlace(d, line, rest, remaining);
    if i > 0 {
      DroppedShift(d, line, rest, remaining, i - 1);
      PlaceShift(d, line, rest, remaining, i - 1);
      RewriteInPlace(d, rest, left, i - 1);
    }
  }

  /** The keys, in order, that no line has. */
  function Missing(keys: seq<string>, lines: seq<string>): seq<string> {
    if keys == [] then []
    else (if HasLine(lines, keys[0]) then [] else [keys[0]]) + Missing(keys[1..], lines)
  }

  predicate HasLine(lines: seq<string>, key: string) {
    exists i :: 0 <= i < |lines| && LineKey(lines[i]) == key
  }

  lemma {:induction false} MissingAll(keys: seq<string>)
    ensures Missing(keys, []) == keys
  {
    if keys != [] {
      MissingAll(keys[1..]);
    }
  }

  lemma HasLineFirst(line: string, lines: seq<string>, key: string)
    ensures HasLine([line] + lines, key) <==> LineKey(line) == key || HasLine(lines, key)
  {
    var all := [line] + lines;
    assert all[0] == line;
    if i :| 0 <= i < |lines| && LineKey(lines[i]) == key {
      assert all[i + 1] == lines[i];
    }
  }

  lemma {:induction false} MissingFirst(keys: seq<string>, line: string, lines: seq<string>)
    ensures Missing(keys, [line] + lines) == Missing(Without(keys, LineKey(line)), lines)
  {
    if keys != [] {
      MissingFirst(keys[1..], line, lines);
      HasLineFirst(line, lines, keys[0]);
      var more := Without(keys[1..], LineKey(line));
      assert ([keys[0]] + more)[1..] == more;
      assert [] + Missing(more, lines) == Missing(more, lines);
    }
  }

  lemma {:induction false} WithoutNothing(keys: seq<string>, key: string)
    requires key !in keys
    ensures Without(keys, key) == keys
  {
    if keys != [] {
      WithoutNothing(keys[1..], key);
    }
  }

  /** Lines that stand at the end of a file, from some place on. */
  ghost predicate EndWith(d: Dict, out: seq<string>, at: nat, keys: seq<string>) {
    && |out| == at + |keys|
    && forall j :: 0 <= j < |keys| ==> keys[j] in d.values && out[at + j] == keys[j] + "=\"" + d.values[keys[j]] + "\""
  }

  lemma EndWithBehind(d: Dict, first: seq<string>, out: seq<string>, at: nat, keys: seq<string>)
    requires EndWith(d, out, at, keys)
    ensures EndWith(d, first + out, |first| + at, keys)
  {
    forall j | 0 <= j < |keys|
      ensures (first + out)[|first| + at + j] == keys[j] + "=\"" + d.values[keys[j]] + "\""
    {
      assert (first + out)[|first| + at + j] == out[at + j];
    }
  }

  /** And what no line had comes at the end, in the dictionary's order. */
  lemma {:induction false} RewriteAppends(d: Dict, lines: seq<string>, remaining: seq<string>)
    requires forall k :: k in remaining ==> k in d.values
    ensures EndWith(d, Rewrite(d, lines, remaining), Place(d, lines, remaining, |lines|), Missing(remaining, lines))
  {
    if lines == [] {
      MissingAll(remaining);
      AppendIs(d, remaining);
    } else {
      var line, rest := lines[0], lines[1..];
      var (first, left) := RewriteLine(d, line, remaining);
      assert lines == [line] + rest;
      RewriteFirst(d, line, rest, remaining);
      FirstPlace(d, line, rest, remaining);
      PlaceShift(d, line, rest, remaining, |rest|);
      MissingFirst(remaining, line, rest);
      if LineKey(line) !in remaining {
        WithoutNothing(remaining, LineKey(line));
      }
      RewriteAppends(d, rest, left);
      EndWithBehind(d, first, Rewrite(d, rest, left), Place(d, rest, left, |rest|), Missing(left, rest));
    }
  }

  lemma {:induction false} AppendIs(d: Dict, keys: seq<string>)
    requires forall k :: k in keys ==> k in d.values
    ensures |Append(d, keys)| == |keys|
    ensures forall j :: 0 <= j < |keys| ==> Append(d, keys)[j] == keys[j] + "=\"" + d.values[keys[j]] + "\""
  {
    if keys != [] {
      AppendIs(d, keys[1..]);
    }
  }
}
