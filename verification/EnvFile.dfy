/**
 * The `.env` file: rewriting selected keys in place, and loading the file into
 * an environment. The two undo each other, for exactly the values that survive
 * both quoting and line splitting.
 */
module EnvFile {
  import opened Wrappers
  import opened Basics
  import opened Characters
  import opened TextLines
  import opened EnvBinding
  import opened EnvRewrite
  import opened EnvPlaces

  // ---- the file as a whole ----

  function Rewritten(d: Dict, content: string): string
    requires DictOk(d)
  {
    Text(Rewrite(d, SplitLines(content), d.order))
  }

  /** However the file's text is laid out, each of its lines stands in the written one, a selected key's with its new value. */
  lemma EveryLineWritten(d: Dict, content: string, lines: seq<string>, i: nat)
    requires DictOk(d) && LaidOut(content, lines) && i < |lines|
    ensures LineKey(lines[i]) !in d.values ==> Stands(Rewritten(d, content), lines[i])
    ensures LineKey(lines[i]) in d.values ==>
              Stands(Rewritten(d, content), LineKey(lines[i]) + "=\"" + d.values[LineKey(lines[i])] + "\"")
  {
    SplitLinesIff(content, lines);
    var out, key := Rewrite(d, lines, d.order), LineKey(lines[i]);
    var j := FirstWithKey(lines, i);
    if key in d.values {
      RewriteInPlace(d, lines, d.order, j);
      WrittenStands(out, Place(d, lines, d.order, j));
    } else {
      RewriteInPlace(d, lines, d.order, i);
      WrittenStands(out, Place(d, lines, d.order, i));
    }
  }

  lemma {:induction false} FirstWithKey(lines: seq<string>, i: nat) returns (j: nat)
    requires i < |lines|
    ensures j <= i && LineKey(lines[j]) == LineKey(lines[i])
    ensures forall k :: 0 <= k < j ==> LineKey(lines[k]) != LineKey(lines[i])
  {
    j := i;
    if k :| 0 <= k < i && LineKey(lines[k]) == LineKey(lines[i]) {
      j := FirstWithKey(lines, k);
    }
  }

  predicate ValuesUnbroken(d: Dict) {
    forall k :: k in d.values ==> Unbroken(d.values[k])
  }

  lemma LineUnbroken(d: Dict, key: string)
    requires KeysOk(d) && key in d.values && Unbroken(d.values[key])
    ensures Unbroken(Line(d, key))
  {
  }

  lemma {:induction false} AppendUnbroken(d: Dict, keys: seq<string>)
    requires KeysOk(d) && ValuesUnbroken(d) && (forall k :: k in keys ==> k in d.values)
    ensures AllUnbroken(Append(d, keys))
  {
    if keys != [] {
      AppendUnbroken(d, keys[1..]);
      LineUnbroken(d, keys[0]);
    }
  }

  lemma {:induction false} RewriteUnbroken(d: Dict, lines: seq<string>, remaining: seq<string>)
    requires KeysOk(d) && ValuesUnbroken(d) && AllUnbroken(lines) && (forall k :: k in remaining ==> k in d.values)
    ensures AllUnbroken(Rewrite(d, lines, remaining))
  {
    if lines == [] {
      AppendUnbroken(d, remaining);
    } else {
      RewriteUnbroken(d, lines[1..], RewriteLine(d, lines[0], remaining).1);
      if LineKey(lines[0]) in d.values {
        LineUnbroken(d, LineKey(lines[0]));
      }
    }
  }

  /** The rewritten file's lines are the rewritten lines; an empty file gets one blank line. */
  lemma RewrittenLines(d: Dict, content: string)
    requires KeysOk(d) && ValuesUnbroken(d)
    ensures var lines := Rewrite(d, SplitLines(content), d.order);
            SplitLines(Rewritten(d, content)) == if lines == [] then [""] else lines
  {
    var lines := Rewrite(d, SplitLines(content), d.order);
    SplitIsUnbroken(content);
    RewriteUnbroken(d, SplitLines(content), d.order);
    if lines == [] {
      SplitFirst("", "");
      assert "" + ("\n" + "") == Text(lines);
    } else {
      SplitInvertsText(lines);
    }
  }

  /** Loading the rewritten file gives what it gave before, overridden by the new values. */
  lemma LoadUndoesRewrite(d: Dict, content: string, key: string)
    requires KeysOk(d) && ValuesUnbroken(d)
    ensures First(SplitLines(Rewritten(d, content)), key)
         == if key in d.values then Some(Loaded(d, key)) else First(SplitLines(content), key)
  {
    RewrittenLines(d, content);
    FirstRewritten(d, SplitLines(content), d.order, key);
    assert Trim("", Space) == "";
    assert First([""], key) == None;
  }

  lemma BindingUnbroken(raw: string)
    requires Unbroken(raw) && Binding(raw).Some?
    ensures Unbroken(Binding(raw).value.1)
  {
    var line := Trim(raw, Space);
    TrimIsTight(raw, Space);
    var v := After(line);
    TrimIsTight(v, Space);
    TrimIsTight(Trim(v, Space), DoubleQuote);
    TrimIsTight(Trim(Trim(v, Space), DoubleQuote), SingleQuote);
  }

  lemma {:induction false} FirstUnbroken(lines: seq<string>, key: string)
    requires AllUnbroken(lines) && First(lines, key).Some?
    ensures Unbroken(First(lines, key).value)
  {
    if Binding(lines[0]).Some? && Binding(lines[0]).value.0 == key {
      BindingUnbroken(lines[0]);
    } else {
      FirstUnbroken(lines[1..], key);
    }
  }

  /** Loading the rewritten file into an empty environment goes through and gives every value as it was written. */
  ghost predicate ReadsBack(d: Dict, content: string)
    requires DictOk(d)
  {
    var lines := SplitLines(Rewritten(d, content));
    (forall key :: Stores(key, First(lines, key))) && (forall k :: k in d.values ==> First(lines, k) == Some(d.values[k]))
  }

  /** What a value must be like to read back, and its key; and what the rest of the file must be like. */
  ghost predicate Readable(d: Dict, content: string) {
    && (forall k :: k in d.values ==>
          Unbroken(d.values[k]) && Tight(d.values[k], SingleQuote) && Storable(k) && Storable(d.values[k]))
    && forall key :: key !in d.values ==> Stores(key, First(SplitLines(content), key))
  }

  lemma ReadBackUnbroken(d: Dict, content: string)
    requires KeysOk(d) && ReadsBack(d, content)
    ensures ValuesUnbroken(d)
  {
    forall k | k in d.values
      ensures Unbroken(d.values[k])
    {
      SplitIsUnbroken(Rewritten(d, content));
      FirstUnbroken(SplitLines(Rewritten(d, content)), k);
    }
  }

  /**
   * The guard refuses newlines, carriage returns, double quotes, backslashes and
   * dollar signs. The accepted values that all read back are exactly those
   * without any other line separator, without a NUL, and without an apostrophe
   * at either end, in a file that binds no other key with a NUL.
   */
  lemma ReadsBackIff(d: Dict, content: string)
    requires KeysOk(d)
    ensures ReadsBack(d, content) <==> Readable(d, content)
  {
    if ReadsBack(d, content) {
      ReadBackUnbroken(d, content);
    }
    if ValuesUnbroken(d) {
      forall key
        ensures First(SplitLines(Rewritten(d, content)), key)
             == if key in d.values then Some(Loaded(d, key)) else First(SplitLines(content), key)
        ensures key in d.values ==> (Loaded(d, key) == d.values[key] <==> Tight(d.values[key], SingleQuote))
      {
        LoadUndoesRewrite(d, content, key);
        if key in d.values {
          TrimChangesUnlessTight(d.values[key], SingleQuote);
        }
      }
      ReadsBackHere(d, content);
    }
  }

  lemma ReadsBackHere(d: Dict, content: string)
    requires KeysOk(d) && ValuesUnbroken(d)
    requires forall key :: First(SplitLines(Rewritten(d, content)), key)
                        == if key in d.values then Some(Loaded(d, key)) else First(SplitLines(content), key)
    requires forall key :: key in d.values ==> (Loaded(d, key) == d.values[key] <==> Tight(d.values[key], SingleQuote))
    ensures ReadsBack(d, content) <==> Readable(d, content)
  {
    var lines := SplitLines(Rewritten(d, content));
    if ReadsBack(d, content) {
      forall k | k in d.values
        ensures Tight(d.values[k], SingleQuote) && Storable(k) && Storable(d.values[k])
      {
        assert Stores(k, First(lines, k));
      }
      forall key | key !in d.values
        ensures Stores(key, First(SplitLines(content), key))
      {
        assert Stores(key, First(lines, key));
      }
    }
  }

  const APOSTROPHES := Dict(["K"], map["K" := "'x'"])

  /** A value the guard accepts and the loader strips. */
  lemma ApostrophesLost()
    ensures KeysOk(APOSTROPHES) && !ReadsBack(APOSTROPHES, "")
    ensures First(SplitLines(Rewritten(APOSTROPHES, "")), "K") == Some("x")
  {
    var d, v := APOSTROPHES, "'x'";
    assert d.order[0] == "K" && d.order[1..] == [] && "K"[0] == 'K';
    assert v[0] == '\'' && v[1] == 'x' && v[2] == '\'';
    assert KeysOk(d);
    LoadUndoesRewrite(d, "", "K");
    assert First(SplitLines(Rewritten(d, "")), "K") == Some(Loaded(d, "K"));
    StripsOne("x");
    assert "'" + ("x" + "'") == v;
  }

  lemma StripsOne(s: string)
    requires s != "" && Tight(s, SingleQuote)
    ensures Trim("'" + (s + "'"), SingleQuote) == s
  {
    var t := "'" + (s + "'");
    assert t[1..] == s + "'";
    assert TrimLeft(t, SingleQuote) == s + "'";
    assert (s + "'")[..|s|] == s;
    assert (s + "'")[|s|] == '\'';
    assert TrimRight(s + "'", SingleQuote) == TrimRight(s, SingleQuote) == s;
  }

  /** Rewriting the file a second time leaves every character as it is. */
  lemma RewrittenTwice(d: Dict, content: string)
    requires KeysOk(d) && ValuesUnbroken(d)
    ensures Rewritten(d, Rewritten(d, content)) == Rewritten(d, content)
  {
    var lines := Rewrite(d, SplitLines(content), d.order);
    RewrittenLines(d, content);
    RewriteTwice(d, SplitLines(content), d.order, d.order);
    if lines == [] {
      SelectedKeyStays(d, SplitLines(content));
      BlankLineKey(d);
    }
  }

  lemma SelectedKeyStays(d: Dict, lines: seq<string>)
    requires KeysOk(d)
    ensures d.order != [] ==> Rewrite(d, lines, d.order) != []
  {
    if d.order != [] {
      RewriteKeepsRest(d, lines, d.order, d.order[0]);
    }
  }

  lemma BlankLineKey(d: Dict)
    requires KeysOk(d) && d.order == []
    ensures Text(Rewrite(d, [""], d.order)) == Text([])
  {
    assert LineKey("") == "";
    RewriteFirst(d, "", [], []);
    assert [""] + [] == [""];
    assert [""] + Append(d, []) == [""];
  }

  method CheckValues(d: Dict) returns (bad: Option<string>)
    requires DictOk(d)
    ensures bad.None? ==> forall k, c :: k in d.values && c in d.values[k] ==> c !in ['\n', '\r', '"', '\\', '$']
    ensures bad.Some? ==> bad.value in d.values && exists c :: c in d.values[bad.value] && c in ['\n', '\r', '"', '\\', '$']
  {
    var i := 0;
    while i < |d.order|
      invariant 0 <= i <= |d.order|
      invariant forall j :: 0 <= j < i ==> Accepted(d.values[d.order[j]])
    {
      if !Accepted(d.values[d.order[i]]) {
        return Some(d.order[i]);
      }
      i := i + 1;
    }
    return None;
  }

  lemma RewriteStep(d: Dict, sofar: seq<string>, rest: seq<string>, remaining: seq<string>)
    requires rest != [] && forall k :: k in remaining ==> k in d.values
    ensures var (out, left) := RewriteLine(d, rest[0], remaining);
            sofar + Rewrite(d, rest, remaining) == (sofar + out) + Rewrite(d, rest[1..], left)
  {
  }

  method RewriteLines(d: Dict, input: seq<string>) returns (lines: seq<string>)
    requires DictOk(d)
    ensures lines == Rewrite(d, input, d.order)
  {
    var remaining := d.order;
    lines := [];
    var i := 0;
    while i < |input|
      invariant 0 <= i <= |input|
      invariant forall k :: k in remaining ==> k in d.values
      invariant Rewrite(d, input, d.order) == lines + Rewrite(d, input[i..], remaining)
    {
      RewriteStep(d, lines, input[i..], remaining);
      ghost var step := RewriteLine(d, input[i], remaining);
      ghost var after := lines + step.0;
      var key := LineKey(input[i]);
      if key in d.values {
        if key in remaining {
          lines := lines + [Line(d, key)];
          remaining := Without(remaining, key);
        }
      } else {
        lines := lines + [input[i]];
      }
      assert lines == after && remaining == step.1;
      assert input[i..][1..] == input[i + 1..];
      i := i + 1;
    }
    assert input[i..] == [];
    lines := AppendLines(d, lines, remaining);
  }

  method AppendLines(d: Dict, start: seq<string>, remaining: seq<string>) returns (lines: seq<string>)
    requires forall k :: k in remaining ==> k in d.values
    ensures lines == start + Append(d, remaining)
  {
    lines := start;
    var i := 0;
    while i < |remaining|
      invariant 0 <= i <= |remaining|
      invariant start + Append(d, remaining) == lines + Append(d, remaining[i..])
    {
      lines := lines + [Line(d, remaining[i])];
      assert remaining[i..][1..] == remaining[i + 1..];
      i := i + 1;
    }
  }

  /** `_write_env_values`, up to the file operations around it. */
  method WriteEnvValues(content: Option<string>, d: Dict) returns (r: Result<string, string>)
    requires DictOk(d)
    ensures r.Err? <==> exists k, c :: k in d.values && c in d.values[k] && c in ['\n', '\r', '"', '\\', '$']
    ensures r.Err? ==> r.error in d.values && exists c :: c in d.values[r.error] && c in ['\n', '\r', '"', '\\', '$']
    ensures r.Ok? ==> r.value == Rewritten(d, if content.Some? then content.value else "")
  {
    var bad := CheckValues(d);
    if bad.Some? {
      return Err(bad.value);
    }
    var lines := RewriteLines(d, SplitLines(if content.Some? then content.value else ""));
    return Ok(Text(lines));
  }
}
