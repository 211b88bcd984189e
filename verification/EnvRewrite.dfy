/**
 * Rewriting selected keys of a `.env` file line by line: what each key is bound
 * to afterwards, which lines survive, and where each of them stands.
 */
module EnvRewrite {
  import opened Wrappers
  import opened Basics
  import opened TextLines
  import opened EnvBinding

  // ---- rewriting ----

  /** A dictionary: its keys in insertion order, and their values. */
  datatype Dict = Dict(order: seq<string>, values: map<string, string>)

  predicate DictOk(d: Dict) {
    && (forall i :: 0 <= i < |d.order| ==> d.order[i] in d.values)
    && (forall k :: k in d.values ==> k in d.order)
    && Distinct(d.order)
  }

  function Without(keys: seq<string>, key: string): (r: seq<string>)
    ensures forall k :: k in r <==> k in keys && k != key
    ensures Distinct(keys) ==> Distinct(r)
  {
    if keys == [] then []
    else if keys[0] == key then Without(keys[1..], key)
    else [keys[0]] + Without(keys[1..], key)
  }

  function Line(d: Dict, key: string): string
    requires key in d.values
  {
    Quoted(key, d.values[key])
  }

  /** What the rewriter makes of one line: the lines it writes and the keys it still has to write. */
  function RewriteLine(d: Dict, line: string, remaining: seq<string>): (seq<string>, seq<string>) {
    var key := LineKey(line);
    if key !in d.values then ([line], remaining)
    else if key in remaining then ([Line(d, key)], Without(remaining, key))
    else ([], remaining)
  }

  function Append(d: Dict, keys: seq<string>): seq<string>
    requires forall k :: k in keys ==> k in d.values
  {
    if keys == [] then [] else [Line(d, keys[0])] + Append(d, keys[1..])
  }

  /** The whole file, given what is still to be written. */
  function Rewrite(d: Dict, lines: seq<string>, remaining: seq<string>): seq<string>
    requires forall k :: k in remaining ==> k in d.values
  {
    if lines == [] then Append(d, remaining)
    else RewriteLine(d, lines[0], remaining).0 + Rewrite(d, lines[1..], RewriteLine(d, lines[0], remaining).1)
  }

  /** Keys that can stand before an equals sign, and values that survive quoting. */
  predicate KeysOk(d: Dict) {
    DictOk(d) && forall k :: k in d.values ==> KeyWellFormed(k) && Accepted(d.values[k])
  }

  function Loaded(d: Dict, key: string): string
    requires key in d.values
  {
    Trim(d.values[key], SingleQuote)
  }

  lemma {:induction false} FirstAppended(d: Dict, keys: seq<string>, key: string)
    requires KeysOk(d) && (forall k :: k in keys ==> k in d.values)
    ensures First(Append(d, keys), key) == if key in keys then Some(Loaded(d, key)) else None
  {
    if keys != [] {
      var k := keys[0];
      FirstAppended(d, keys[1..], key);
      QuotedBinds(k, d.values[k]);
      FirstOfLine(Append(d, keys[1..]), Line(d, k), key);
    }
  }

  /**
   * Loading the rewritten file: a key still to be written has its new value, an
   * unselected key the value it had, and a key already written nothing more.
   */
  lemma {:induction false} FirstRewritten(d: Dict, lines: seq<string>, remaining: seq<string>, key: string)
    requires KeysOk(d) && (forall k :: k in remaining ==> k in d.values)
    ensures First(Rewrite(d, lines, remaining), key)
         == if key in remaining then Some(Loaded(d, key))
            else if key in d.values then None
            else First(lines, key)
  {
    if lines == [] {
      FirstAppended(d, remaining, key);
    } else {
      var line, out, left := lines[0], RewriteLine(d, lines[0], remaining).0, RewriteLine(d, lines[0], remaining).1;
      var more := Rewrite(d, lines[1..], left);
      FirstRewritten(d, lines[1..], left, key);
      if Binding(line).Some? {
        BindingHasLineKey(line);
      }
      var own := LineKey(line);
      if own !in d.values {
        FirstOfLine(more, line, key);
      } else if own in remaining {
        QuotedBinds(own, d.values[own]);
        FirstOfLine(more, Line(d, own), key);
      } else {
        assert out + more == more;
      }
    }
  }

  // ---- what rewriting leaves alone, and that once is enough ----

  function Unselected(d: Dict, lines: seq<string>): seq<string> {
    if lines == [] then []
    else (if LineKey(lines[0]) in d.values then [] else [lines[0]]) + Unselected(d, lines[1..])
  }

  function CountKey(lines: seq<string>, key: string): nat {
    if lines == [] then 0 else (if LineKey(lines[0]) == key then 1 else 0) + CountKey(lines[1..], key)
  }

  lemma LinesOfMore(d: Dict, line: string, lines: seq<string>, key: string)
    ensures Unselected(d, [line] + lines) == (if LineKey(line) in d.values then [] else [line]) + Unselected(d, lines)
    ensures CountKey([line] + lines, key) == (if LineKey(line) == key then 1 else 0) + CountKey(lines, key)
  {
    assert ([line] + lines)[1..] == lines;
  }

  lemma {:induction false} Appended(d: Dict, keys: seq<string>, key: string)
    requires KeysOk(d) && Distinct(keys) && (forall k :: k in keys ==> k in d.values)
    ensures Unselected(d, Append(d, keys)) == []
    ensures CountKey(Append(d, keys), key) == if key in keys then 1 else 0
  {
    if keys != [] {
      Appended(d, keys[1..], key);
      QuotedBinds(keys[0], d.values[keys[0]]);
      LinesOfMore(d, Line(d, keys[0]), Append(d, keys[1..]), key);
    }
  }

  /**
   * Every unselected line survives verbatim and in order, and each selected key
   * has exactly one line, however many it had before.
   */
  lemma {:induction false} RewriteKeepsRest(d: Dict, lines: seq<string>, remaining: seq<string>, key: string)
    requires KeysOk(d) && Distinct(remaining) && (forall k :: k in remaining ==> k in d.values)
    ensures Unselected(d, Rewrite(d, lines, remaining)) == Unselected(d, lines)
    ensures CountKey(Rewrite(d, lines, remaining), key)
         == if key in remaining then 1 else if key in d.values then 0 else CountKey(lines, key)
  {
    if lines == [] {
      Appended(d, remaining, key);
    } else {
      var line, left := lines[0], RewriteLine(d, lines[0], remaining).1;
      var more := Rewrite(d, lines[1..], left);
      RewriteKeepsRest(d, lines[1..], left, key);
      var own := LineKey(line);
      if own !in d.values {
        LinesOfMore(d, line, more, key);
      } else if own in remaining {
        QuotedBinds(own, d.values[own]);
        LinesOfMore(d, Line(d, own), more, key);
      } else {
        assert [] + more == more;
      }
    }
  }

  ghost predicate SameKeys(a: seq<string>, b: seq<string>) {
    forall k :: k in a <==> k in b
  }

  lemma SomeKey(keys: seq<string>)
    ensures keys != [] ==> exists k :: k in keys
  {
    if keys != [] {
      assert keys[0] in keys;
    }
  }

  lemma RewriteFirst(d: Dict, line: string, lines: seq<string>, remaining: seq<string>)
    requires forall k :: k in remaining ==> k in d.values
    ensures Rewrite(d, [line] + lines, remaining)
         == RewriteLine(d, line, remaining).0 + Rewrite(d, lines, RewriteLine(d, line, remaining).1)
  {
    assert ([line] + lines)[1..] == lines;
  }

  lemma {:induction false} RewriteAppended(d: Dict, keys: seq<string>, remaining: seq<string>)
    requires KeysOk(d) && Distinct(keys) && SameKeys(keys, remaining) && (forall k :: k in keys ==> k in d.values)
    ensures Rewrite(d, Append(d, keys), remaining) == Append(d, keys)
  {
    if keys == [] {
      SomeKey(remaining);
    } else {
      QuotedBinds(keys[0], d.values[keys[0]]);
      RewriteAppended(d, keys[1..], Without(remaining, keys[0]));
      RewriteFirst(d, Line(d, keys[0]), Append(d, keys[1..]), remaining);
    }
  }

  /** Rewriting a rewritten file changes nothing. */
  lemma {:induction false} RewriteTwice(d: Dict, lines: seq<string>, remaining: seq<string>, again: seq<string>)
    requires KeysOk(d) && Distinct(remaining) && SameKeys(remaining, again)
    requires forall k :: k in remaining ==> k in d.values
    ensures Rewrite(d, Rewrite(d, lines, remaining), again) == Rewrite(d, lines, remaining)
  {
    if lines == [] {
      RewriteAppended(d, remaining, again);
    } else {
      var line, left := lines[0], RewriteLine(d, lines[0], remaining).1;
      var more := Rewrite(d, lines[1..], left);
      var own := LineKey(line);
      if own !in d.values {
        RewriteTwice(d, lines[1..], left, again);
        RewriteFirst(d, line, more, again);
      } else if own in remaining {
        QuotedBinds(own, d.values[own]);
        RewriteTwice(d, lines[1..], left, Without(again, own));
        RewriteFirst(d, Line(d, own), more, again);
      } else {
        RewriteTwice(d, lines[1..], left, again);
        assert [] + more == more;
      }
    }
  }
}
