/**
 * One line of a `.env` file: the key the rewriter sees in it, and the binding
 * the loader reads from it; and loading a whole file into an environment.
 */
module EnvBinding {
  import opened Wrappers
  import opened Characters
  import opened TextLines

  // ---- trimming ----

  /** What a strip takes off both ends. */
  datatype Cut = Space | DoubleQuote | SingleQuote

  predicate Cuts(k: Cut, c: char) {
    match k
    case Space => IsSpace(c)
    case DoubleQuote => c == '"'
    case SingleQuote => c == '\''
  }

  function TrimLeft(s: string, k: Cut): string {
    if s != "" && Cuts(k, s[0]) then TrimLeft(s[1..], k) else s
  }

  function TrimRight(s: string, k: Cut): string {
    if s != "" && Cuts(k, s[|s| - 1]) then TrimRight(s[..|s| - 1], k) else s
  }

  function Trim(s: string, k: Cut): string {
    TrimRight(TrimLeft(s, k), k)
  }

  /** Nothing to take off at either end. */
  predicate Tight(s: string, k: Cut) {
    s != "" ==> !Cuts(k, s[0]) && !Cuts(k, s[|s| - 1])
  }

  lemma {:induction false} TrimLeftSplits(s: string, k: Cut) returns (n: nat)
    ensures n <= |s| && TrimLeft(s, k) == s[n..]
    ensures forall i :: 0 <= i < n ==> Cuts(k, s[i])
    ensures n < |s| ==> !Cuts(k, s[n])
  {
    n := 0;
    if s != "" && Cuts(k, s[0]) {
      var m := TrimLeftSplits(s[1..], k);
      n := m + 1;
      assert s[1..][m..] == s[n..];
      assert forall i :: 1 <= i < n ==> s[i] == s[1..][i - 1];
    }
  }

  lemma {:induction false} TrimRightSplits(s: string, k: Cut) returns (n: nat)
    ensures n <= |s| && TrimRight(s, k) == s[..n]
    ensures forall i :: n <= i < |s| ==> Cuts(k, s[i])
    ensures n > 0 ==> !Cuts(k, s[n - 1])
  {
    n := |s|;
    if s != "" && Cuts(k, s[|s| - 1]) {
      var t := s[..|s| - 1];
      n := TrimRightSplits(t, k);
      assert t[..n] == s[..n];
    }
  }

  lemma TrimTight(s: string, k: Cut)
    requires Tight(s, k)
    ensures Trim(s, k) == s
  {
  }

  lemma {:induction false} TrimIsTight(s: string, k: Cut)
    ensures Tight(Trim(s, k), k)
    ensures Unbroken(s) ==> Unbroken(Trim(s, k))
  {
    var m := TrimLeftSplits(s, k);
    var n := TrimRightSplits(s[m..], k);
  }

  lemma TrimChangesUnlessTight(s: string, k: Cut)
    ensures Trim(s, k) == s <==> Tight(s, k)
  {
    TrimIsTight(s, k);
    if Tight(s, k) {
      TrimTight(s, k);
    }
  }

  // ---- one line ----

  function IndexOfEquals(s: string): (n: nat)
    ensures n <= |s|
    ensures n < |s| ==> s[n] == '='
    ensures forall i :: 0 <= i < n ==> s[i] != '='
  {
    if s == "" || s[0] == '=' then 0 else 1 + IndexOfEquals(s[1..])
  }

  function Before(s: string): string {
    s[..IndexOfEquals(s)]
  }

  function After(s: string): string {
    if IndexOfEquals(s) < |s| then s[IndexOfEquals(s) + 1..] else ""
  }

  /** The key that the rewriter sees in a line. */
  function LineKey(line: string): string {
    Trim(Before(line), Space)
  }

  /** What the loader reads from a line. */
  function Binding(raw: string): Option<(string, string)> {
    var line := Trim(raw, Space);
    if line == "" || line[0] == '#' || '=' !in line then None
    else
      var key := Trim(Before(line), Space);
      var value := Trim(Trim(Trim(After(line), Space), DoubleQuote), SingleQuote);
      if key == "" then None else Some((key, value))
  }

  function Quoted(key: string, value: string): string {
    key + "=\"" + value + "\""
  }

  /** What `_write_env_values` accepts as a value. */
  predicate Accepted(value: string) {
    forall c :: c in value ==> c != '\n' && c != '\r' && c != '"' && c != '\\' && c != '$'
  }

  predicate KeyWellFormed(key: string) {
    key != "" && Tight(key, Space) && '=' !in key && key[0] != '#' && Unbroken(key)
  }

  lemma EqualsAt(s: string, n: nat)
    requires n < |s| && s[n] == '=' && forall i :: 0 <= i < n ==> s[i] != '='
    ensures IndexOfEquals(s) == n
  {
    var m := IndexOfEquals(s);
    assert m <= n;
  }

  lemma QuotedParts(key: string, value: string)
    requires '=' !in key
    ensures Before(Quoted(key, value)) == key && After(Quoted(key, value)) == "\"" + value + "\""
  {
    var s := Quoted(key, value);
    assert s[..|key|] == key && s[|key|] == '=';
    EqualsAt(s, |key|);
    assert s[|key| + 1..] == "\"" + value + "\"";
  }

  /** Taking the quotes off again leaves the value, as long as it holds none itself. */
  lemma UnquoteInverts(value: string)
    requires '"' !in value
    ensures Trim("\"" + value + "\"", DoubleQuote) == value
  {
    var s := "\"" + value + "\"";
    assert s[1..] == value + "\"";
    if value == "" {
      assert TrimLeft(s[1..], DoubleQuote) == "";
    } else {
      assert s[1] == value[0] && value[0] in value;
      assert TrimLeft(s, DoubleQuote) == value + "\"";
      assert (value + "\"")[..|value|] == value;
      assert value[|value| - 1] in value;
      assert TrimRight(value, DoubleQuote) == value;
    }
  }

  /** A rewritten line is read back as its key and its value less edge apostrophes. */
  lemma QuotedBinds(key: string, value: string)
    requires KeyWellFormed(key) && Accepted(value)
    ensures Binding(Quoted(key, value)) == Some((key, Trim(value, SingleQuote)))
    ensures LineKey(Quoted(key, value)) == key
  {
    var s := Quoted(key, value);
    assert s[0] == key[0] && s[|s| - 1] == '"';
    TrimTight(s, Space);
    QuotedParts(key, value);
    TrimTight(key, Space);
    TrimTight("\"" + value + "\"", Space);
    UnquoteInverts(value);
    assert s[|key|] == '=';
  }

  predicate Blank(s: string) {
    forall i :: 0 <= i < |s| ==> IsSpace(s[i])
  }

  /** Text with neither whitespace nor a quote at either end. */
  predicate Bare(s: string) {
    Tight(s, Space) && Tight(s, DoubleQuote) && Tight(s, SingleQuote)
  }

  lemma {:induction false} TrimLeftOver(a: string, s: string, k: Cut)
    requires (forall i :: 0 <= i < |a| ==> Cuts(k, a[i])) && (s != "" ==> !Cuts(k, s[0]))
    ensures TrimLeft(a + s, k) == s
  {
    if a == "" {
      assert a + s == s;
    } else {
      assert (a + s)[1..] == a[1..] + s;
      TrimLeftOver(a[1..], s, k);
    }
  }

  lemma {:induction false} TrimRightOver(s: string, b: string, k: Cut)
    requires (forall i :: 0 <= i < |b| ==> Cuts(k, b[i])) && (s != "" ==> !Cuts(k, s[|s| - 1]))
    ensures TrimRight(s + b, k) == s
  {
    if b == "" {
      assert s + b == s;
    } else {
      assert (s + b)[..|s + b| - 1] == s + b[..|b| - 1];
      TrimRightOver(s, b[..|b| - 1], k);
    }
  }

  /** Whitespace around is trimmed, and only that. */
  lemma TrimOver(a: string, s: string, b: string)
    requires Blank(a) && Blank(b) && s != "" && Tight(s, Space)
    ensures Trim(a + (s + b), Space) == s
  {
    assert (s + b)[0] == s[0];
    TrimLeftOver(a, s + b, Space);
    TrimRightOver(s, b, Space);
  }

  lemma {:induction false} TrimBlank(s: string)
    requires Blank(s)
    ensures Trim(s, Space) == ""
  {
    assert s + "" == s;
    TrimLeftOver(s, "", Space);
  }

  /** The line of a binding as people write it, with whitespace wherever it may stand. */
  function Spread(a: string, key: string, b: string, c: string, value: string, e: string): string {
    a + (key + b + "=" + (c + (value + e)))
  }

  /** A value without quotes is read as it stands. */
  lemma PlainBinds(a: string, key: string, b: string, c: string, value: string, e: string)
    requires Blank(a) && Blank(b) && Blank(c) && Blank(e)
    requires key != "" && Tight(key, Space) && '=' !in key && key[0] != '#' && Bare(value)
    ensures Binding(Spread(a, key, b, c, value, e)) == Some((key, value))
  {
    ReadAs(a, key, b, c, value, e);
    TrimTight(value, DoubleQuote);
    TrimTight(value, SingleQuote);
  }

  /** A value in double quotes, with nothing to trim inside them, is read without them. */
  lemma QuotedBindsSpread(a: string, key: string, b: string, c: string, value: string, e: string)
    requires Blank(a) && Blank(b) && Blank(c) && Blank(e)
    requires key != "" && Tight(key, Space) && '=' !in key && key[0] != '#' && '"' !in value && Tight(value, SingleQuote)
    ensures Binding(Spread(a, key, b, c, "\"" + value + "\"", e)) == Some((key, value))
  {
    ReadAs(a, key, b, c, "\"" + value + "\"", e);
    UnquoteInverts(value);
    TrimTight(value, SingleQuote);
  }

  lemma BindingFrom(raw: string, line: string, left: string, key: string, value: string)
    requires Trim(raw, Space) == line && line != "" && line[0] != '#' && key != ""
    requires |left| < |line| && line[..|left|] == left && line[|left|] == '=' && '=' !in left
    requires Trim(left, Space) == key && Trim(line[|left| + 1..], Space) == value
    ensures Binding(raw) == Some((key, Trim(Trim(value, DoubleQuote), SingleQuote)))
  {
    forall i | 0 <= i < |left|
      ensures line[i] != '='
    {
      assert line[i] == left[i] && left[i] in left;
    }
    EqualsAt(line, |left|);
    assert Before(line) == left && After(line) == line[|left| + 1..];
    assert line[|left|] in line;
  }

  lemma TrimmedLine(a: string, s: string) returns (n: nat)
    requires Blank(a) && s != "" && !IsSpace(s[0])
    ensures 0 < n <= |s| && Trim(a + s, Space) == s[..n] && !IsSpace(s[n - 1]) && forall i :: n <= i < |s| ==> IsSpace(s[i])
  {
    TrimLeftOver(a, s, Space);
    n := TrimRightSplits(s, Space);
  }

  lemma NoEqualsIn(key: string, b: string)
    requires '=' !in key && Blank(b)
    ensures '=' !in key + b
  {
    assert !IsSpace('=');
  }

  lemma ReadAs(a: string, key: string, b: string, c: string, value: string, e: string)
    requires Blank(a) && Blank(b) && Blank(c) && Blank(e)
    requires key != "" && Tight(key, Space) && '=' !in key && key[0] != '#' && Tight(value, Space)
    ensures Binding(Spread(a, key, b, c, value, e)) == Some((key, Trim(Trim(value, DoubleQuote), SingleQuote)))
  {
    var left, right := key + b, c + (value + e);
    var s := left + "=" + right;
    assert s[0] == key[0] && s[|left|] == '=' && !IsSpace('=');
    var n := TrimmedLine(a, s);
    NoEqualsIn(key, b);
    TrimOver("", key, b);
    assert "" + left == left;
    assert s[|left| + 1..] == right && s[..n][..|left|] == left && s[..n][0] == s[0];
    TrimmedTail(s, |left| + 1, n, right);
    ValueOver(c, value, e);
    BindingFrom(a + s, s[..n], left, key, value);
  }

  lemma ValueOver(c: string, value: string, e: string)
    requires Blank(c) && Blank(e) && Tight(value, Space)
    ensures Trim(c + (value + e), Space) == value
  {
    if value == "" {
      TrimBlank(c + (value + e));
    } else {
      TrimOver(c, value, e);
    }
  }

  /** Trimming the whole line on the right and then its tail is trimming the tail. */
  lemma TrimmedTail(s: string, k: nat, n: nat, right: string)
    requires k <= n <= |s| && right == s[k..] && (forall i :: n <= i < |s| ==> IsSpace(s[i]))
    requires n > 0 ==> !IsSpace(s[n - 1])
    ensures Trim(s[..n][k..], Space) == Trim(right, Space)
  {
    var body, trail := s[k..n], s[n..];
    assert s[..n][k..] == body && right == body + trail;
    TrimIgnoresTrail(body, trail);
  }

  lemma {:induction false} TrimIgnoresTrail(body: string, trail: string)
    requires Blank(trail)
    ensures Trim(body + trail, Space) == Trim(body, Space)
  {
    if body == "" {
      assert body + trail == trail;
      TrimBlank(trail);
    } else if IsSpace(body[0]) {
      assert (body + trail)[1..] == body[1..] + trail;
      TrimIgnoresTrail(body[1..], trail);
    } else {
      var m := TrimRightSplits(body, Space);
      assert body + trail == body[..m] + (body[m..] + trail);
      TrimRightOver(body[..m], body[m..] + trail, Space);
    }
  }

  /** Comments and lines without an equals sign bind nothing, nor does one without a key. */
  lemma NothingBound(a: string, line: string, b: string)
    requires Blank(a) && Blank(b) && Tight(line, Space)
    requires line == "" || line[0] == '#' || line[0] == '=' || '=' !in line
    ensures Binding(a + (line + b)) == None
  {
    if line == "" {
      TrimBlank(a + (line + b));
    } else {
      TrimOver(a, line, b);
      if line[0] == '=' {
        assert line[..0] == "";
        assert Trim("", Space) == "";
      }
    }
  }

  lemma BeforeIgnoresTrail(line: string, trail: string)
    requires IndexOfEquals(line) < |line|
    ensures IndexOfEquals(line + trail) < |line + trail| && Before(line + trail) == Before(line)
  {
    var raw, e := line + trail, IndexOfEquals(line);
    assert raw[e] == line[e];
    assert forall i :: 0 <= i < e ==> raw[i] == line[i];
    EqualsAt(raw, e);
    assert raw[..e] == line[..e];
  }

  lemma SpaceBeforeKey(line: string)
    requires line != "" && IsSpace(line[0])
    ensures LineKey(line) == LineKey(line[1..])
  {
    var e := IndexOfEquals(line[1..]);
    assert IndexOfEquals(line) == 1 + e;
    assert line[..1 + e][1..] == line[1..][..e];
  }

  lemma {:induction false} IndentedKey(line: string)
    ensures LineKey(line) == LineKey(TrimLeft(line, Space))
  {
    if line != "" && IsSpace(line[0]) {
      SpaceBeforeKey(line);
      IndentedKey(line[1..]);
    }
  }

  /** Rewriter and loader agree on a line's key, although one strips the line first. */
  lemma BindingHasLineKey(raw: string)
    requires Binding(raw).Some?
    ensures Binding(raw).value.0 == LineKey(raw)
  {
    var left := TrimLeft(raw, Space);
    var n := TrimRightSplits(left, Space);
    IndentedKey(raw);
    BeforeIgnoresTrail(left[..n], left[n..]);
    assert left[..n] + left[n..] == left;
  }

  // ---- loading ----

  /** The value of the first line that binds `key`. */
  function First(lines: seq<string>, key: string): Option<string> {
    if lines == [] then None
    else if Binding(lines[0]).Some? && Binding(lines[0]).value.0 == key then Some(Binding(lines[0]).value.1)
    else First(lines[1..], key)
  }

  predicate AgreesOn(env: map<string, string>, key: string, value: Option<string>) {
    if value.Some? then key in env && env[key] == value.value else key !in env
  }

  lemma {:induction false} FirstOfMore(lines: seq<string>, line: string, key: string)
    ensures First(lines + [line], key) == if First(lines, key).Some? then First(lines, key) else First([line], key)
  {
    if lines != [] {
      assert (lines + [line])[1..] == lines[1..] + [line];
      FirstOfMore(lines[1..], line, key);
    } else {
      assert lines + [line] == [line];
    }
  }

  function LoadLine(env: map<string, string>, raw: string): map<string, string> {
    match Binding(raw)
    case None => env
    case Some((key, value)) => if key in env then env else env[key := value]
  }

  lemma LoadLineAgrees(env: map<string, string>, lines: seq<string>, raw: string, key: string)
    requires AgreesOn(env, key, First(lines, key))
    ensures AgreesOn(LoadLine(env, raw), key, First(lines + [raw], key))
  {
    FirstOfMore(lines, raw, key);
    FirstOfLine([], raw, key);
    assert [raw] + [] == [raw];
  }

  /** An environment takes no NUL character, neither in a name nor in a value. */
  predicate Storable(s: string) {
    '\0' !in s
  }

  predicate Stores(key: string, value: Option<string>) {
    value.Some? ==> Storable(key) && Storable(value.value)
  }

  lemma {:induction false} FirstStays(lines: seq<string>, n: nat, key: string)
    requires n <= |lines| && First(lines[..n], key).Some?
    ensures First(lines, key) == First(lines[..n], key)
    decreases |lines| - n
  {
    if n < |lines| {
      assert lines[..n + 1] == lines[..n] + [lines[n]];
      FirstOfMore(lines[..n], lines[n], key);
      FirstStays(lines, n + 1, key);
    } else {
      assert lines[..n] == lines;
    }
  }

  /**
   * `_load_dotenv`: what is already in the environment wins, then the first line
   * of each key. It breaks off at a binding that the environment refuses.
   */
  method Load(environ: map<string, string>, lines: seq<string>) returns (env: map<string, string>, ok: bool)
    ensures forall key :: key in environ ==> key in env && env[key] == environ[key]
    ensures ok <==> forall key :: key !in environ ==> Stores(key, First(lines, key))
    ensures ok ==> forall key :: key !in environ ==> AgreesOn(env, key, First(lines, key))
    ensures forall key :: key !in environ && key in env ==> First(lines, key) == Some(env[key])
  {
    env, ok := environ, true;
    var i := 0;
    while i < |lines|
      invariant 0 <= i <= |lines| && ok
      invariant forall key :: key in environ ==> key in env && env[key] == environ[key]
      invariant forall key :: key !in environ ==> AgreesOn(env, key, First(lines[..i], key))
      invariant forall key :: key !in environ ==> Stores(key, First(lines[..i], key))
    {
      var bound := Binding(lines[i]);
      ghost var before := env;
      assert lines[..i + 1] == lines[..i] + [lines[i]];
      if bound.Some? && bound.value.0 !in env {
        var (key, value) := bound.value;
        NewBinding(lines, i, key);
        if !Storable(key) || !Storable(value) {
          ok := false;
          LoadedSoFar(environ, env, lines, i);
          return;
        }
        env := env[key := value];
      }
      assert env == LoadLine(before, lines[i]);
      forall key | key !in environ
        ensures AgreesOn(env, key, First(lines[..i + 1], key)) && Stores(key, First(lines[..i + 1], key))
      {
        LoadLineAgrees(before, lines[..i], lines[i], key);
        FirstOfMore(lines[..i], lines[i], key);
        FirstOfLine([], lines[i], key);
        assert [lines[i]] + [] == [lines[i]];
      }
      i := i + 1;
    }
    assert lines[..i] == lines;
  }

  /** A line that binds a key for the first time decides about it. */
  lemma NewBinding(lines: seq<string>, i: nat, key: string)
    requires i < |lines| && First(lines[..i], key) == None
    requires Binding(lines[i]).Some? && Binding(lines[i]).value.0 == key
    ensures First(lines, key) == Some(Binding(lines[i]).value.1)
  {
    assert lines[..i + 1] == lines[..i] + [lines[i]];
    FirstOfMore(lines[..i], lines[i], key);
    FirstStays(lines, i + 1, key);
  }

  lemma LoadedSoFar(environ: map<string, string>, env: map<string, string>, lines: seq<string>, i: nat)
    requires i <= |lines| && forall key :: key !in environ ==> AgreesOn(env, key, First(lines[..i], key))
    ensures forall key :: key !in environ && key in env ==> First(lines, key) == Some(env[key])
  {
    forall key | key !in environ && key in env
      ensures First(lines, key) == Some(env[key])
    {
      assert AgreesOn(env, key, First(lines[..i], key));
      FirstStays(lines, i, key);
    }
  }

  lemma FirstOfLine(lines: seq<string>, line: string, key: string)
    ensures First([line] + lines, key)
         == if Binding(line).Some? && Binding(line).value.0 == key then Some(Binding(line).value.1) else First(lines, key)
  {
    assert ([line] + lines)[1..] == lines;
  }
}
