/**
 * Cutting a brace-delimited object out of arbitrary text: the scanner that
 * knows about string literals, and a grammar of balanced text that does not
 * mention it.
 */
module BraceScanner {
  import opened Wrappers

  // ---- the grammar ----

  /** One character of a string literal, or a backslash with whatever follows it. */
  datatype Unit = Raw(c: char) | Escaped(c: char)

  /** Text in which every brace outside string literals has its partner. */
  datatype Items =
    | Nil
    | Plain(c: char, rest: Items)
    | Quoted(body: seq<Unit>, rest: Items)
    | Block(inner: Items, rest: Items)

  predicate UnitsWellFormed(us: seq<Unit>) {
    forall i :: 0 <= i < |us| && us[i].Raw? ==> us[i].c != '"' && us[i].c != '\\'
  }

  predicate WellFormed(t: Items) {
    match t
    case Nil => true
    case Plain(c, rest) => c != '"' && c != '{' && c != '}' && WellFormed(rest)
    case Quoted(body, rest) => UnitsWellFormed(body) && WellFormed(rest)
    case Block(inner, rest) => WellFormed(inner) && WellFormed(rest)
  }

  /** The characters of a literal, with `tail` after them. */
  function RenderUnits(us: seq<Unit>, tail: string): string {
    if us == [] then tail
    else match us[0]
      case Raw(c) => [c] + RenderUnits(us[1..], tail)
      case Escaped(c) => ['\\'] + ([c] + RenderUnits(us[1..], tail))
  }

  /** The text of `t`, with `tail` after it. */
  function Render(t: Items, tail: string): string {
    match t
    case Nil => tail
    case Plain(c, rest) => [c] + Render(rest, tail)
    case Quoted(body, rest) => ['"'] + RenderUnits(body, ['"'] + Render(rest, tail))
    case Block(inner, rest) => ['{'] + Render(inner, ['}'] + Render(rest, tail))
  }

  /** The text of one object: an opening brace, balanced text, its closing brace. */
  function ObjectText(t: Items): string {
    Render(Block(t, Nil), "")
  }

  ghost predicate IsObjectText(s: string) {
    exists t :: WellFormed(t) && s == ObjectText(t)
  }

  /** `seg` is an object that starts at `start` and ends inside the window. */
  ghost predicate IsSegment(text: string, start: nat, window: nat, seg: string)
    requires start <= |text|
  {
    IsObjectText(seg) && |seg| <= window && seg <= text[start..]
  }

  // ---- the string-aware machine ----

  datatype Mode = Mode(depth: int, inStr: bool, escape: bool)

  const START: Mode := Mode(0, false, false)

  function Step(m: Mode, ch: char): Mode {
    if m.inStr then
      if m.escape then m.(escape := false)
      else if ch == '\\' then m.(escape := true)
      else if ch == '"' then m.(inStr := false)
      else m
    else if ch == '"' then m.(inStr := true)
    else if ch == '{' then m.(depth := m.depth + 1)
    else if ch == '}' then m.(depth := m.depth - 1)
    else m
  }

  predicate Closes(m: Mode, ch: char) {
    !m.inStr && ch == '}' && m.depth == 1
  }

  /** How far a scan goes: up to a closing brace after so many characters, or nowhere. */
  datatype Extent = Unclosed | Upto(count: nat)

  function Shift(n: nat, e: Extent): Extent {
    if e.Upto? then Upto(e.count + n) else Unclosed
  }

  /** How many characters the scanner reads up to the brace that brings the depth to zero. */
  function Close(s: string, m: Mode): (r: Extent)
    ensures r.Upto? ==> 0 < r.count <= |s|
  {
    if s == "" then Unclosed
    else if Closes(m, s[0]) then Upto(1)
    else Shift(1, Close(s[1..], Step(m, s[0])))
  }

  function Window(text: string, start: nat, window: nat): string
    requires start <= |text|
  {
    if |text| - start <= window then text[start..] else text[start..start + window]
  }

  // ---- what stands before the tail ----

  lemma {:induction false} UnitsThenTail(us: seq<Unit>, mid: string, tail: string)
    ensures RenderUnits(us, mid + tail) == RenderUnits(us, mid) + tail
  {
    if us != [] {
      UnitsThenTail(us[1..], mid, tail);
      var more := RenderUnits(us[1..], mid);
      match us[0]
      case Raw(c) =>
        assert [c] + (more + tail) == ([c] + more) + tail;
      case Escaped(c) =>
        assert ['\\'] + ([c] + (more + tail)) == (['\\'] + ([c] + more)) + tail;
    }
  }

  lemma {:induction false} ItemsThenTail(t: Items, mid: string, tail: string)
    ensures Render(t, mid + tail) == Render(t, mid) + tail
  {
    match t
    case Nil =>
    case Plain(c, rest) =>
      ItemsThenTail(rest, mid, tail);
      assert [c] + (Render(rest, mid) + tail) == Render(t, mid) + tail;
    case Quoted(body, rest) =>
      var more := Render(rest, mid);
      ItemsThenTail(rest, mid, tail);
      assert ['"'] + (more + tail) == (['"'] + more) + tail;
      UnitsThenTail(body, ['"'] + more, tail);
      assert ['"'] + (RenderUnits(body, ['"'] + more) + tail) == Render(t, mid) + tail;
    case Block(inner, rest) =>
      var more := Render(rest, mid);
      ItemsThenTail(rest, mid, tail);
      assert ['}'] + (more + tail) == (['}'] + more) + tail;
      ItemsThenTail(inner, ['}'] + more, tail);
      assert ['{'] + (Render(inner, ['}'] + more) + tail) == Render(t, mid) + tail;
  }

  lemma ObjectThenTail(t: Items, tail: string)
    ensures Render(Block(t, Nil), tail) == ObjectText(t) + tail
  {
    ItemsThenTail(Block(t, Nil), "", tail);
    assert "" + tail == tail;
  }

  /** Text that closes every brace and every literal it opens. */
  ghost predicate IsBalanced(s: string) {
    exists t :: WellFormed(t) && s == Render(t, "")
  }

  function Append(t: Items, u: Items): (r: Items)
    ensures WellFormed(t) && WellFormed(u) ==> WellFormed(r)
  {
    match t
    case Nil => u
    case Plain(c, rest) => Plain(c, Append(rest, u))
    case Quoted(body, rest) => Quoted(body, Append(rest, u))
    case Block(inner, rest) => Block(inner, Append(rest, u))
  }

  lemma {:induction false} AppendRenders(t: Items, u: Items, tail: string)
    ensures Render(Append(t, u), tail) == Render(t, Render(u, tail))
  {
    match t
    case Nil =>
    case Plain(_, rest) => AppendRenders(rest, u, tail);
    case Quoted(_, rest) => AppendRenders(rest, u, tail);
    case Block(_, rest) => AppendRenders(rest, u, tail);
  }

  lemma BalancedConcat(a: string, b: string)
    requires IsBalanced(a) && IsBalanced(b)
    ensures IsBalanced(a + b)
  {
    var t :| WellFormed(t) && a == Render(t, "");
    var u :| WellFormed(u) && b == Render(u, "");
    AppendRenders(t, u, "");
    ItemsThenTail(t, "", b);
    assert "" + b == b;
    assert WellFormed(Append(t, u)) && a + b == Render(Append(t, u), "");
  }

  lemma BracedIsObject(inside: string)
    requires IsBalanced(inside)
    ensures IsObjectText("{" + inside + "}") && IsBalanced("{" + inside + "}")
  {
    var t :| WellFormed(t) && inside == Render(t, "");
    ItemsThenTail(t, "", ['}']);
    assert "" + ['}'] == ['}'] + Render(Nil, "");
    assert Render(Block(t, Nil), "") == ['{'] + (inside + ['}']);
    assert ObjectText(t) == "{" + inside + "}";
    assert WellFormed(Block(t, Nil));
  }

  // ---- completeness: grammatical text is read to its end ----

  lemma CloseFirst(c: char, s: string, m: Mode)
    ensures Close([c] + s, m) == if Closes(m, c) then Upto(1) else Shift(1, Close(s, Step(m, c)))
  {
    assert ([c] + s)[1..] == s;
  }

  function UnitsLength(us: seq<Unit>): nat {
    if us == [] then 0 else (if us[0].Raw? then 1 else 2) + UnitsLength(us[1..])
  }

  function Length(t: Items): nat {
    match t
    case Nil => 0
    case Plain(_, rest) => 1 + Length(rest)
    case Quoted(body, rest) => UnitsLength(body) + 2 + Length(rest)
    case Block(inner, rest) => Length(inner) + 2 + Length(rest)
  }

  lemma {:induction false} UnitsHaveLength(us: seq<Unit>, tail: string)
    ensures |RenderUnits(us, tail)| == UnitsLength(us) + |tail|
  {
    if us != [] {
      UnitsHaveLength(us[1..], tail);
    }
  }

  lemma {:induction false} ItemsHaveLength(t: Items, tail: string)
    ensures |Render(t, tail)| == Length(t) + |tail|
  {
    match t
    case Nil =>
    case Plain(_, rest) =>
      ItemsHaveLength(rest, tail);
    case Quoted(body, rest) =>
      ItemsHaveLength(rest, tail);
      UnitsHaveLength(body, ['"'] + Render(rest, tail));
    case Block(inner, rest) =>
      ItemsHaveLength(rest, tail);
      ItemsHaveLength(inner, ['}'] + Render(rest, tail));
  }

  lemma {:induction false} CloseReadsUnits(us: seq<Unit>, tail: string, d: int)
    requires UnitsWellFormed(us)
    ensures Close(RenderUnits(us, tail), Mode(d, true, false)) == Shift(UnitsLength(us), Close(tail, Mode(d, true, false)))
  {
    if us != [] {
      var more := RenderUnits(us[1..], tail);
      CloseReadsUnits(us[1..], tail, d);
      match us[0]
      case Raw(c) =>
        CloseFirst(c, more, Mode(d, true, false));
      case Escaped(c) =>
        CloseFirst('\\', [c] + more, Mode(d, true, false));
        CloseFirst(c, more, Mode(d, true, true));
    }
  }

  lemma {:induction false} CloseReadsItems(t: Items, tail: string, d: int)
    requires WellFormed(t) && d >= 1
    ensures Close(Render(t, tail), Mode(d, false, false)) == Shift(Length(t), Close(tail, Mode(d, false, false)))
  {
    match t
    case Nil =>
    case Plain(c, rest) =>
      CloseReadsItems(rest, tail, d);
      assert Render(t, tail) == [c] + Render(rest, tail);
      CloseReadsPlain(c, Render(rest, tail), d);
    case Quoted(body, rest) =>
      CloseReadsItems(rest, tail, d);
      assert Render(t, tail) == ['"'] + RenderUnits(body, ['"'] + Render(rest, tail));
      CloseReadsQuoted(body, Render(rest, tail), d);
    case Block(inner, rest) =>
      var more := Render(rest, tail);
      CloseReadsItems(rest, tail, d);
      CloseReadsItems(inner, ['}'] + more, d + 1);
      assert Render(t, tail) == ['{'] + Render(inner, ['}'] + more);
      CloseReadsBlock(Render(inner, ['}'] + more), more, Length(inner), d);
  }

  lemma CloseReadsPlain(c: char, more: string, d: int)
    requires c != '"' && c != '{' && c != '}'
    ensures Close([c] + more, Mode(d, false, false)) == Shift(1, Close(more, Mode(d, false, false)))
  {
    CloseFirst(c, more, Mode(d, false, false));
  }

  lemma CloseReadsQuoted(body: seq<Unit>, more: string, d: int)
    requires UnitsWellFormed(body)
    ensures var s := ['"'] + RenderUnits(body, ['"'] + more);
            Close(s, Mode(d, false, false)) == Shift(UnitsLength(body) + 2, Close(more, Mode(d, false, false)))
  {
    CloseFirst('"', more, Mode(d, true, false));
    CloseReadsUnits(body, ['"'] + more, d);
    CloseFirst('"', RenderUnits(body, ['"'] + more), Mode(d, false, false));
  }

  lemma CloseReadsBlock(inside: string, more: string, n: nat, d: int)
    requires d >= 1
    requires Close(inside, Mode(d + 1, false, false)) == Shift(n, Close(['}'] + more, Mode(d + 1, false, false)))
    ensures Close(['{'] + inside, Mode(d, false, false)) == Shift(n + 2, Close(more, Mode(d, false, false)))
  {
    CloseFirst('}', more, Mode(d + 1, false, false));
    CloseFirst('{', inside, Mode(d, false, false));
  }

  lemma CloseReadsObject(t: Items, tail: string)
    requires WellFormed(t)
    ensures Close(ObjectText(t) + tail, START) == Upto(|ObjectText(t)|)
  {
    ObjectThenTail(t, tail);
    CloseReadsItems(t, ['}'] + tail, 1);
    ItemsHaveLength(Block(t, Nil), "");
    CloseFirst('}', tail, Mode(1, false, false));
    CloseFirst('{', Render(t, ['}'] + tail), START);
  }

  // ---- soundness: whatever the scanner accepts is grammatical ----

  /** What is still open, innermost first: balanced text up to each missing brace. */
  datatype Open = Last(items: Items) | More(items: Items, outer: Open)

  function Depth(o: Open): nat {
    match o case Last(_) => 1 case More(_, outer) => 1 + Depth(outer)
  }

  predicate OpenWellFormed(o: Open) {
    WellFormed(o.items) && (o.More? ==> OpenWellFormed(o.outer))
  }

  function RenderOpen(o: Open, tail: string): string {
    match o
    case Last(items) => Render(items, ['}'] + tail)
    case More(items, outer) => Render(items, ['}'] + RenderOpen(outer, tail))
  }

  function WithItems(o: Open, t: Items): Open {
    o.(items := t)
  }

  lemma {:induction false} Read(s: string, d: nat) returns (o: Open)
    requires d >= 1 && Close(s, Mode(d, false, false)).Upto?
    ensures OpenWellFormed(o) && Depth(o) == d
    ensures RenderOpen(o, s[Close(s, Mode(d, false, false)).count..]) == s
    decreases |s|
  {
    var ch, rest := s[0], s[1..];
    assert s == [ch] + rest;
    if ch == '}' && d == 1 {
      o := Last(Nil);
      return;
    }
    CloseStep(s, Mode(d, false, false));
    if ch == '"' {
      var us;
      us, o := ReadString(rest, d);
      o := WithItems(o, Quoted(us, o.items));
    } else if ch == '{' {
      var inner := Read(rest, d + 1);
      o := WithItems(inner.outer, Block(inner.items, inner.outer.items));
    } else if ch == '}' {
      o := Read(rest, d - 1);
      o := More(Nil, o);
    } else {
      o := Read(rest, d);
      o := WithItems(o, Plain(ch, o.items));
    }
  }

  /** One step of the scanner leaves the same tail unread. */
  lemma CloseStep(s: string, m: Mode)
    requires Close(s, m).Upto? && !Closes(m, s[0])
    ensures var more := Close(s[1..], Step(m, s[0]));
            && more.Upto? && Close(s, m).count == more.count + 1
            && s[Close(s, m).count..] == s[1..][more.count..]
  {
  }

  lemma {:induction false} ReadString(s: string, d: nat) returns (us: seq<Unit>, o: Open)
    requires d >= 1 && Close(s, Mode(d, true, false)).Upto?
    ensures UnitsWellFormed(us) && OpenWellFormed(o) && Depth(o) == d
    ensures RenderUnits(us, ['"'] + RenderOpen(o, s[Close(s, Mode(d, true, false)).count..])) == s
    decreases |s|
  {
    var ch, rest := s[0], s[1..];
    assert s == [ch] + rest;
    CloseStep(s, Mode(d, true, false));
    if ch == '"' {
      o := Read(rest, d);
      us := [];
    } else if ch == '\\' {
      var c, more := rest[0], rest[1..];
      assert rest == [c] + more;
      CloseStep(rest, Mode(d, true, true));
      us, o := ReadString(more, d);
      us := [Escaped(c)] + us;
    } else {
      us, o := ReadString(rest, d);
      us := [Raw(ch)] + us;
    }
  }

  lemma ClosedIsObject(s: string)
    requires s != "" && s[0] == '{' && Close(s, START).Upto?
    ensures IsObjectText(s[..Close(s, START).count])
  {
    CloseStep(s, START);
    var o := Read(s[1..], 1);
    var tail := s[Close(s, START).count..];
    assert s == ['{'] + s[1..];
    ObjectThenTail(o.items, tail);
    assert s == ObjectText(o.items) + tail;
    assert s[..Close(s, START).count] == ObjectText(o.items);
  }

  // ---- the two together ----

  /**
   * The scanner's answer is the object text that starts at the brace and ends
   * in the window: it finds one if there is one, and finds nothing else.
   */
  lemma ScannerExact(text: string, start: nat, window: nat, seg: string)
    requires start < |text| && text[start] == '{'
    ensures var w := Window(text, start, window);
            IsSegment(text, start, window, seg) <==> Close(w, START).Upto? && seg == w[..Close(w, START).count]
  {
    var w := Window(text, start, window);
    if IsSegment(text, start, window, seg) {
      var t :| WellFormed(t) && seg == ObjectText(t);
      assert seg == w[..|seg|] && w == seg + w[|seg|..];
      CloseReadsObject(t, w[|seg|..]);
    }
    if Close(w, START).Upto? && seg == w[..Close(w, START).count] {
      ClosedIsObject(w);
    }
  }

  /** No object text is a proper prefix of another, so there is never a choice of where to stop. */
  lemma PrefixFree(a: string, b: string)
    requires IsObjectText(a) && IsObjectText(b) && a <= b
    ensures a == b
  {
    var t :| WellFormed(t) && a == ObjectText(t);
    var u :| WellFormed(u) && b == ObjectText(u);
    CloseReadsObject(t, b[|a|..]);
    CloseReadsObject(u, "");
    assert b == a + b[|a|..] && b == b + "";
  }

  const SWATCH_WINDOW: nat := 5_000_000
  const CONFIG_WINDOW: nat := 2_000_000

  /** `extract_balanced`: the object that begins at `start`, if its end lies in the window. */
  method ExtractBalanced(text: string, start: int, window: nat := SWATCH_WINDOW) returns (r: Option<string>)
    ensures start < 0 || start >= |text| || text[start] != '{' ==> r == None
    ensures 0 <= start < |text| && text[start] == '{' ==>
              forall seg: string :: r == Some(seg) <==> IsSegment(text, start, window, seg)
  {
    if start < 0 || start >= |text| || text[start] != '{' {
      return None;
    }
    var end := ScanFrom(text, start, window);
    forall seg: string {
      ScannerExact(text, start, window, seg);
    }
    if end.Upto? {
      var w := Window(text, start, window);
      assert w[..end.count - start] == text[start..end.count];
      return Some(text[start..end.count]);
    }
    return None;
  }

  /** The loop both extractors share: the position after the closing brace. */
  method ScanFrom(text: string, start: nat, window: nat) returns (end: Extent)
    requires start < |text|
    ensures end == Shift(start, Close(Window(text, start, window), START))
    ensures end.Upto? ==> start < end.count <= |text| && end.count - start <= window
  {
    var hi := if |text| - start <= window then |text| else start + window;
    var depth, inStr, escape := 0, false, false;
    var i := start;
    assert Window(text, start, window) == text[start..hi];
    while i < hi
      invariant start <= i <= hi
      invariant Close(text[start..hi], START) == Shift(i - start, Close(text[i..hi], Mode(depth, inStr, escape)))
    {
      var ch := text[i];
      assert text[i..hi][1..] == text[i + 1..hi];
      i := i + 1;
      if inStr {
        if escape {
          escape := false;
        } else if ch == '\\' {
          escape := true;
        } else if ch == '"' {
          inStr := false;
        }
        continue;
      }
      if ch == '"' {
        inStr := true;
      } else if ch == '{' {
        depth := depth + 1;
      } else if ch == '}' {
        depth := depth - 1;
        if depth == 0 {
          return Upto(i);
        }
      }
    }
    return Unclosed;
  }

  // ---- searching for the brace first ----

  /** Where a search from `start` begins; a negative index counts from the end. */
  function SearchFrom(text: string, start: int): nat {
    if start >= 0 then start else if |text| + start >= 0 then |text| + start else 0
  }

  ghost predicate IsFirstBrace(text: string, from: nat, brace: nat) {
    from <= brace < |text| && text[brace] == '{' && forall j :: from <= j < brace ==> text[j] != '{'
  }

  /**
   * `try_extract_json_object`: parse the first object after `start`. The second
   * result is the position after it, and -1 when there is no brace or no end.
   */
  method TryExtractObject<V>(text: string, start: int, parse: string -> Option<V>) returns (value: Option<V>, end: int)
    ensures var from := if start >= 0 then start else if -start <= |text| then |text| + start else 0;
            && ((value, end) == (None, -1)
                <==> !exists brace: nat, seg :: IsFirstBrace(text, from, brace) && IsSegment(text, brace, 2_000_000, seg))
            && forall brace: nat, seg :: IsFirstBrace(text, from, brace) && IsSegment(text, brace, 2_000_000, seg)
                 ==> value == parse(seg) && end == brace + |seg|
  {
    var brace := SearchFrom(text, start);
    while brace < |text| && text[brace] != '{'
      invariant SearchFrom(text, start) <= brace
      invariant forall j :: SearchFrom(text, start) <= j < brace && j < |text| ==> text[j] != '{'
    {
      brace := brace + 1;
    }
    if brace >= |text| {
      return None, -1;
    }
    assert IsFirstBrace(text, SearchFrom(text, start), brace);
    assert forall b :: IsFirstBrace(text, SearchFrom(text, start), b) ==> b == brace;
    forall seg: string {
      ScannerExact(text, brace, CONFIG_WINDOW, seg);
    }
    var found := ScanFrom(text, brace, CONFIG_WINDOW);
    if found.Upto? {
      var raw := text[brace..found.count];
      assert Window(text, brace, CONFIG_WINDOW)[..found.count - brace] == raw;
      assert IsSegment(text, brace, CONFIG_WINDOW, raw);
      return parse(raw), found.count;
    }
    return None, -1;
  }
}
