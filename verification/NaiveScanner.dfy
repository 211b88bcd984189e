/**
 * The scanner that counts braces and does not know about string literals, and
 * how far it can be trusted.
 */
module NaiveScanner {
  import opened Wrappers
  import opened BraceScanner

  function Delta(c: char): int {
    if c == '{' then 1 else if c == '}' then -1 else 0
  }

  /** How far a plain count of braces goes until a closing one brings it to zero. */
  function CountClose(s: string, depth: int): (r: Extent)
    ensures r.Upto? ==> 0 < r.count <= |s|
  {
    if s == "" then Unclosed
    else if s[0] == '}' && depth == 1 then Upto(1)
    else Shift(1, CountClose(s[1..], depth + Delta(s[0])))
  }

  /** A count of braces from `height` comes back to zero at the end and never falls below. */
  predicate Settles(us: seq<Unit>, height: nat) {
    if us == [] then height == 0
    else height + Delta(us[0].c) >= 0 && Settles(us[1..], height + Delta(us[0].c))
  }

  /** A literal whose own braces, if it has any, are nested among themselves. */
  predicate Steady(us: seq<Unit>) {
    Settles(us, 0)
  }

  predicate LiteralsSteady(t: Items) {
    match t
    case Nil => true
    case Plain(_, rest) => LiteralsSteady(rest)
    case Quoted(body, rest) => Steady(body) && LiteralsSteady(rest)
    case Block(inner, rest) => LiteralsSteady(inner) && LiteralsSteady(rest)
  }

  predicate NoBraces(us: seq<Unit>) {
    forall i :: 0 <= i < |us| ==> us[i].c != '{' && us[i].c != '}'
  }

  lemma {:induction false} NoBracesSteady(us: seq<Unit>)
    requires NoBraces(us)
    ensures Steady(us)
  {
    if us != [] {
      NoBracesSteady(us[1..]);
    }
  }

  lemma CountFirst(c: char, s: string, d: int)
    ensures CountClose([c] + s, d) == if c == '}' && d == 1 then Upto(1) else Shift(1, CountClose(s, d + Delta(c)))
  {
    assert ([c] + s)[1..] == s;
  }

  /** One unit of a literal, read by counting from `e`. */
  lemma CountUnit(us: seq<Unit>, tail: string, e: int)
    requires us != [] && e + Delta(us[0].c) >= 1
    ensures CountClose(RenderUnits(us, tail), e)
         == Shift(if us[0].Raw? then 1 else 2, CountClose(RenderUnits(us[1..], tail), e + Delta(us[0].c)))
  {
    var c, more := us[0].c, RenderUnits(us[1..], tail);
    CountFirst(c, more, e);
    if us[0].Raw? {
      assert RenderUnits(us, tail) == [c] + more;
    } else {
      assert RenderUnits(us, tail) == ['\\'] + ([c] + more);
      CountFirst('\\', [c] + more, e);
    }
  }

  lemma {:induction false} CountReadsUnits(us: seq<Unit>, tail: string, d: int, height: nat)
    requires d >= 1 && Settles(us, height)
    ensures CountClose(RenderUnits(us, tail), d + height) == Shift(UnitsLength(us), CountClose(tail, d))
  {
    if us != [] {
      CountUnit(us, tail, d + height);
      CountReadsUnits(us[1..], tail, d, height + Delta(us[0].c));
    }
  }

  lemma {:induction false} CountReadsItems(t: Items, tail: string, d: int)
    requires WellFormed(t) && LiteralsSteady(t) && d >= 1
    ensures CountClose(Render(t, tail), d) == Shift(Length(t), CountClose(tail, d))
  {
    match t
    case Nil =>
    case Plain(c, rest) =>
      CountReadsItems(rest, tail, d);
      assert Render(t, tail) == [c] + Render(rest, tail);
      CountFirst(c, Render(rest, tail), d);
    case Quoted(body, rest) =>
      CountReadsItems(rest, tail, d);
      assert Render(t, tail) == ['"'] + RenderUnits(body, ['"'] + Render(rest, tail));
      CountReadsQuoted(body, Render(rest, tail), d);
    case Block(inner, rest) =>
      var more := Render(rest, tail);
      CountReadsItems(rest, tail, d);
      CountReadsItems(inner, ['}'] + more, d + 1);
      assert Render(t, tail) == ['{'] + Render(inner, ['}'] + more);
      CountReadsBlock(Render(inner, ['}'] + more), more, Length(inner), d);
  }

  lemma CountReadsQuoted(body: seq<Unit>, more: string, d: int)
    requires Steady(body) && d >= 1
    ensures CountClose(['"'] + RenderUnits(body, ['"'] + more), d) == Shift(UnitsLength(body) + 2, CountClose(more, d))
  {
    CountFirst('"', more, d);
    CountReadsUnits(body, ['"'] + more, d, 0);
    CountFirst('"', RenderUnits(body, ['"'] + more), d);
  }

  lemma CountReadsBlock(inside: string, more: string, n: nat, d: int)
    requires d >= 1
    requires CountClose(inside, d + 1) == Shift(n, CountClose(['}'] + more, d + 1))
    ensures CountClose(['{'] + inside, d) == Shift(n + 2, CountClose(more, d))
  {
    CountFirst('}', more, d + 1);
    CountFirst('{', inside, d);
  }

  /**
   * The plain count ends where the string-aware scanner ends, if every literal's
   * braces are nested among themselves; a literal without braces always is.
   */
  lemma CountAgrees(t: Items, tail: string)
    requires WellFormed(t) && LiteralsSteady(t)
    ensures Agrees(t, tail)
  {
    CloseReadsObject(t, tail);
    ObjectThenTail(t, tail);
    CountReadsItems(t, ['}'] + tail, 1);
    ItemsHaveLength(Block(t, Nil), "");
    CountFirst('}', tail, 1);
    CountFirst('{', Render(t, ['}'] + tail), 0);
  }

  // ---- and only then ----

  /** The plain count of an object ends where the string-aware scan of it ends, with `tail` after it. */
  predicate Agrees(t: Items, tail: string) {
    CountClose(ObjectText(t) + tail, 0) == Close(ObjectText(t) + tail, START) == Upto(|ObjectText(t)|)
  }

  /**
   * A literal inside one object, read by counting: the count comes out at the
   * end of the object only if its braces, from `height` open ones, settle.
   */
  lemma {:induction false} CountNeedsSettling(us: seq<Unit>, tail: string, height: nat)
    requires CountClose(RenderUnits(us, ['"'] + (['}'] + tail)), 1 + height) == Upto(UnitsLength(us) + 2)
    ensures Settles(us, height)
  {
    var last := ['}'] + tail;
    if us == [] {
      CountFirst('"', last, 1 + height);
      CountFirst('}', tail, 1 + height);
    } else {
      var c, more := us[0].c, RenderUnits(us[1..], ['"'] + last);
      if us[0].Escaped? {
        CountFirst('\\', [c] + more, 1 + height);
      }
      CountFirst(c, more, 1 + height);
      CountNeedsSettling(us[1..], tail, height + Delta(c));
    }
  }

  /** An object that holds nothing but one literal is cut right exactly when that literal is steady. */
  lemma SingleLiteralIff(us: seq<Unit>, tail: string)
    requires UnitsWellFormed(us)
    ensures Agrees(Quoted(us, Nil), tail) <==> Steady(us)
  {
    var t := Quoted(us, Nil);
    if Steady(us) {
      CountAgrees(t, tail);
    } else if Agrees(t, tail) {
      var literal := RenderUnits(us, ['"'] + (['}'] + tail));
      ObjectThenTail(t, tail);
      ItemsHaveLength(Block(t, Nil), "");
      assert Render(Nil, ['}'] + tail) == ['}'] + tail;
      assert Render(t, ['}'] + tail) == ['"'] + literal;
      assert Render(Block(t, Nil), tail) == ['{'] + (['"'] + literal);
      CountFirst('{', ['"'] + literal, 0);
      CountFirst('"', literal, 1);
      CountNeedsSettling(us, tail, 0);
    }
  }

  ghost predicate LiteralsAre(t: Items, ok: seq<Unit> -> bool) {
    match t
    case Nil => true
    case Plain(_, rest) => LiteralsAre(rest, ok)
    case Quoted(body, rest) => ok(body) && LiteralsAre(rest, ok)
    case Block(inner, rest) => LiteralsAre(inner, ok) && LiteralsAre(rest, ok)
  }

  /** Every object whose literals are all of one kind is cut right, whatever follows it. */
  ghost predicate CutsRight(ok: seq<Unit> -> bool) {
    forall t, tail :: WellFormed(t) && LiteralsAre(t, ok) ==> Agrees(t, tail)
  }

  lemma {:induction false} KindIsSteady(t: Items, ok: seq<Unit> -> bool)
    requires WellFormed(t) && LiteralsAre(t, ok)
    requires forall us :: UnitsWellFormed(us) && ok(us) ==> Steady(us)
    ensures LiteralsSteady(t)
  {
    match t
    case Nil =>
    case Plain(_, rest) => KindIsSteady(rest, ok);
    case Quoted(_, rest) => KindIsSteady(rest, ok);
    case Block(inner, rest) =>
      KindIsSteady(inner, ok);
      KindIsSteady(rest, ok);
  }

  /**
   * Exactly how far the plain count can be trusted: it cuts every object with
   * literals of some kind as the string-aware scan does if and only if the
   * braces in each literal of that kind are nested among themselves.
   */
  lemma CountAgreesIff(ok: seq<Unit> -> bool)
    ensures CutsRight(ok) <==> forall us :: UnitsWellFormed(us) && ok(us) ==> Steady(us)
  {
    if CutsRight(ok) {
      forall us | UnitsWellFormed(us) && ok(us)
        ensures Steady(us)
      {
        assert WellFormed(Quoted(us, Nil)) && LiteralsAre(Quoted(us, Nil), ok);
        SingleLiteralIff(us, "");
      }
    }
    if forall us :: UnitsWellFormed(us) && ok(us) ==> Steady(us) {
      forall t, tail | WellFormed(t) && LiteralsAre(t, ok)
        ensures Agrees(t, tail)
      {
        KindIsSteady(t, ok);
        CountAgrees(t, tail);
      }
    }
  }

  /** One closing brace inside a literal is enough to cut the object short. */
  lemma BraceInLiteralMisleads()
    ensures var s := "{\"}\"}";
            && IsObjectText(s)
            && Close(s, START) == Upto(5)
            && CountClose(s, 0) == Upto(3)
  {
    var t := Quoted([Raw('}')], Nil);
    CloseReadsObject(t, "");
    assert ObjectText(t) == "{\"}\"}" by {
      assert RenderUnits([Raw('}')], ['"'] + ['}']) == ['}'] + (['"'] + ['}']);
      assert Render(Nil, ['}'] + "") == ['}'];
    }
    assert ObjectText(t) + "" == "{\"}\"}";
    CountFirst('}', "\"}", 1);
    CountFirst('"', "}\"}", 1);
    CountFirst('{', "\"}\"}", 0);
  }
}
