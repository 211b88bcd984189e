/**
 * JSON values and how they are written down (RFC 8259, sections 2 to 7), and
 * the law the scanner exists for: it cuts a printed object out of any text.
 */
module JsonText {
  import opened Wrappers
  import opened BraceScanner

  /** What a number is spelled with (section 6). */
  type Lexeme = s: string | forall i :: 0 <= i < |s| ==> s[i] in "0123456789+-.eE" witness "0"

  /** Insignificant whitespace (section 2). */
  type Blank = s: string | forall i :: 0 <= i < |s| ==> s[i] in " \t\n\r" witness ""

  datatype Json =
    | Null
    | Bool(b: bool)
    | Number(lexeme: Lexeme)
    | Text(s: string)
    | Array(elems: seq<Json>)
    | Object(members: seq<(string, Json)>)

  datatype Place = AfterOpen | BeforeClose | BeforeComma | AfterComma | BeforeColon | AfterColon

  /**
   * How a printer writes things down: which whitespace it puts where, by place
   * and nesting depth, and how it spells each character of a string, by the
   * character and how many are left.
   */
  datatype Layout = Layout(blank: (Place, nat) -> Blank, spell: Spelling)

  // ---- characters of a string ----

  predicate IsHex(c: char) {
    '0' <= c <= '9' || 'a' <= c <= 'f' || 'A' <= c <= 'F'
  }

  function HexValue(c: char): (n: nat)
    ensures n < 16
  {
    if '0' <= c <= '9' then c as int - '0' as int
    else if 'a' <= c <= 'f' then c as int - 'a' as int + 10
    else if 'A' <= c <= 'F' then c as int - 'A' as int + 10
    else 0
  }

  /** A `u` escape and its four digits. */
  predicate IsCode(us: seq<Unit>) {
    && |us| == 5 && us[0] == Escaped('u')
    && us[1].Raw? && us[2].Raw? && us[3].Raw? && us[4].Raw?
    && IsHex(us[1].c) && IsHex(us[2].c) && IsHex(us[3].c) && IsHex(us[4].c)
  }

  function Code(us: seq<Unit>): (n: nat)
    requires |us| == 5
    ensures n < 0x1_0000
  {
    HexValue(us[1].c) * 0x1000 + HexValue(us[2].c) * 0x100 + HexValue(us[3].c) * 0x10 + HexValue(us[4].c)
  }

  /** What an escape of two characters stands for. */
  function Short(e: char): char {
    match e
    case 'b' => '\U{8}'
    case 'f' => '\U{C}'
    case 'n' => '\n'
    case 'r' => '\r'
    case 't' => '\t'
    case c => c
  }

  predicate HasShort(e: char) {
    e == '"' || e == '\\' || e == '/' || e == 'b' || e == 'f' || e == 'n' || e == 'r' || e == 't'
  }

  /** The character that two surrogate codes stand for. */
  function Joined(high: nat, low: nat): nat {
    0x1_0000 + (high - 0xD800) % 0x400 * 0x400 + (low - 0xDC00) % 0x400
  }

  predicate IsHigh(n: nat) { 0xD800 <= n < 0xDC00 }

  predicate IsLow(n: nat) { 0xDC00 <= n < 0xE000 }

  /** The digits and the short escapes, one by one. */
  lemma DigitsAre(n: nat)
    requires n < 16
    ensures HexValue("0123456789abcdef"[n]) == n == HexValue("0123456789ABCDEF"[n])
    ensures IsHex("0123456789abcdef"[n]) && IsHex("0123456789ABCDEF"[n])
  {
  }

  lemma ShortsAre()
    ensures Short('"') == '"' && Short('\\') == '\\' && Short('/') == '/' && Short('b') == '\U{8}' && Short('f') == '\U{C}'
    ensures Short('n') == '\U{A}' && Short('r') == '\U{D}' && Short('t') == '\U{9}'
    ensures forall e :: HasShort(e) <==> e in ['"', '\\', '/', 'b', 'f', 'n', 'r', 't']
  {
  }

  predicate SpellsRaw(c: char, us: seq<Unit>) {
    us == [Raw(c)] && c >= ' ' && c != '"' && c != '\\'
  }

  predicate SpellsShort(c: char, us: seq<Unit>) {
    |us| == 1 && us[0].Escaped? && HasShort(us[0].c) && c == Short(us[0].c)
  }

  predicate SpellsCode(c: char, us: seq<Unit>) {
    IsCode(us) && Code(us) == c as int
  }

  predicate SpellsPair(c: char, us: seq<Unit>) {
    && |us| == 10 && IsCode(us[..5]) && IsCode(us[5..])
    && IsHigh(Code(us[..5])) && IsLow(Code(us[5..])) && Joined(Code(us[..5]), Code(us[5..])) == c as int
  }

  /** The ways section 7 allows to write a character: itself, a short escape, a code, or two. */
  predicate Spells(c: char, us: seq<Unit>) {
    SpellsRaw(c, us) || SpellsShort(c, us) || SpellsCode(c, us) || SpellsPair(c, us)
  }

  type Spelling = f: (char, nat) -> seq<Unit> | forall c, n :: Spells(c, f(c, n)) witness (c, n) => Plainest(c)

  function HexDigit(n: nat): (c: char)
    requires n < 16
    ensures IsHex(c) && HexValue(c) == n
  {
    if n < 10 then ('0' as int + n) as char else ('a' as int + n - 10) as char
  }

  /** A character escaped only where it must be. */
  function Plainest(c: char): (us: seq<Unit>)
    ensures Spells(c, us)
  {
    if c == '"' || c == '\\' then [Escaped(c)]
    else if c < ' ' then
      [Escaped('u'), Raw('0'), Raw('0'), Raw(HexDigit(c as int / 16)), Raw(HexDigit(c as int % 16))]
    else [Raw(c)]
  }

  lemma SpellingWellFormed(c: char, us: seq<Unit>)
    requires Spells(c, us)
    ensures UnitsWellFormed(us) && us != []
  {
    if SpellsPair(c, us) {
      assert us == us[..5] + us[5..];
    }
  }

  function EscapeAll(spell: Spelling, s: string): (us: seq<Unit>)
    ensures UnitsWellFormed(us)
  {
    if s == "" then []
    else
      SpellingWellFormed(s[0], spell(s[0], |s|));
      spell(s[0], |s|) + EscapeAll(spell, s[1..])
  }

  /** What the units of a literal stand for; a lone surrogate stands for no character. */
  function Unescape(us: seq<Unit>): string {
    if us == [] then ""
    else if us[0].Raw? then [us[0].c] + Unescape(us[1..])
    else if us[0].c != 'u' || |us| < 5 then [Short(us[0].c)] + Unescape(us[1..])
    else
      var n := Code(us[..5]);
      if IsHigh(n) && |us| >= 10 && IsLow(Code(us[5..10])) then
        [Joined(n, Code(us[5..10])) as char] + Unescape(us[10..])
      else if IsHigh(n) || IsLow(n) then Unescape(us[5..])
      else [n as char] + Unescape(us[5..])
  }

  lemma UnescapePair(c: char, us: seq<Unit>, more: seq<Unit>)
    requires SpellsPair(c, us)
    ensures Unescape(us + more) == [c] + Unescape(more)
  {
    assert (us + more)[..5] == us[..5] && (us + more)[5..10] == us[5..] && (us + more)[10..] == more;
    assert us[..5][0] == us[0];
  }

  lemma UnescapeCode(c: char, us: seq<Unit>, more: seq<Unit>)
    requires SpellsCode(c, us)
    ensures Unescape(us + more) == [c] + Unescape(more)
  {
    assert (us + more)[..5] == us && (us + more)[5..] == more;
  }

  lemma UnescapeOne(c: char, us: seq<Unit>, more: seq<Unit>)
    requires Spells(c, us)
    ensures Unescape(us + more) == [c] + Unescape(more)
  {
    if SpellsPair(c, us) {
      UnescapePair(c, us, more);
    } else if SpellsCode(c, us) {
      UnescapeCode(c, us, more);
    } else {
      assert (us + more)[1..] == more;
    }
  }

  /** No character is lost, however it is spelled: the literal stands for the string it was printed from. */
  lemma {:induction false} UnescapeInvertsEscape(spell: Spelling, s: string)
    ensures Unescape(EscapeAll(spell, s)) == s
  {
    if s != "" {
      UnescapeInvertsEscape(spell, s[1..]);
      UnescapeOne(s[0], spell(s[0], |s|), EscapeAll(spell, s[1..]));
    }
  }

  // ---- the printer ----

  function PrintString(l: Layout, s: string): string {
    ['"'] + RenderUnits(EscapeAll(l.spell, s), ['"'])
  }

  function Print(l: Layout, v: Json, d: nat): string
    decreases v, 1
  {
    match v
    case Null => "null"
    case Bool(b) => if b then "true" else "false"
    case Number(lexeme) => lexeme
    case Text(s) => PrintString(l, s)
    case Array(elems) => "[" + Padded(l, PrintElems(l, elems, d + 1), d) + "]"
    case Object(members) => "{" + Padded(l, PrintMembers(l, members, d + 1), d) + "}"
  }

  function Padded(l: Layout, inside: string, d: nat): string {
    l.blank(AfterOpen, d) + inside + l.blank(BeforeClose, d)
  }

  function Comma(l: Layout, d: nat): string {
    l.blank(BeforeComma, d) + "," + l.blank(AfterComma, d)
  }

  function Colon(l: Layout, d: nat): string {
    l.blank(BeforeColon, d) + ":" + l.blank(AfterColon, d)
  }

  function PrintElems(l: Layout, vs: seq<Json>, d: nat): string
    decreases vs, 0
  {
    if vs == [] then ""
    else Print(l, vs[0], d) + (if |vs| == 1 then "" else Comma(l, d)) + PrintElems(l, vs[1..], d)
  }

  function PrintMembers(l: Layout, ms: seq<(string, Json)>, d: nat): string
    decreases ms, 0
  {
    if ms == [] then ""
    else
      assert ms[0].1 < ms[0];
      PrintString(l, ms[0].0) + Colon(l, d) + Print(l, ms[0].1, d)
      + (if |ms| == 1 then "" else Comma(l, d)) + PrintMembers(l, ms[1..], d)
  }

  // ---- printed text is balanced, whatever its strings hold ----

  predicate Inert(s: string) {
    forall i :: 0 <= i < |s| ==> s[i] != '"' && s[i] != '{' && s[i] != '}'
  }

  lemma {:induction false} InertIsBalanced(s: string)
    requires Inert(s)
    ensures IsBalanced(s)
  {
    if s == "" {
      assert WellFormed(Nil) && s == Render(Nil, "");
    } else {
      InertIsBalanced(s[1..]);
      var t :| WellFormed(t) && s[1..] == Render(t, "");
      assert WellFormed(Plain(s[0], t)) && s == Render(Plain(s[0], t), "");
    }
  }

  lemma StringIsBalanced(l: Layout, s: string)
    ensures IsBalanced(PrintString(l, s))
  {
    assert Render(Nil, "") == "";
    assert ['"'] + "" == ['"'];
    assert WellFormed(Quoted(EscapeAll(l.spell, s), Nil)) && PrintString(l, s) == Render(Quoted(EscapeAll(l.spell, s), Nil), "");
  }

  lemma SeparatorsBalanced(l: Layout, d: nat)
    ensures IsBalanced(Comma(l, d)) && IsBalanced(Colon(l, d))
  {
    InertIsBalanced(Comma(l, d));
    InertIsBalanced(Colon(l, d));
  }

  lemma {:induction false} ValueIsBalanced(l: Layout, v: Json, d: nat)
    ensures IsBalanced(Print(l, v, d))
    decreases v, 1
  {
    match v
    case Null =>
      InertIsBalanced("null");
    case Bool(b) =>
      InertIsBalanced(if b then "true" else "false");
    case Number(lexeme) =>
      InertIsBalanced(lexeme);
    case Text(s) =>
      StringIsBalanced(l, s);
    case Array(elems) =>
      ElemsBalanced(l, elems, d + 1);
      PaddedBalanced(l, PrintElems(l, elems, d + 1), d);
      BracketedBalanced(Padded(l, PrintElems(l, elems, d + 1), d));
    case Object(members) =>
      MembersBalanced(l, members, d + 1);
      PaddedBalanced(l, PrintMembers(l, members, d + 1), d);
      BracedIsObject(Padded(l, PrintMembers(l, members, d + 1), d));
  }

  lemma PaddedBalanced(l: Layout, inside: string, d: nat)
    requires IsBalanced(inside)
    ensures IsBalanced(Padded(l, inside, d))
  {
    InertIsBalanced(l.blank(AfterOpen, d));
    InertIsBalanced(l.blank(BeforeClose, d));
    BalancedConcat(l.blank(AfterOpen, d), inside);
    BalancedConcat(l.blank(AfterOpen, d) + inside, l.blank(BeforeClose, d));
  }

  lemma BracketedBalanced(inside: string)
    requires IsBalanced(inside)
    ensures IsBalanced("[" + inside + "]")
  {
    InertIsBalanced("[");
    InertIsBalanced("]");
    BalancedConcat("[", inside);
    BalancedConcat("[" + inside, "]");
  }

  lemma {:induction false} ElemsBalanced(l: Layout, vs: seq<Json>, d: nat)
    ensures IsBalanced(PrintElems(l, vs, d))
    decreases vs, 0
  {
    InertIsBalanced("");
    if vs != [] {
      var sep := if |vs| == 1 then "" else Comma(l, d);
      ValueIsBalanced(l, vs[0], d);
      ElemsBalanced(l, vs[1..], d);
      SeparatorsBalanced(l, d);
      BalancedConcat(Print(l, vs[0], d), sep);
      BalancedConcat(Print(l, vs[0], d) + sep, PrintElems(l, vs[1..], d));
    }
  }

  lemma {:induction false} MembersBalanced(l: Layout, ms: seq<(string, Json)>, d: nat)
    ensures IsBalanced(PrintMembers(l, ms, d))
    decreases ms, 0
  {
    InertIsBalanced("");
    if ms != [] {
      var name, sep := PrintString(l, ms[0].0), if |ms| == 1 then "" else Comma(l, d);
      assert ms[0].1 < ms[0];
      StringIsBalanced(l, ms[0].0);
      ValueIsBalanced(l, ms[0].1, d);
      MembersBalanced(l, ms[1..], d);
      SeparatorsBalanced(l, d);
      BalancedConcat(name, Colon(l, d));
      BalancedConcat(name + Colon(l, d), Print(l, ms[0].1, d));
      BalancedConcat(name + Colon(l, d) + Print(l, ms[0].1, d), sep);
      BalancedConcat(name + Colon(l, d) + Print(l, ms[0].1, d) + sep, PrintMembers(l, ms[1..], d));
    }
  }

  // ---- the round trip ----

  lemma PrintedObjectIsSegment(l: Layout, ms: seq<(string, Json)>, d: nat, pre: string, suf: string, window: nat)
    ensures var o := Print(l, Object(ms), d);
            forall seg :: IsSegment(pre + o + suf, |pre|, window, seg) <==> seg == o && |o| <= window
  {
    var o := Print(l, Object(ms), d);
    MembersBalanced(l, ms, d + 1);
    PaddedBalanced(l, PrintMembers(l, ms, d + 1), d);
    BracedIsObject(Padded(l, PrintMembers(l, ms, d + 1), d));
    var rest := (pre + o + suf)[|pre|..];
    assert rest == o + suf;
    forall seg | IsSegment(pre + o + suf, |pre|, window, seg)
      ensures seg == o
    {
      assert seg == rest[..|seg|] && o == rest[..|o|];
      if |seg| <= |o| {
        assert seg == o[..|seg|];
        PrefixFree(seg, o);
      } else {
        assert o == seg[..|o|];
        PrefixFree(o, seg);
      }
    }
  }

  /**
   * Whatever braces, quotes and backslashes its strings hold, and whatever text
   * stands around it, a printed object that fits the window is cut out exactly.
   */
  method ExtractPrinted(l: Layout, ms: seq<(string, Json)>, pre: string, suf: string) returns (r: Option<string>)
    ensures var o := Print(l, Object(ms), 0); r == if |o| <= 5_000_000 then Some(o) else None
  {
    var o := Print(l, Object(ms), 0);
    PrintedObjectIsSegment(l, ms, 0, pre, suf, SWATCH_WINDOW);
    assert (pre + o + suf)[|pre|] == o[0] == '{';
    r := ExtractBalanced(pre + o + suf, |pre|);
  }

  /** The other extractor finds the same object from any start between which and the object no brace opens. */
  method TryExtractPrinted<V>(l: Layout, ms: seq<(string, Json)>, pre: string, suf: string, start: int, parse: string -> Option<V>)
    returns (value: Option<V>, end: int)
    requires var n := |pre + Print(l, Object(ms), 0) + suf|;
             var from := if start >= 0 then start else if -start <= n then n + start else 0;
             from <= |pre| && '{' !in pre[from..]
    ensures var o := Print(l, Object(ms), 0);
            (value, end) == if |o| <= 2_000_000 then (parse(o), |pre + o|) else (None, -1)
  {
    var o := Print(l, Object(ms), 0);
    var text := pre + o + suf;
    ghost var from := SearchFrom(text, start);
    PrintedObjectIsSegment(l, ms, 0, pre, suf, CONFIG_WINDOW);
    assert text[|pre|] == o[0] == '{';
    assert forall j :: from <= j < |pre| ==> text[j] == pre[from..][j - from];
    assert IsFirstBrace(text, from, |pre|) && forall b: nat :: IsFirstBrace(text, from, b) ==> b == |pre|;
    assert |o| <= CONFIG_WINDOW ==> IsSegment(text, |pre|, 2_000_000, o);
    value, end := TryExtractObject(text, start, parse);
  }
}
