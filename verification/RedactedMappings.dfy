/**
 * Redacting nested mappings: values under sensitive keys are masked, strings
 * are redacted, and what the result still says about the secrets.
 */
module RedactedMappings {
  import opened Redaction
  import opened HiddenTokens
  import opened HiddenPasswords

  /** Values that are neither mappings nor strings pass through untouched, lists among them. */
  datatype Value = Text(s: string) | Mapping(entries: seq<(string, Value)>) | Other(id: int)

  function RedactEntries(sensitive: string -> bool, es: seq<(string, Value)>): (r: seq<(string, Value)>)
    ensures |r| == |es| && forall i :: 0 <= i < |r| ==> r[i].0 == es[i].0
    decreases es, 0
  {
    if es == [] then []
    else
      assert es[0].1 < es[0];
      [(es[0].0, RedactUnder(sensitive, es[0].0, es[0].1))] + RedactEntries(sensitive, es[1..])
  }

  function RedactUnder(sensitive: string -> bool, key: string, v: Value): Value
    decreases v, 1
  {
    if sensitive(key) then Text(MASK) else RedactValue(sensitive, v)
  }

  function RedactValue(sensitive: string -> bool, v: Value): Value
    decreases v, 0
  {
    match v
    case Text(s) => Text(RedactString(s))
    case Mapping(entries) => Mapping(RedactEntries(sensitive, entries))
    case Other(_) => v
  }

  lemma EntriesFirst(sensitive: string -> bool, es: seq<(string, Value)>)
    requires es != []
    ensures RedactEntries(sensitive, es)
         == [(es[0].0, RedactUnder(sensitive, es[0].0, es[0].1))] + RedactEntries(sensitive, es[1..])
  {
  }

  lemma UnderIs(sensitive: string -> bool, key: string, v: Value)
    ensures var r := RedactUnder(sensitive, key, v);
            if sensitive(key) then r == Text("***")
            else
              match v
              case Text(s) => r == Text(RedactString(s))
              case Mapping(inner) => r == Mapping(RedactEntries(sensitive, inner))
              case Other(_) => r == v
  {
  }

  /** What must stand under each key: three asterisks if it is sensitive, else the value redacted by its kind. */
  lemma {:induction false} EntryRedacted(sensitive: string -> bool, es: seq<(string, Value)>, i: nat)
    requires i < |es|
    ensures var v, r := es[i].1, RedactEntries(sensitive, es)[i].1;
            if sensitive(es[i].0) then r == Text("***")
            else
              match v
              case Text(s) => r == Text(RedactString(s))
              case Mapping(inner) => r == Mapping(RedactEntries(sensitive, inner))
              case Other(_) => r == v
  {
    EntriesFirst(sensitive, es);
    UnderIs(sensitive, es[0].0, es[0].1);
    if i > 0 {
      assert es[1..][i - 1] == es[i];
      EntryRedacted(sensitive, es[1..], i - 1);
    }
  }

  lemma {:induction false} RedactEntriesIdempotent(sensitive: string -> bool, es: seq<(string, Value)>)
    ensures RedactEntries(sensitive, RedactEntries(sensitive, es)) == RedactEntries(sensitive, es)
    decreases es
  {
    if es != [] {
      var r := RedactEntries(sensitive, es);
      assert es[0].1 < es[0];
      RedactValueIdempotent(sensitive, es[0].1);
      RedactEntriesIdempotent(sensitive, es[1..]);
      assert r[1..] == RedactEntries(sensitive, es[1..]);
      assert r == [r[0]] + r[1..];
    }
  }

  /** Redacting a redacted mapping changes nothing, at any depth. */
  lemma {:induction false} RedactValueIdempotent(sensitive: string -> bool, v: Value)
    ensures RedactValue(sensitive, RedactValue(sensitive, v)) == RedactValue(sensitive, v)
    decreases v
  {
    match v
    case Text(s) => RedactStringIdempotent(s);
    case Mapping(entries) => RedactEntriesIdempotent(sensitive, entries);
    case Other(_) =>
  }

  /** Alike but for what is under sensitive keys and for what redaction takes out of strings. */
  predicate AlikeEntries(sensitive: string -> bool, a: seq<(string, Value)>, b: seq<(string, Value)>)
    decreases a
  {
    if a == [] || b == [] then a == b
    else
      assert a[0].1 < a[0];
      && a[0].0 == b[0].0
      && (sensitive(a[0].0) || Alike(sensitive, a[0].1, b[0].1))
      && AlikeEntries(sensitive, a[1..], b[1..])
  }

  predicate Alike(sensitive: string -> bool, a: Value, b: Value)
    decreases a
  {
    match a
    case Text(s) => b.Text? && RedactString(s) == RedactString(b.s)
    case Mapping(entries) => b.Mapping? && AlikeEntries(sensitive, entries, b.entries)
    case Other(_) => a == b
  }

  /** Redaction hides exactly that: two mappings have the same output if and only if they are alike. */
  lemma {:induction false} RedactionHides(sensitive: string -> bool, a: seq<(string, Value)>, b: seq<(string, Value)>)
    ensures RedactEntries(sensitive, a) == RedactEntries(sensitive, b) <==> AlikeEntries(sensitive, a, b)
    decreases a
  {
    if a != [] && b != [] {
      var ra, rb := RedactEntries(sensitive, a), RedactEntries(sensitive, b);
      assert a[0].1 < a[0];
      ValueHides(sensitive, a[0].1, b[0].1);
      RedactionHides(sensitive, a[1..], b[1..]);
      assert ra[1..] == RedactEntries(sensitive, a[1..]) && rb[1..] == RedactEntries(sensitive, b[1..]);
      assert ra == [ra[0]] + ra[1..] && rb == [rb[0]] + rb[1..];
    }
  }

  lemma {:induction false} ValueHides(sensitive: string -> bool, a: Value, b: Value)
    ensures RedactValue(sensitive, a) == RedactValue(sensitive, b) <==> Alike(sensitive, a, b)
    decreases a
  {
    if a.Mapping? && b.Mapping? {
      RedactionHides(sensitive, a.entries, b.entries);
    }
  }

  /** The same text but for one token after a word, where no other token is being read. */
  ghost predicate TokenApart(s: string, t: string) {
    exists i :: 0 <= i <= |s| && i <= |t| && s[..i] == t[..i] && !OpenAtEnd(s[..i]) && SameButToken(s[i..], t[i..])
  }

  /** The same text but for one URL password, or what a token takes in as one. */
  ghost predicate PasswordApart(s: string, t: string) {
    exists i, a, b :: 0 <= i < a < |s| && i < b < |t| && PasswordsAt(s, i, a, t, b)
  }

  ghost predicate PasswordsAt(s: string, i: nat, a: nat, t: string, b: nat)
    requires i < a < |s| && i < b < |t|
  {
    && s[..i] == t[..i] && TakenIn(s[..i], s[i..a]) && TakenIn(t[..i], t[i..b])
    && s[a] == '@' == t[b] && s[a + 1..] == t[b + 1..]
  }

  /** Any number of such differences, one after the other. */
  ghost predicate Chain(texts: seq<string>) {
    texts != [] && forall i :: 0 <= i < |texts| - 1 ==> TokenApart(texts[i], texts[i + 1]) || PasswordApart(texts[i], texts[i + 1])
  }

  /** The same text but for any number of tokens and passwords. */
  ghost predicate SecretsApart(s: string, t: string) {
    exists texts :: Chain(texts) && texts[0] == s && texts[|texts| - 1] == t
  }

  /** The same mapping but for what stands under sensitive keys and for tokens and passwords in strings, at any depth. */
  ghost predicate OnlySecretsDiffer(sensitive: string -> bool, a: Value, b: Value)
    decreases a
  {
    match a
    case Text(s) => b.Text? && SecretsApart(s, b.s)
    case Mapping(entries) => b.Mapping? && EntriesSecretsDiffer(sensitive, entries, b.entries)
    case Other(_) => a == b
  }

  ghost predicate EntriesSecretsDiffer(sensitive: string -> bool, a: seq<(string, Value)>, b: seq<(string, Value)>)
    decreases a
  {
    if a == [] || b == [] then a == b
    else
      assert a[0].1 < a[0];
      && a[0].0 == b[0].0
      && (sensitive(a[0].0) || OnlySecretsDiffer(sensitive, a[0].1, b[0].1))
      && EntriesSecretsDiffer(sensitive, a[1..], b[1..])
  }

  lemma AppendedHidden(pre: string, u: string, v: string)
    requires !OpenAtEnd(pre) && SameButToken(u, v)
    ensures RedactString(pre + u) == RedactString(pre + v)
  {
    TokenHiddenIff(pre);
  }

  lemma SplitAt(s: string, i: nat)
    requires i <= |s|
    ensures s[..i] + s[i..] == s
  {
  }

  lemma TokenApartHidden(s: string, t: string)
    requires TokenApart(s, t)
    ensures RedactString(s) == RedactString(t)
  {
    var i :| 0 <= i <= |s| && i <= |t| && s[..i] == t[..i] && !OpenAtEnd(s[..i]) && SameButToken(s[i..], t[i..]);
    var pre, u, v := s[..i], s[i..], t[i..];
    AppendedHidden(pre, u, v);
    SplitAt(s, i);
    SplitAt(t, i);
  }

  lemma TailAt(s: string, i: nat, a: nat)
    requires i < a < |s| && s[a] == '@'
    ensures s == s[..i] + AtTail(s[i..a], s[a + 1..])
  {
    assert s[i..] == s[i..a] + ("@" + s[a + 1..]);
    SplitAt(s, i);
  }

  lemma TailHidden(front: string, p: string, q: string, rest: string)
    requires p != "" && q != "" && TakenIn(front, p) && TakenIn(front, q)
    ensures RedactString(front + AtTail(p, rest)) == RedactString(front + AtTail(q, rest))
  {
    FrontHidesIff(front);
    PasswordHiddenIff(front, p);
    PasswordHiddenIff(front, q);
  }

  lemma PasswordApartHidden(s: string, t: string)
    requires PasswordApart(s, t)
    ensures RedactString(s) == RedactString(t)
  {
    var i, a, b :| 0 <= i < a < |s| && i < b < |t| && PasswordsAt(s, i, a, t, b);
    TailAt(s, i, a);
    TailAt(t, i, b);
    TailHidden(s[..i], s[i..a], t[i..b], s[a + 1..]);
  }

  lemma {:induction false} ChainHidden(texts: seq<string>)
    requires Chain(texts)
    ensures RedactString(texts[0]) == RedactString(texts[|texts| - 1])
  {
    if |texts| > 1 {
      var rest := texts[1..];
      assert forall i :: 0 <= i < |rest| ==> rest[i] == texts[i + 1];
      ChainHidden(rest);
      if TokenApart(texts[0], texts[1]) {
        TokenApartHidden(texts[0], texts[1]);
      } else {
        PasswordApartHidden(texts[0], texts[1]);
      }
    }
  }

  lemma {:induction false} SecretsAlike(sensitive: string -> bool, a: Value, b: Value)
    requires OnlySecretsDiffer(sensitive, a, b)
    ensures Alike(sensitive, a, b)
    decreases a
  {
    match a
    case Text(s) =>
      var texts :| Chain(texts) && texts[0] == s && texts[|texts| - 1] == b.s;
      ChainHidden(texts);
    case Mapping(entries) => SecretsHidden(sensitive, entries, b.entries);
    case Other(_) =>
  }

  /** The redacted mapping says nothing about values under sensitive keys, tokens and passwords, at any depth. */
  lemma {:induction false} SecretsHidden(sensitive: string -> bool, a: seq<(string, Value)>, b: seq<(string, Value)>)
    requires EntriesSecretsDiffer(sensitive, a, b)
    ensures RedactEntries(sensitive, a) == RedactEntries(sensitive, b)
    ensures AlikeEntries(sensitive, a, b)
    decreases a
  {
    if a != [] && b != [] {
      assert a[0].1 < a[0];
      if !sensitive(a[0].0) {
        SecretsAlike(sensitive, a[0].1, b[0].1);
      }
      SecretsHidden(sensitive, a[1..], b[1..]);
    }
    RedactionHides(sensitive, a, b);
  }

  method RedactEntry(sensitive: string -> bool, key: string, value: Value) returns (redacted: Value)
    ensures redacted == RedactUnder(sensitive, key, value)
    decreases value, 1
  {
    if sensitive(key) {
      redacted := Text(MASK);
    } else if value.Mapping? {
      var inner := RedactMapping(sensitive, value.entries);
      redacted := Mapping(inner);
    } else if value.Text? {
      redacted := Text(RedactString(value.s));
    } else {
      redacted := value;
    }
  }

  /** `redact_mapping`, filling the new mapping entry by entry. */
  method RedactMapping(sensitive: string -> bool, data: seq<(string, Value)>) returns (out: seq<(string, Value)>)
    ensures out == RedactEntries(sensitive, data)
    decreases data, 0
  {
    out := [];
    var i := 0;
    while i < |data|
      invariant 0 <= i <= |data|
      invariant RedactEntries(sensitive, data) == out + RedactEntries(sensitive, data[i..])
    {
      EntriesFirst(sensitive, data[i..]);
      assert data[i..][0] == data[i] && data[i..][1..] == data[i + 1..];
      assert data[i].1 < data[i];
      var redacted := RedactEntry(sensitive, data[i].0, data[i].1);
      out := out + [(data[i].0, redacted)];
      i := i + 1;
    }
    assert data[i..] == [];
  }
}
