/**
 * The two patterns of the redaction spelled out over the characters of a text,
 * and what the substitutions make of their matches: the first match is masked,
 * what stands before it is copied, and the search goes on behind it.
 */
module Patterns {
  import opened Characters
  import opened Redaction
  import opened HiddenPasswords
  import opened Logins

  /** A login from `i` on, with the colon before its password at `c` and the at sign behind it at `a`. */
  predicate UrlAt(s: string, i: nat, c: nat, a: nat) {
    && i + 3 < c && c + 1 < a < |s|
    && s[i] == ':' && s[i + 1] == '/' && s[i + 2] == '/' && s[c] == ':' && s[a] == '@'
    && (forall j :: i + 3 <= j < c ==> s[j] != ':' && s[j] != '/' && s[j] != '@')
    && (forall j :: c < j < a ==> s[j] != '@' && s[j] != '/')
  }

  /** The word from `i` on, whitespace behind it, and a token from `k` to `e`. */
  predicate TokenAt(s: string, i: nat, k: nat, e: nat) {
    && i + 6 < k < e <= |s| && IsWord(s[i..i + 6])
    && (forall j :: i + 6 <= j < k ==> IsSpace(s[j]))
    && (forall j :: k <= j < e ==> !IsSpace(s[j]))
    && (e < |s| ==> IsSpace(s[e]))
  }

  lemma TextSplit(s: string, i: nat, k: nat, rest: string)
    requires i <= k <= |s|
    ensures s[..i] + (s[i..][..k - i] + rest) == s[..k] + rest && s[i..][k - i..] == s[k..]
  {
  }

  // ---- passwords ----

  lemma UrlHere(s: string, i: nat, c: nat, a: nat)
    requires UrlAt(s, i, c, a)
    ensures AtUrl(s[i..]) && Colon(s[i..]) == c - i && At(s[i..]) == a - i
  {
    UrlShape(s[i..], c - i, a - i);
  }

  lemma UrlThere(s: string, i: nat)
    requires i <= |s| && AtUrl(s[i..])
    ensures UrlAt(s, i, i + Colon(s[i..]), i + At(s[i..]))
  {
    var t := s[i..];
    var c, a := Colon(t), At(t);
    assert forall j :: i <= j < |s| ==> s[j] == t[j - i];
  }

  lemma {:induction false} UrlsFrom(s: string, i: nat)
    requires i <= |s| && forall j :: 0 <= j < i ==> !AtUrl(s[j..])
    ensures MaskUrl(s) == s[..i] + MaskUrl(s[i..])
  {
    if i == 0 {
      assert s[0..] == s;
    } else {
      UrlsFrom(s, i - 1);
      var t := s[i - 1..];
      TextSplit(s, i - 1, i, MaskUrl(s[i..]));
      assert t[..1] == [t[0]];
    }
  }

  lemma NoUrlBefore(s: string, i: nat)
    requires i <= |s| && forall j, c, a :: 0 <= j < i ==> !UrlAt(s, j, c, a)
    ensures MaskUrl(s) == s[..i] + MaskUrl(s[i..])
  {
    forall j | 0 <= j < i
      ensures !AtUrl(s[j..])
    {
      if AtUrl(s[j..]) {
        UrlThere(s, j);
      }
    }
    UrlsFrom(s, i);
  }

  lemma UrlMaskedHere(s: string, i: nat, c: nat, a: nat)
    requires UrlAt(s, i, c, a)
    ensures MaskUrl(s[i..]) == s[i..][..c + 1 - i] + ("***@" + MaskUrl(s[a + 1..]))
  {
    UrlHere(s, i, c, a);
    var t := s[i..];
    TextSplit(s, i, a + 1, "");
    MaskUrlFrom(t, t[..c + 1 - i], s[a + 1..]);
  }

  /** The first login loses its password, and the search goes on behind its at sign. */
  lemma FirstUrlMasked(s: string, i: nat, c: nat, a: nat)
    requires UrlAt(s, i, c, a) && forall j, c', a' :: 0 <= j < i ==> !UrlAt(s, j, c', a')
    ensures MaskUrl(s) == s[..c + 1] + ("***@" + MaskUrl(s[a + 1..]))
  {
    NoUrlBefore(s, i);
    UrlMaskedHere(s, i, c, a);
    TextSplit(s, i, c + 1, "***@" + MaskUrl(s[a + 1..]));
  }

  /** A text without a login is left as it is. */
  lemma NoUrlKept(s: string)
    requires forall i, c, a :: !UrlAt(s, i, c, a)
    ensures MaskUrl(s) == s
  {
    NoUrlBefore(s, |s|);
    assert s[..|s|] == s && s[|s|..] == "";
  }

  // ---- tokens ----

  lemma TokenHere(s: string, i: nat, k: nat, e: nat)
    requires TokenAt(s, i, k, e)
    ensures AtBearer(s[i..]) && TokenStart(s[i..]) == k - i && TokenEnd(s[i..]) == e - i
  {
    var t := s[i..];
    WordIs(s[i..i + 6]);
    assert forall j :: 0 <= j < 6 ==> t[j] == s[i..i + 6][j];
    BearerShape(t, k - i);
    TokenEndsAt(t, e - i);
  }

  lemma TokenThere(s: string, i: nat)
    requires i <= |s| && AtBearer(s[i..])
    ensures TokenAt(s, i, i + TokenStart(s[i..]), i + TokenEnd(s[i..]))
  {
    var t := s[i..];
    assert forall j :: 0 <= j < 6 ==> t[j] == s[i..i + 6][j];
    WordIs(s[i..i + 6]);
    assert forall j :: i <= j < |s| ==> s[j] == t[j - i];
  }

  lemma {:induction false} TokensFrom(s: string, i: nat)
    requires i <= |s| && forall j :: 0 <= j < i ==> !AtBearer(s[j..])
    ensures MaskBearer(s) == s[..i] + MaskBearer(s[i..])
  {
    if i == 0 {
      assert s[0..] == s;
    } else {
      TokensFrom(s, i - 1);
      var t := s[i - 1..];
      TextSplit(s, i - 1, i, MaskBearer(s[i..]));
      assert t[..1] == [t[0]];
    }
  }

  lemma NoTokenBefore(s: string, i: nat)
    requires i <= |s| && forall j, k, e :: 0 <= j < i ==> !TokenAt(s, j, k, e)
    ensures MaskBearer(s) == s[..i] + MaskBearer(s[i..])
  {
    forall j | 0 <= j < i
      ensures !AtBearer(s[j..])
    {
      if AtBearer(s[j..]) {
        TokenThere(s, j);
      }
    }
    TokensFrom(s, i);
  }

  /** The first token behind the word is masked, and the search goes on behind it. */
  lemma FirstTokenMasked(s: string, i: nat, k: nat, e: nat)
    requires TokenAt(s, i, k, e) && forall j, k', e' :: 0 <= j < i ==> !TokenAt(s, j, k', e')
    ensures MaskBearer(s) == s[..k] + ("***" + MaskBearer(s[e..]))
  {
    NoTokenBefore(s, i);
    TokenHere(s, i, k, e);
    TextSplit(s, i, k, "***" + MaskBearer(s[e..]));
    TextSplit(s, i, e, "");
  }

  /** A text in which no token stands behind the word is left as it is. */
  lemma NoTokenKept(s: string)
    requires forall i, k, e :: !TokenAt(s, i, k, e)
    ensures MaskBearer(s) == s
  {
    NoTokenBefore(s, |s|);
    assert s[..|s|] == s && s[|s|..] == "";
  }
}
