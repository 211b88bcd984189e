/**
 * Masking secrets in log text: bearer tokens and passwords inside URLs, one
 * substitution after the other.
 */
module Redaction {
  import opened Characters

  const MASK := "***"

  // ---- bearer tokens ----

  function Lower(c: char): char {
    if 'A' <= c <= 'Z' then c + ' ' else c
  }

  predicate IsB(c: char) { Lower(c) == 'b' }

  predicate SaysBearer(s: string) {
    && |s| >= 6 && IsB(s[0]) && Lower(s[1]) == 'e' && Lower(s[2]) == 'a'
    && Lower(s[3]) == 'r' && Lower(s[4]) == 'e' && Lower(s[5]) == 'r'
  }

  /** How many characters other than whitespace a string begins with. */
  function Token(s: string): (n: nat)
    ensures n <= |s| && (forall i :: 0 <= i < n ==> !IsSpace(s[i])) && (n < |s| ==> IsSpace(s[n]))
  {
    if s != "" && !IsSpace(s[0]) then 1 + Token(s[1..]) else 0
  }

  /** The word, at least one whitespace character, and the start of a token. */
  predicate AtBearer(s: string) {
    SaysBearer(s) && Spaces(s[6..]) > 0 && 6 + Spaces(s[6..]) < |s|
  }

  /** Where the token after the word begins and ends. */
  function TokenStart(s: string): (n: nat)
    requires AtBearer(s)
    ensures 7 <= n < |s| && !IsSpace(s[n]) && forall i :: 6 <= i < n ==> IsSpace(s[i])
  {
    assert forall i :: 6 <= i < 6 + Spaces(s[6..]) ==> s[i] == s[6..][i - 6];
    6 + Spaces(s[6..])
  }

  function TokenEnd(s: string): (n: nat)
    requires AtBearer(s)
    ensures TokenStart(s) < n <= |s| && (n < |s| ==> IsSpace(s[n]))
    ensures forall i :: TokenStart(s) <= i < n ==> !IsSpace(s[i])
  {
    var k := TokenStart(s);
    assert forall i :: k <= i < k + Token(s[k..]) ==> s[i] == s[k..][i - k];
    k + Token(s[k..])
  }

  function MaskBearer(s: string): string
    decreases |s|
  {
    if s == "" then ""
    else if AtBearer(s) then s[..TokenStart(s)] + (MASK + MaskBearer(s[TokenEnd(s)..]))
    else [s[0]] + MaskBearer(s[1..])
  }

  /** Reading the shape off a string: where the token begins is determined. */
  lemma BearerShape(s: string, k: nat)
    requires SaysBearer(s) && 7 <= k < |s| && !IsSpace(s[k])
    requires forall i :: 6 <= i < k ==> IsSpace(s[i])
    ensures AtBearer(s) && TokenStart(s) == k
  {
    var n := Spaces(s[6..]);
    assert n < |s| - 6 ==> s[6..][n] == s[6 + n];
    assert s[6..][k - 6] == s[k];
    assert forall i :: 6 <= i < k ==> s[6..][i - 6] == s[i];
    assert n <= k - 6;
    assert n >= k - 6;
  }

  lemma TokenEndsAt(s: string, e: nat)
    requires AtBearer(s) && TokenStart(s) < e <= |s| && (e < |s| ==> IsSpace(s[e]))
    requires forall i :: TokenStart(s) <= i < e ==> !IsSpace(s[i])
    ensures TokenEnd(s) == e
  {
  }

  lemma MaskKeepsFirst(s: string)
    ensures s == "" <==> MaskBearer(s) == ""
    ensures s != "" ==> MaskBearer(s)[0] == s[0]
  {
  }

  /** Up to the first b, masking has changed nothing. */
  lemma {:induction false} MaskKeepsBeforeB(s: string, k: nat)
    requires k < |MaskBearer(s)| && forall i :: 0 <= i < k ==> !IsB(MaskBearer(s)[i])
    ensures k < |s| && forall i :: 0 <= i <= k ==> s[i] == MaskBearer(s)[i]
  {
    MaskKeepsFirst(s);
    if k > 0 {
      var m := MaskBearer(s[1..]);
      assert MaskBearer(s) == [s[0]] + m;
      assert forall i :: 0 <= i < k - 1 ==> m[i] == MaskBearer(s)[i + 1];
      MaskKeepsBeforeB(s[1..], k - 1);
      assert forall i :: 1 <= i <= k ==> s[i] == s[1..][i - 1] && MaskBearer(s)[i] == m[i - 1];
    }
  }

  /** Masking what follows a character makes no word before a token that was not there. */
  lemma OldBearer(s: string)
    requires s != "" && AtBearer([s[0]] + MaskBearer(s[1..]))
    ensures AtBearer(s)
  {
    var rest := MaskBearer(s[1..]);
    var m := [s[0]] + rest;
    var k := TokenStart(m);
    forall i | 0 <= i < k - 1
      ensures !IsB(rest[i])
    {
      assert rest[i] == m[i + 1];
    }
    MaskKeepsBeforeB(s[1..], k - 1);
    assert forall i :: 1 <= i <= k ==> s[i] == s[1..][i - 1] && m[i] == rest[i - 1];
    SamePrefixSameBearer(m, s, k);
  }

  /** Whether a string begins so depends on it up to the token's first character. */
  lemma SamePrefixSameBearer(s: string, t: string, k: nat)
    requires AtBearer(s) && TokenStart(s) == k && k < |t| && forall i :: 0 <= i <= k ==> s[i] == t[i]
    ensures AtBearer(t) && TokenStart(t) == k
  {
    BearerShape(t, k);
  }

  predicate TokenMasked(s: string)
    requires AtBearer(s)
  {
    var k := TokenStart(s);
    TokenEnd(s) == k + 3 && s[k] == '*' && s[k + 1] == '*' && s[k + 2] == '*'
  }

  predicate TokenOk(s: string) {
    AtBearer(s) ==> TokenMasked(s)
  }

  /** Every token after the word is masked, wherever the word stands. */
  predicate Masked(s: string) {
    s == "" || (TokenOk(s) && Masked(s[1..]))
  }

  lemma MaskedShape(s: string, k: nat)
    requires SaysBearer(s) && 7 <= k && k + 3 <= |s| && (forall i :: 6 <= i < k ==> IsSpace(s[i]))
    requires s[k] == '*' && s[k + 1] == '*' && s[k + 2] == '*' && (k + 3 < |s| ==> IsSpace(s[k + 3]))
    ensures AtBearer(s) && TokenMasked(s)
  {
    BearerShape(s, k);
    TokenEndsAt(s, k + 3);
  }

  lemma MaskBetween(head: string, rest: string)
    ensures var m, k := head + (MASK + rest), |head|;
            && |m| == k + 3 + |rest| && m[k] == '*' && m[k + 1] == '*' && m[k + 2] == '*'
            && m[k + 3..] == rest && (rest != "" ==> m[k + 3] == rest[0])
            && forall i :: 0 <= i < k ==> m[i] == head[i]
  {
  }

  lemma HeadMasked(s: string)
    requires AtBearer(s)
    ensures var m, k := MaskBearer(s), TokenStart(s);
            && AtBearer(m) && TokenMasked(m) && TokenStart(m) == k
            && (forall i :: 1 <= i < k + 3 ==> !IsB(m[i]))
            && m[k + 3..] == MaskBearer(s[TokenEnd(s)..])
  {
    var m, k := MaskBearer(s), TokenStart(s);
    MaskKeepsFirst(s[TokenEnd(s)..]);
    MaskBetween(s[..k], MaskBearer(s[TokenEnd(s)..]));
    assert forall i :: 0 <= i < k ==> m[i] == s[i];
    MaskedShape(m, k);
  }

  lemma {:induction false} MaskedBehind(s: string, j: nat)
    requires j <= |s| && Masked(s[j..]) && forall i :: 0 <= i < j ==> TokenOk(s[i..])
    ensures Masked(s)
    decreases j
  {
    if j == 0 {
      assert s[0..] == s;
    } else {
      assert s[0..] == s;
      assert s[1..][j - 1..] == s[j..];
      assert forall i :: 0 <= i < j - 1 ==> s[1..][i..] == s[i + 1..];
      MaskedBehind(s[1..], j - 1);
    }
  }

  lemma NotAtB(s: string, i: nat)
    requires i < |s| && !IsB(s[i])
    ensures TokenOk(s[i..])
  {
    assert s[i..][0] == s[i];
  }

  lemma {:induction false} MaskingMasks(s: string)
    ensures Masked(MaskBearer(s))
    decreases |s|
  {
    if s != "" {
      var m := MaskBearer(s);
      if AtBearer(s) {
        HeadMasked(s);
        MaskingMasks(s[TokenEnd(s)..]);
        assert m[0..] == m;
        forall i | 0 < i < TokenStart(s) + 3
          ensures TokenOk(m[i..])
        {
          NotAtB(m, i);
        }
        MaskedBehind(m, TokenStart(s) + 3);
      } else {
        MaskingMasks(s[1..]);
        assert m[1..] == MaskBearer(s[1..]);
        if AtBearer(m) {
          OldBearer(s);
        }
      }
    }
  }

  lemma {:induction false} MaskedSuffix(s: string, j: nat)
    requires Masked(s) && j <= |s|
    ensures Masked(s[j..])
    ensures TokenOk(s[j..])
  {
    if j == 0 {
      assert s[0..] == s;
    } else {
      MaskedSuffix(s[1..], j - 1);
      assert s[1..][j - 1..] == s[j..];
    }
  }

  lemma MaskedSplits(s: string)
    requires AtBearer(s) && TokenMasked(s)
    ensures s == s[..TokenStart(s)] + (MASK + s[TokenEnd(s)..])
  {
    var k, e := TokenStart(s), TokenEnd(s);
    assert s[k..e] == MASK;
    assert s == s[..k] + (s[k..e] + s[e..]);
  }

  lemma {:induction false} MaskedIsFixed(s: string)
    requires Masked(s)
    ensures MaskBearer(s) == s
    decreases |s|
  {
    if s != "" {
      if AtBearer(s) {
        MaskedSuffix(s, TokenEnd(s));
        MaskedIsFixed(s[TokenEnd(s)..]);
        MaskedSplits(s);
      } else {
        MaskedIsFixed(s[1..]);
      }
    }
  }

  // ---- passwords in URLs ----

  predicate InUser(c: char) { c != ':' && c != '/' && c != '@' }

  predicate InPassword(c: char) { c != '@' && c != '/' }

  function UserRun(s: string): (n: nat)
    ensures n <= |s| && (forall i :: 0 <= i < n ==> InUser(s[i])) && (n < |s| ==> !InUser(s[n]))
  {
    if s != "" && InUser(s[0]) then 1 + UserRun(s[1..]) else 0
  }

  function PasswordRun(s: string): (n: nat)
    ensures n <= |s| && (forall i :: 0 <= i < n ==> InPassword(s[i])) && (n < |s| ==> !InPassword(s[n]))
  {
    if s != "" && InPassword(s[0]) then 1 + PasswordRun(s[1..]) else 0
  }

  predicate SlashSlash(s: string) {
    |s| >= 3 && s[0] == ':' && s[1] == '/' && s[2] == '/'
  }

  /** Where the colon before the password stands, if a user name comes before it. */
  predicate HasUser(s: string) {
    SlashSlash(s) && UserRun(s[3..]) > 0 && 3 + UserRun(s[3..]) < |s| && s[3 + UserRun(s[3..])] == ':'
  }

  function Colon(s: string): (n: nat)
    requires HasUser(s)
    ensures 4 <= n < |s| && s[n] == ':' && forall i :: 3 <= i < n ==> InUser(s[i])
  {
    var n := 3 + UserRun(s[3..]);
    assert forall i :: 3 <= i < n ==> s[i] == s[3..][i - 3];
    n
  }

  predicate AtUrl(s: string) {
    HasUser(s) &&
    var n := PasswordRun(s[Colon(s) + 1..]);
    n > 0 && Colon(s) + 1 + n < |s| && s[Colon(s) + 1 + n] == '@'
  }

  function At(s: string): (n: nat)
    requires AtUrl(s)
    ensures Colon(s) + 1 < n < |s| && s[n] == '@' && forall i :: Colon(s) < i < n ==> InPassword(s[i])
  {
    var c := Colon(s);
    var n := c + 1 + PasswordRun(s[c + 1..]);
    assert forall i :: c < i < n ==> s[i] == s[c + 1..][i - c - 1];
    n
  }

  function MaskUrl(s: string): string
    decreases |s|
  {
    if s == "" then ""
    else if AtUrl(s) then s[..Colon(s) + 1] + ("***@" + MaskUrl(s[At(s) + 1..]))
    else [s[0]] + MaskUrl(s[1..])
  }

  lemma UrlShape(s: string, c: nat, a: nat)
    requires SlashSlash(s) && 4 <= c && c + 1 < a < |s| && s[c] == ':' && s[a] == '@'
    requires (forall i :: 3 <= i < c ==> InUser(s[i])) && (forall i :: c < i < a ==> InPassword(s[i]))
    ensures AtUrl(s) && Colon(s) == c && At(s) == a
  {
    assert forall i :: 3 <= i <= c ==> s[3..][i - 3] == s[i];
    var n := UserRun(s[3..]);
    assert n >= c - 3 && n <= c - 3;
    assert forall i :: c < i <= a ==> s[c + 1..][i - c - 1] == s[i];
    var m := PasswordRun(s[c + 1..]);
    assert m >= a - c - 1 && m <= a - c - 1;
  }

  lemma MaskUrlKeepsFirst(s: string)
    ensures s == "" <==> MaskUrl(s) == ""
    ensures s != "" ==> MaskUrl(s)[0] == s[0]
  {
  }

  lemma UrlKeepsSecond(s: string)
    ensures AtUrl(s) ==> |MaskUrl(s)| > 1 && MaskUrl(s)[0] == ':' && MaskUrl(s)[1] == '/'
  {
  }

  /** Up to the first colon with a slash behind it, masking has changed nothing. */
  lemma {:induction false} MaskUrlKeepsBefore(s: string, k: nat)
    requires k < |MaskUrl(s)|
    requires forall i :: 0 <= i < k && MaskUrl(s)[i] == ':' ==> MaskUrl(s)[i + 1] != '/'
    ensures k < |s| && forall i :: 0 <= i <= k ==> s[i] == MaskUrl(s)[i]
  {
    MaskUrlKeepsFirst(s);
    if k > 0 {
      UrlKeepsSecond(s);
      var m := MaskUrl(s[1..]);
      assert MaskUrl(s) == [s[0]] + m;
      assert forall i :: 0 <= i < k ==> m[i] == MaskUrl(s)[i + 1];
      MaskUrlKeepsBefore(s[1..], k - 1);
      assert forall i :: 1 <= i <= k ==> s[i] == s[1..][i - 1] && MaskUrl(s)[i] == m[i - 1];
    }
  }

  /** And what stands before any colon is simply copied. */
  lemma PlainFirst(s: string)
    requires s != "" && s[0] != ':'
    ensures MaskUrl(s) == [s[0]] + MaskUrl(s[1..])
  {
  }

  lemma ConsAppend(s: string, k: nat, rest: string)
    requires 0 < k <= |s|
    ensures s[..k] + rest == [s[0]] + (s[1..][..k - 1] + rest)
  {
  }

  lemma {:induction false} MaskUrlCopies(s: string, k: nat)
    requires k <= |s| && forall i :: 0 <= i < k ==> s[i] != ':'
    ensures MaskUrl(s) == s[..k] + MaskUrl(s[k..])
  {
    if k > 0 {
      PlainFirst(s);
      MaskUrlCopies(s[1..], k - 1);
      assert s[1..][k - 1..] == s[k..];
      ConsAppend(s, k, MaskUrl(s[k..]));
    } else {
      assert s[0..] == s;
    }
  }

  /** No slash follows a colon that is not at the front, up to where the password ends. */
  lemma NoLaterSlash(m: string, i: nat)
    requires AtUrl(m) && 1 <= i < At(m) && m[i] == ':'
    ensures m[i + 1] != '/'
  {
  }

  /** Masking behind the first character has changed nothing before the password ends. */
  lemma OldUrlPrefix(s: string, m: string, a: nat)
    requires s != "" && m == [s[0]] + MaskUrl(s[1..]) && AtUrl(m) && At(m) == a
    ensures a < |s| && forall i :: 0 <= i <= a ==> s[i] == m[i]
  {
    var rest := MaskUrl(s[1..]);
    forall i | 0 <= i < a - 1 && rest[i] == ':'
      ensures rest[i + 1] != '/'
    {
      NoLaterSlash(m, i + 1);
    }
    MaskUrlKeepsBefore(s[1..], a - 1);
    forall i | 1 <= i <= a
      ensures s[i] == m[i]
    {
      assert s[1..][i - 1] == rest[i - 1];
    }
  }

  lemma OldUrl(s: string)
    requires s != "" && AtUrl([s[0]] + MaskUrl(s[1..]))
    ensures AtUrl(s)
  {
    var m := [s[0]] + MaskUrl(s[1..]);
    OldUrlPrefix(s, m, At(m));
    UrlShape(s, Colon(m), At(m));
  }

  lemma UrlHead(s: string)
    requires AtUrl(s)
    ensures var m, c := MaskUrl(s), Colon(s);
            && AtUrl(m) && Colon(m) == c && At(m) == c + 4
            && (forall i :: 0 <= i <= c ==> m[i] == s[i])
            && m[c + 1] == '*' && m[c + 2] == '*' && m[c + 3] == '*'
            && m[c + 5..] == MaskUrl(s[At(s) + 1..])
  {
    var m, c, rest := MaskUrl(s), Colon(s), MaskUrl(s[At(s) + 1..]);
    assert m == s[..c + 1] + ("***@" + rest);
    assert forall i :: 0 <= i <= c ==> m[i] == s[i];
    assert m[c + 1] == '*' && m[c + 2] == '*' && m[c + 3] == '*' && m[c + 4] == '@';
    assert m[c + 5..] == rest;
    UrlShape(m, c, c + 4);
  }

  lemma {:induction false} MaskUrlIdempotent(s: string)
    ensures MaskUrl(MaskUrl(s)) == MaskUrl(s)
    decreases |s|
  {
    if s != "" {
      var m := MaskUrl(s);
      if AtUrl(s) {
        var c := Colon(s);
        UrlHead(s);
        MaskUrlIdempotent(s[At(s) + 1..]);
        assert m == m[..c + 1] + ("***@" + m[c + 5..]);
      } else {
        MaskUrlIdempotent(s[1..]);
        assert m == [s[0]] + MaskUrl(s[1..]);
        assert m[1..] == MaskUrl(s[1..]);
        if AtUrl(m) {
          OldUrl(s);
        }
      }
    }
  }

  // ---- the two together ----

  function RedactString(s: string): string {
    MaskUrl(MaskBearer(s))
  }

  /** A string that agrees with one whose first token is masked, up to the end of that token. */
  lemma TokenMaskedTransfers(s: string, m: string, k: nat)
    requires AtBearer(m) && TokenStart(m) == k && k < |s| && forall i :: 0 <= i <= k ==> s[i] == m[i]
    requires TokenOk(s)
    ensures AtBearer(s) && TokenStart(s) == k && k + 3 <= |s|
    ensures (forall i :: k <= i < k + 3 ==> s[i] == '*') && (k + 3 < |s| ==> IsSpace(s[k + 3]))
    ensures k + 3 <= |m| && (forall i :: k <= i < k + 3 ==> m[i] == '*') && (k + 3 < |m| ==> IsSpace(m[k + 3])) ==> TokenMasked(m)
  {
    SamePrefixSameBearer(m, s, k);
    if k + 3 <= |m| && (forall i :: k <= i < k + 3 ==> m[i] == '*') && (k + 3 < |m| ==> IsSpace(m[k + 3])) {
      MaskedShape(m, k);
    }
  }

  lemma CopiedToken(s: string, k: nat)
    requires k + 3 <= |s| && (forall i :: 0 <= i < k + 3 ==> s[i] != ':')
    requires (forall i :: k <= i < k + 3 ==> s[i] == '*') && (k + 3 < |s| ==> IsSpace(s[k + 3]))
    ensures var m := MaskUrl(s);
            k + 3 <= |m| && (forall i :: k <= i < k + 3 ==> m[i] == '*') && (k + 3 < |m| ==> IsSpace(m[k + 3]))
  {
    var rest := s[k + 3..];
    MaskUrlCopies(s, k + 3);
    MaskUrlKeepsFirst(rest);
  }

  lemma NoColonBeforeToken(s: string)
    requires AtBearer(s)
    ensures forall i :: 0 <= i < TokenStart(s) ==> s[i] != ':'
  {
  }

  lemma UrlKeepsMaskedHead(s: string)
    requires TokenOk(s)
    ensures TokenOk(MaskUrl(s))
  {
    var m := MaskUrl(s);
    if AtBearer(m) {
      var k := TokenStart(m);
      NoColonBeforeToken(m);
      MaskUrlKeepsBefore(s, k);
      TokenMaskedTransfers(s, m, k);
      CopiedToken(s, k);
    }
  }

  /** A word inside the user name of a URL: what differs comes after the colon. */
  lemma UrlKeepsMaskedUser(u: string, v: string, c: nat)
    requires c < |u| && c < |v| && v[c] == ':' && forall j :: 0 <= j <= c ==> u[j] == v[j]
    requires TokenOk(v)
    ensures TokenOk(u)
  {
    if AtBearer(u) {
      var k := TokenStart(u);
      assert k <= c;
      TokenMaskedTransfers(v, u, k);
      assert k + 3 < c;
    }
  }

  /** Inside a URL that is being masked, before its tail. */
  lemma UrlKeepsMaskedInside(s: string, i: nat)
    requires AtUrl(s) && 0 < i < Colon(s) + 5
    requires i < Colon(s) ==> TokenOk(s[i..])
    ensures i < |MaskUrl(s)| && TokenOk(MaskUrl(s)[i..])
  {
    var m, c := MaskUrl(s), Colon(s);
    UrlHead(s);
    if i < c {
      SameBehind(m, s, i, c);
      UrlKeepsMaskedUser(m[i..], s[i..], c - i);
    } else {
      NotAtB(m, i);
    }
  }

  lemma SameBehind(m: string, s: string, i: nat, c: nat)
    requires i <= c < |m| && c < |s| && forall j :: 0 <= j <= c ==> m[j] == s[j]
    ensures s[i..][c - i] == s[c] && forall j :: 0 <= j <= c - i ==> m[i..][j] == s[i..][j]
  {
  }

  lemma UrlPartMasked(s: string)
    requires Masked(s) && AtUrl(s) && Masked(MaskUrl(s[At(s) + 1..]))
    ensures Masked(MaskUrl(s))
  {
    var m, c := MaskUrl(s), Colon(s);
    UrlHead(s);
    UrlKeepsMaskedHead(s);
    assert m[0..] == m;
    forall i | 0 < i < c + 5
      ensures TokenOk(m[i..])
    {
      if i < c {
        MaskedSuffix(s, i);
      }
      UrlKeepsMaskedInside(s, i);
    }
    MaskedBehind(m, c + 5);
  }

  lemma {:induction false} UrlKeepsMasked(s: string)
    requires Masked(s)
    ensures Masked(MaskUrl(s))
    decreases |s|
  {
    if s != "" {
      if AtUrl(s) {
        MaskedSuffix(s, At(s) + 1);
        UrlKeepsMasked(s[At(s) + 1..]);
        UrlPartMasked(s);
      } else {
        UrlKeepsMaskedHead(s);
        UrlKeepsMasked(s[1..]);
        assert MaskUrl(s)[1..] == MaskUrl(s[1..]);
      }
    }
  }

  /** Redacting a redacted text changes nothing, and every token after the word is masked. */
  lemma RedactStringIdempotent(s: string)
    ensures RedactString(RedactString(s)) == RedactString(s)
    ensures Masked(RedactString(s))
  {
    MaskingMasks(s);
    UrlKeepsMasked(MaskBearer(s));
    MaskedIsFixed(RedactString(s));
    MaskUrlIdempotent(MaskBearer(s));
  }
}
