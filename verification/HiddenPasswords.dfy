/**
 * Exactly when redaction hides a password in a URL, although the first
 * substitution may take parts of it, or the whole, for a bearer token.
 */
module HiddenPasswords {
  import opened Characters
  import opened Redaction
  import opened HiddenTokens

  // ---- where a password is expected ----

  /** A user name, a colon, and a password up to the end. */
  predicate PasswordToEnd(s: string) {
    HasUser(s) && Colon(s) + 1 + PasswordRun(s[Colon(s) + 1..]) == |s|
  }

  /** A text that ends where a password is expected or being read. */
  predicate AwaitsPassword(s: string)
    decreases |s|
  {
    if s == "" then false
    else if PasswordToEnd(s) then true
    else if AtUrl(s) then AwaitsPassword(s[At(s) + 1..])
    else AwaitsPassword(s[1..])
  }

  /** What the second pattern takes for a password. */
  predicate IsBody(p: string) {
    p != "" && forall i :: 0 <= i < |p| ==> InPassword(p[i])
  }

  predicate NoSpace(p: string) {
    forall i :: 0 <= i < |p| ==> !IsSpace(p[i])
  }

  /** A password as it may stand in a URL unescaped. */
  predicate IsPassword(p: string) {
    IsBody(p) && NoSpace(p)
  }

  /** Where the user name ends depends on the text up to there. */
  lemma SamePrefixSameUser(s: string, t: string, c: nat)
    requires HasUser(s) && Colon(s) == c && c < |t| && forall i :: 0 <= i <= c ==> s[i] == t[i]
    ensures HasUser(t) && Colon(t) == c
  {
    assert forall i :: 3 <= i <= c ==> t[3..][i - 3] == t[i];
    var n := UserRun(t[3..]);
    assert n >= c - 3 && n <= c - 3;
  }

  lemma PasswordEndsAt(s: string, a: nat)
    requires HasUser(s) && Colon(s) + 1 < a < |s| && s[a] == '@'
    requires forall i :: Colon(s) < i < a ==> InPassword(s[i])
    ensures AtUrl(s) && At(s) == a
  {
    var c := Colon(s);
    assert forall i :: c < i <= a ==> s[c + 1..][i - c - 1] == s[i];
    var n := PasswordRun(s[c + 1..]);
    assert n >= a - c - 1 && n <= a - c - 1;
  }

  lemma UrlInFront(pre: string, s: string)
    requires AtUrl(pre)
    ensures AtUrl(pre + s) && Colon(pre + s) == Colon(pre) && At(pre + s) == At(pre)
  {
    assert forall i :: 0 <= i < |pre| ==> (pre + s)[i] == pre[i];
    SamePrefixSameUser(pre, pre + s, Colon(pre));
    PasswordEndsAt(pre + s, At(pre));
  }

  lemma MaskUrlFrom(m: string, head: string, rest: string)
    requires AtUrl(m) && m[..Colon(m) + 1] == head && m[At(m) + 1..] == rest
    ensures MaskUrl(m) == head + ("***@" + MaskUrl(rest))
  {
  }

  lemma MaskBearerFrom(m: string, head: string, rest: string)
    requires AtBearer(m) && m[..TokenStart(m)] == head && m[TokenEnd(m)..] == rest
    ensures MaskBearer(m) == head + (MASK + MaskBearer(rest))
  {
  }

  lemma UrlStepAt(pre: string, s: string, c: nat, a: nat)
    requires c < a < |pre| && AtUrl(pre + s) && Colon(pre + s) == c && At(pre + s) == a
    ensures MaskUrl(pre + s) == pre[..c + 1] + ("***@" + MaskUrl(pre[a + 1..] + s))
  {
    DropAppend(pre, s, c + 1);
    DropAppend(pre, s, a + 1);
    MaskUrlFrom(pre + s, pre[..c + 1], pre[a + 1..] + s);
  }

  lemma UrlStepMatch(pre: string, s: string, c: nat, a: nat)
    requires AtUrl(pre) && c == Colon(pre) && a == At(pre)
    ensures MaskUrl(pre + s) == pre[..c + 1] + ("***@" + MaskUrl(pre[a + 1..] + s))
  {
    UrlInFront(pre, s);
    UrlStepAt(pre, s, c, a);
  }

  /** A whole URL in front, and what is behind it with either of two texts appended. */
  lemma UrlStep(pre: string, s: string, t: string) returns (head: string, more: string)
    requires AtUrl(pre)
    ensures |more| < |pre| && (AwaitsPassword(pre) <==> AwaitsPassword(more))
    ensures MaskUrl(pre) == head + ("***@" + MaskUrl(more))
    ensures MaskUrl(pre + s) == head + ("***@" + MaskUrl(more + s))
    ensures MaskUrl(pre + t) == head + ("***@" + MaskUrl(more + t))
  {
    var c, a := Colon(pre), At(pre);
    head, more := pre[..c + 1], pre[a + 1..];
    UrlStepMatch(pre, s, c, a);
    UrlStepMatch(pre, t, c, a);
    MaskUrlFrom(pre, head, more);
  }

  lemma UrlStepPlain(pre: string, s: string)
    requires pre != "" && !AtUrl(pre + s)
    ensures MaskUrl(pre + s) == [pre[0]] + MaskUrl(pre[1..] + s)
  {
    DropAppend(pre, s, 1);
  }

  /** The end of a password, then an at sign and more. */
  function AtTail(p: string, rest: string): string { p + ("@" + rest) }

  /**
   * A URL that reaches over the end of a text has its password begun or expected
   * there, unless it is still at the user name.
   */
  lemma UrlAcross(pre: string, p: string, rest: string)
    requires pre != "" && IsBody(p) && AtUrl(pre + AtTail(p, rest))
    ensures || AtUrl(pre) || PasswordToEnd(pre)
            || ((forall i :: 1 <= i < |pre| ==> pre[i] != ':') && (exists i :: 0 <= i < |p| && p[i] == ':'))
  {
    var m := pre + AtTail(p, rest);
    var c, a := Colon(m), At(m);
    assert forall i :: 0 <= i < |pre| ==> m[i] == pre[i];
    assert forall i :: 0 <= i < |p| ==> m[|pre| + i] == p[i];
    assert m[|pre| + |p|] == '@';
    if c >= |pre| {
      assert c < |pre| + |p|;
      assert p[c - |pre|] == ':';
    } else {
      SamePrefixSameUser(m, pre, c);
      if a < |pre| {
        PasswordEndsAt(pre, a);
      } else {
        PasswordReaches(pre);
      }
    }
  }

  lemma {:induction false} AwaitsHasColon(s: string)
    requires AwaitsPassword(s)
    ensures exists i :: 0 <= i < |s| && s[i] == ':'
    decreases |s|
  {
    if PasswordToEnd(s) || AtUrl(s) {
      assert s[0] == ':';
    } else {
      AwaitsHasColon(s[1..]);
      var i :| 0 <= i < |s[1..]| && s[1..][i] == ':';
      assert s[i + 1] == ':';
    }
  }

  lemma PasswordReaches(s: string)
    requires HasUser(s) && forall i :: Colon(s) < i < |s| ==> InPassword(s[i])
    ensures PasswordToEnd(s)
  {
    var c := Colon(s);
    assert forall i :: c < i < |s| ==> s[c + 1..][i - c - 1] == s[i];
  }

  /** Unless a password is expected there, what follows a text is masked separately. */
  lemma {:induction false} UrlSeparates(pre: string, p: string, rest: string)
    requires IsBody(p) && (forall i :: 0 <= i < |p| ==> p[i] != ':') && !AwaitsPassword(pre)
    ensures MaskUrl(pre + AtTail(p, rest)) == MaskUrl(pre) + MaskUrl(AtTail(p, rest))
    decreases |pre|
  {
    var s := AtTail(p, rest);
    if pre == "" {
      assert pre + s == s;
    } else if AtUrl(pre) {
      var head, more := UrlStep(pre, s, s);
      UrlSeparates(more, p, rest);
      Regroup(head, "***@", MaskUrl(more), MaskUrl(s));
    } else {
      if AtUrl(pre + s) {
        UrlAcross(pre, p, rest);
      }
      UrlStepPlain(pre, s);
      UrlSeparates(pre[1..], p, rest);
      Regroup([pre[0]], "", MaskUrl(pre[1..]), MaskUrl(s));
    }
  }

  lemma PasswordGoesOn(pre: string, p: string, rest: string)
    requires PasswordToEnd(pre) && IsBody(p)
    ensures var m := pre + AtTail(p, rest);
            AtUrl(m) && Colon(m) == Colon(pre) && At(m) == |pre| + |p|
  {
    var m, c := pre + AtTail(p, rest), Colon(pre);
    assert forall i :: 0 <= i < |pre| ==> m[i] == pre[i];
    forall i | |pre| <= i < |pre| + |p|
      ensures InPassword(m[i])
    {
      assert m[i] == p[i - |pre|];
    }
    assert m[|pre| + |p|] == '@';
    assert forall i :: c < i < |pre| ==> pre[i] == pre[c + 1..][i - c - 1];
    SamePrefixSameUser(pre, m, c);
    PasswordEndsAt(m, |pre| + |p|);
  }

  lemma DropTail(pre: string, p: string, rest: string, k: nat)
    requires k <= |pre|
    ensures var m := pre + AtTail(p, rest);
            |m| == |pre| + |p| + 1 + |rest| && m[..k] == pre[..k] && m[|pre| + |p| + 1..] == rest
  {
  }

  lemma MaskedHere(pre: string, p: string, rest: string)
    requires PasswordToEnd(pre) && IsBody(p)
    ensures MaskUrl(pre + AtTail(p, rest)) == pre[..Colon(pre) + 1] + ("***@" + MaskUrl(rest))
  {
    var m, c := pre + AtTail(p, rest), Colon(pre);
    PasswordGoesOn(pre, p, rest);
    DropTail(pre, p, rest, c + 1);
    MaskUrlFrom(m, pre[..c + 1], rest);
  }

  /** Where one is expected, the password is masked, whatever it is. */
  lemma {:induction false} UrlHides(pre: string, p: string, q: string, rest: string)
    requires IsBody(p) && IsBody(q) && AwaitsPassword(pre)
    ensures MaskUrl(pre + AtTail(p, rest)) == MaskUrl(pre + AtTail(q, rest))
    decreases |pre|
  {
    if PasswordToEnd(pre) {
      MaskedHere(pre, p, rest);
      MaskedHere(pre, q, rest);
    } else if AtUrl(pre) {
      var head, more := UrlStep(pre, AtTail(p, rest), AtTail(q, rest));
      UrlHides(more, p, q, rest);
    } else {
      UrlNotYet(pre, AtTail(p, rest));
      UrlNotYet(pre, AtTail(q, rest));
      UrlStepPlain(pre, AtTail(p, rest));
      UrlStepPlain(pre, AtTail(q, rest));
      UrlHides(pre[1..], p, q, rest);
    }
  }

  /** Before the URL whose password is awaited, no other one reaches over the end, whatever follows. */
  lemma UrlNotYet(pre: string, s: string)
    requires pre != "" && !AtUrl(pre) && !PasswordToEnd(pre) && AwaitsPassword(pre[1..])
    ensures !AtUrl(pre + s)
  {
    var m := pre + s;
    AwaitsHasColon(pre[1..]);
    var i :| 0 <= i < |pre[1..]| && pre[1..][i] == ':';
    assert m[i + 1] == pre[i + 1] == ':';
    if AtUrl(m) {
      UrlReachesOver(pre, s);
    }
  }

  /** A URL that reaches over has its user name up to the end of the text in front, or its password. */
  lemma UrlReachesOver(pre: string, s: string)
    requires pre != "" && AtUrl(pre + s) && !AtUrl(pre)
    ensures |pre| <= At(pre + s) && (|pre| <= Colon(pre + s) || PasswordToEnd(pre))
    ensures forall i :: 0 <= i < |pre| ==> pre[i] != '@'
  {
    var m := pre + s;
    var c, a := Colon(m), At(m);
    assert forall i :: 0 <= i < |pre| ==> m[i] == pre[i];
    if c < |pre| {
      SamePrefixSameUser(m, pre, c);
      if a < |pre| {
        PasswordEndsAt(pre, a);
      } else {
        PasswordReaches(pre);
      }
    }
  }

  // The first substitution comes before all that, and may or may not take the password for a token.

  lemma AtTailFirst(p: string, rest: string)
    requires p != ""
    ensures AtTail(p, rest) == [p[0]] + AtTail(p[1..], rest) && AtTail(p, rest)[|p|] == '@'
    ensures forall i :: 0 <= i < |p| ==> AtTail(p, rest)[i] == p[i]
  {
  }

  lemma PasswordStartsApart(p: string, rest: string)
    requires IsPassword(p)
    ensures StartsApart(AtTail(p, rest))
  {
    AtTailFirst(p, rest);
  }

  lemma SpaceAfterWord(s: string)
    requires AtBearer(s)
    ensures IsSpace(s[6]) && forall i :: 0 <= i < 6 ==> s[i] != '@'
  {
    assert TokenStart(s) > 6;
  }

  /** A word must be followed by whitespace, so there is none in a password. */
  lemma NoWordInPassword(p: string, rest: string)
    requires IsPassword(p)
    ensures !AtBearer(AtTail(p, rest))
  {
    var s := AtTail(p, rest);
    AtTailFirst(p, rest);
    if AtBearer(s) {
      SpaceAfterWord(s);
    }
  }

  lemma {:induction false} BearerPassesPassword(p: string, rest: string)
    requires p == "" || IsPassword(p)
    ensures MaskBearer(AtTail(p, rest)) == AtTail(p, MaskBearer(rest))
  {
    var s := AtTail(p, rest);
    if p == "" {
      assert s[0] == '@' && s[1..] == rest && s == ['@'] + rest;
      assert MaskBearer(s) == ['@'] + MaskBearer(rest);
    } else {
      NoWordInPassword(p, rest);
      AtTailFirst(p, rest);
      AtTailFirst(p, MaskBearer(rest));
      assert s[1..] == AtTail(p[1..], rest);
      assert MaskBearer(s) == [s[0]] + MaskBearer(s[1..]);
      BearerPassesPassword(p[1..], rest);
    }
  }

  lemma AtTailAt(pre: string, p: string, rest: string)
    ensures var m, n := pre + AtTail(p, rest), |pre| + |p|;
            && |m| == n + 1 + |rest| && m[n] == '@'
            && (forall i :: 0 <= i < |pre| ==> m[i] == pre[i])
            && (forall i :: |pre| <= i < n ==> m[i] == p[i - |pre|])
            && (forall i :: n < i < |m| ==> m[i] == rest[i - n - 1])
  {
  }

  lemma SwallowedShape(m: string, pre: string, p: string, rest: string, k: nat, e: nat)
    requires m == pre + AtTail(p, rest) && e == |pre| + |p| + 1 + Token(rest)
    requires SaysBearer(pre) && 7 <= k <= |pre| && NoSpace(p)
    requires (forall i :: 6 <= i < k ==> IsSpace(pre[i])) && (forall i :: k <= i < |pre| ==> !IsSpace(pre[i]))
    ensures AtBearer(m) && TokenStart(m) == k && TokenEnd(m) == e
  {
    AtTailAt(pre, p, rest);
    BearerShape(m, k);
    TokenEndsAt(m, e);
  }

  lemma DropTwice(s: string, i: nat, j: nat)
    requires i + j <= |s|
    ensures s[i..][j..] == s[i + j..]
  {
  }

  lemma SwallowedAt(pre: string, p: string, rest: string, k: nat)
    requires SaysBearer(pre) && 7 <= k <= |pre| && NoSpace(p)
    requires (forall i :: 6 <= i < k ==> IsSpace(pre[i])) && (forall i :: k <= i < |pre| ==> !IsSpace(pre[i]))
    ensures MaskBearer(pre + AtTail(p, rest)) == pre[..k] + (MASK + MaskBearer(rest[Token(rest)..]))
  {
    var m, e := pre + AtTail(p, rest), |pre| + |p| + 1 + Token(rest);
    SwallowedShape(m, pre, p, rest, k, e);
    DropTail(pre, p, rest, k);
    DropTwice(m, |pre| + |p| + 1, Token(rest));
    MaskBearerFrom(m, pre[..k], rest[Token(rest)..]);
  }

  lemma SwallowedHere(pre: string, p: string, q: string, rest: string)
    requires WordToEnd(pre) && NoSpace(p) && NoSpace(q)
    ensures MaskBearer(pre + AtTail(p, rest)) == MaskBearer(pre + AtTail(q, rest))
  {
    var k := if AtBearer(pre) then TokenStart(pre) else |pre|;
    assert !AtBearer(pre) ==> forall i :: 6 <= i < |pre| ==> pre[i] == pre[6..][i - 6];
    SwallowedAt(pre, p, rest, k);
    SwallowedAt(pre, q, rest, k);
  }

  lemma {:induction false} OpenIsLong(s: string)
    requires OpenAtEnd(s)
    ensures |s| >= 7
    decreases |s|
  {
    if !WordToEnd(s) && !AtBearer(s) {
      OpenIsLong(s[1..]);
    }
  }

  /** Before the token that is being read at the end, no other one reaches that far, whatever follows. */
  lemma OpenNotYet(pre: string, s: string)
    requires OpenAtEnd(pre) && !AtBearer(pre) && !WordToEnd(pre)
    ensures !AtBearer(pre + s)
  {
    var m := pre + s;
    OpenIsLong(pre);
    assert forall i :: 0 <= i < |pre| ==> m[i] == pre[i];
    if AtBearer(m) {
      var k := TokenStart(m);
      if k < |pre| {
        SamePrefixSameBearer(m, pre, k);
      } else {
        SpacesToEnd(pre, 6);
      }
    }
  }

  /** Where a token is being read, the password is part of it. */
  lemma {:induction false} TokenSwallows(pre: string, p: string, q: string, rest: string)
    requires OpenAtEnd(pre) && NoSpace(p) && NoSpace(q)
    ensures MaskBearer(pre + AtTail(p, rest)) == MaskBearer(pre + AtTail(q, rest))
    decreases |pre|
  {
    var s, t := AtTail(p, rest), AtTail(q, rest);
    if WordToEnd(pre) {
      SwallowedHere(pre, p, q, rest);
    } else if AtBearer(pre) {
      MaskStepToken(pre, s);
      MaskStepToken(pre, t);
      TokenSwallows(pre[TokenEnd(pre)..], p, q, rest);
    } else {
      OpenNotYet(pre, s);
      OpenNotYet(pre, t);
      MaskStepPlain(pre, s);
      MaskStepPlain(pre, t);
      TokenSwallows(pre[1..], p, q, rest);
    }
  }

  /** A text in front under which a password, up to its at sign, never shows. */
  ghost predicate HidesPassword(front: string) {
    forall p, q, rest :: IsPassword(p) && IsPassword(q) ==>
      RedactString(front + AtTail(p, rest)) == RedactString(front + AtTail(q, rest))
  }

  lemma RedactFreshPassword(front: string, p: string, rest: string)
    requires IsPassword(p) && !OpenAtEnd(front)
    ensures RedactString(front + AtTail(p, rest)) == MaskUrl(MaskBearer(front) + AtTail(p, MaskBearer(rest)))
  {
    PasswordStartsApart(p, rest);
    MaskSeparates(front, AtTail(p, rest));
    BearerPassesPassword(p, rest);
  }

  lemma LetterShows(front: string, c: char)
    requires !OpenAtEnd(front) && !AwaitsPassword(MaskBearer(front)) && IsPassword([c]) && c != ':'
    ensures RedactString(front + AtTail([c], "")) == MaskUrl(MaskBearer(front)) + [c, '@']
  {
    RedactFreshPassword(front, [c], "");
    UrlSeparates(MaskBearer(front), [c], "");
    var s := AtTail([c], "");
    assert s == [c, '@'];
    MaskUrlCopies(s, 2);
    assert s[..2] + "" == s && s[2..] == "";
  }

  lemma PasswordShows(front: string)
    requires !OpenAtEnd(front) && !AwaitsPassword(MaskBearer(front))
    ensures !HidesPassword(front)
  {
    var shown := MaskUrl(MaskBearer(front));
    assert IsPassword(['x']) && IsPassword(['y']);
    LetterShows(front, 'x');
    LetterShows(front, 'y');
    assert (shown + ['x', '@'])[|shown|] != (shown + ['y', '@'])[|shown|];
  }

  /**
   * Which texts in front hide ordinary passwords, that is those without
   * whitespace, slash and at sign: exactly those that either end inside a bearer token, which then takes them in,
   * or end, tokens masked, where a URL's password is expected or being read.
   */
  lemma FrontHidesIff(front: string)
    ensures HidesPassword(front) <==> OpenAtEnd(front) || AwaitsPassword(MaskBearer(front))
  {
    if OpenAtEnd(front) {
      forall p, q, rest | IsPassword(p) && IsPassword(q)
        ensures RedactString(front + AtTail(p, rest)) == RedactString(front + AtTail(q, rest))
      {
        TokenSwallows(front, p, q, rest);
      }
    } else if AwaitsPassword(MaskBearer(front)) {
      forall p, q, rest | IsPassword(p) && IsPassword(q)
        ensures RedactString(front + AtTail(p, rest)) == RedactString(front + AtTail(q, rest))
      {
        RedactFreshPassword(front, p, rest);
        RedactFreshPassword(front, q, rest);
        UrlHides(MaskBearer(front), p, q, MaskBearer(rest));
      }
    } else {
      PasswordShows(front);
    }
  }

  // ---- which passwords are hidden ----

  /** In this place the password comes out as any ordinary one does. */
  ghost predicate Hidden(front: string, p: string) {
    forall rest :: RedactString(front + AtTail(p, rest)) == RedactString(front + AtTail("x", rest))
  }

  /** What a password adds to the text in front, tokens masked. */
  function Added(front: string, p: string): string {
    var f, m := MaskBearer(front), MaskBearer(front + p);
    if |f| <= |m| then m[|f|..] else ""
  }

  /**
   * A token that is being read takes in a password without whitespace. Where a
   * URL's password is expected it must not leave a token open, which would take
   * the at sign, and once its tokens are masked it must hold no slash and no at sign.
   */
  predicate TakenIn(front: string, p: string) {
    if OpenAtEnd(front) then NoSpace(p)
    else AwaitsPassword(MaskBearer(front)) && !OpenAtEnd(front + p) && IsBody(Added(front, p))
  }

  lemma {:induction false} NoBKept(s: string)
    requires forall i :: 0 <= i < |s| ==> !IsB(s[i])
    ensures MaskBearer(s) == s
  {
    if s != "" {
      NoBKept(s[1..]);
    }
  }

  lemma PrefixUnder(head: string, a: string, b: string)
    requires a <= b
    ensures head + a <= head + b
  {
    assert b == a + b[|a|..];
    assert head + b == (head + a) + b[|a|..];
  }

  lemma NoBBehindFirst(m: string)
    requires AtBearer(m)
    ensures forall i :: 1 <= i < TokenStart(m) ==> !IsB(m[i])
  {
  }

  lemma LoneBKept(s: string)
    requires s != "" && !AtBearer(s) && forall i :: 1 <= i < |s| ==> !IsB(s[i])
    ensures MaskBearer(s) == s
  {
    var t := s[1..];
    assert forall i :: 0 <= i < |t| ==> t[i] == s[i + 1];
    NoBKept(t);
    assert [s[0]] + t == s;
  }

  /** A word that begins in front and whose token comes later leaves the text in front as it is. */
  lemma WordUnderWay(front: string, p: string)
    requires front != "" && !AtBearer(front) && AtBearer(front + p)
    ensures MaskBearer(front) == front && |front| < |MaskBearer(front + p)| && front <= MaskBearer(front + p)
  {
    var m := front + p;
    var k := TokenStart(m);
    assert forall i :: 0 <= i < |front| ==> m[i] == front[i];
    if k < |front| {
      SamePrefixSameBearer(m, front, k);
    }
    NoBBehindFirst(m);
    LoneBKept(front);
    MaskBearerFrom(m, m[..k], m[TokenEnd(m)..]);
    HeadOfHead(front, p, k, MASK + MaskBearer(m[TokenEnd(m)..]));
  }

  lemma HeadOfHead(front: string, p: string, k: nat, rest: string)
    requires |front| <= k <= |front + p|
    ensures front <= (front + p)[..k] + rest
  {
    assert (front + p)[..k][..|front|] == front;
  }

  /** Unless a token is being read, what is masked of a text stays when more is appended. */
  lemma {:induction false} MaskGrows(front: string, p: string)
    requires p != "" && !OpenAtEnd(front)
    ensures |MaskBearer(front)| < |MaskBearer(front + p)| && MaskBearer(front) <= MaskBearer(front + p)
    decreases |front|
  {
    if front == "" {
      assert front + p == p;
      MaskKeepsFirst(p);
    } else if AtBearer(front) {
      var head, more := front[..TokenStart(front)], front[TokenEnd(front)..];
      MaskStepToken(front, p);
      MaskBearerFrom(front, head, more);
      MaskGrows(more, p);
      PrefixUnder(MASK, MaskBearer(more), MaskBearer(more + p));
      PrefixUnder(head, MASK + MaskBearer(more), MASK + MaskBearer(more + p));
    } else if AtBearer(front + p) {
      WordUnderWay(front, p);
    } else {
      MaskStepPlain(front, p);
      MaskGrows(front[1..], p);
      PrefixUnder([front[0]], MaskBearer(front[1..]), MaskBearer(front[1..] + p));
    }
  }

  lemma AddedBehind(front: string, p: string)
    requires p != "" && !OpenAtEnd(front)
    ensures Added(front, p) != "" && MaskBearer(front + p) == MaskBearer(front) + Added(front, p)
  {
    MaskGrows(front, p);
    SplitPrefix(MaskBearer(front), MaskBearer(front + p));
  }

  lemma SplitPrefix(f: string, m: string)
    requires f <= m && |f| < |m|
    ensures m[|f|..] != "" && m == f + m[|f|..]
  {
  }

  // A password that leaves no token open: the second substitution sees what it adds.

  lemma AtSignApart(rest: string)
    ensures StartsApart(AtTail("", rest)) && MaskBearer(AtTail("", rest)) == AtTail("", MaskBearer(rest))
  {
    var s := AtTail("", rest);
    assert s[0] == '@';
    BearerPassesPassword("", rest);
  }

  lemma JoinTail(front: string, p: string, rest: string)
    ensures front + AtTail(p, rest) == (front + p) + AtTail("", rest)
  {
    assert AtTail("", rest) == "@" + rest;
  }

  lemma RedactClosed(front: string, p: string, rest: string)
    requires p != "" && !OpenAtEnd(front) && !OpenAtEnd(front + p)
    ensures RedactString(front + AtTail(p, rest)) == MaskUrl(MaskBearer(front) + AtTail(Added(front, p), MaskBearer(rest)))
  {
    AtSignApart(rest);
    MaskSeparates(front + p, AtTail("", rest));
    AddedBehind(front, p);
    JoinTail(front, p, rest);
    JoinTail(MaskBearer(front), Added(front, p), MaskBearer(rest));
  }

  lemma TakenInHidden(front: string, p: string)
    requires p != "" && !OpenAtEnd(front) && TakenIn(front, p)
    ensures Hidden(front, p)
  {
    forall rest
      ensures RedactString(front + AtTail(p, rest)) == RedactString(front + AtTail("x", rest))
    {
      RedactClosed(front, p, rest);
      RedactFreshPassword(front, "x", rest);
      UrlHides(MaskBearer(front), Added(front, p), "x", MaskBearer(rest));
    }
  }

  /** A character before which no URL could have got to its colon stays in its place. */
  lemma {:induction false} StaysInPlace(m: string, n: nat)
    requires n < |m| && forall i :: 0 <= i <= n && AtUrl(m[i..]) ==> n <= i + 3
    ensures n < |MaskUrl(m)| && MaskUrl(m)[n] == m[n]
    decreases n
  {
    assert m[0..] == m;
    if AtUrl(m) {
      MaskUrlFrom(m, m[..Colon(m) + 1], m[At(m) + 1..]);
    } else if n == 0 {
      MaskUrlKeepsFirst(m);
    } else {
      assert forall i :: 0 <= i <= n - 1 ==> m[1..][i..] == m[i + 1..];
      StaysInPlace(m[1..], n - 1);
    }
  }

  /** In a URL up to its password's first slash or at sign, no other URL begins. */
  lemma NoUrlInside(m: string, c: nat, n: nat, i: nat)
    requires HasUser(m) && Colon(m) == c < n < |m| && forall j :: c < j < n ==> InPassword(m[j])
    requires 0 < i && i + 3 < n
    ensures !AtUrl(m[i..])
  {
    assert m[i..][0] == m[i] && m[i..][1] == m[i + 1];
  }

  lemma FirstBadEndsUrl(m: string, c: nat, n: nat)
    requires AtUrl(m) && Colon(m) == c < n < |m| && !InPassword(m[n]) && forall j :: c < j < n ==> InPassword(m[j])
    ensures m[n] == '@' && n > c + 1
  {
    assert At(m) == n;
  }

  lemma OverlongIsNoUrl(m: string, c: nat, n: nat)
    requires HasUser(m) && Colon(m) == c < n < |m| && forall j :: c < j < n ==> InPassword(m[j])
    requires m[n] == '/' || (m[n] == '@' && n == c + 1)
    ensures !AtUrl(m)
  {
    if AtUrl(m) {
      FirstBadEndsUrl(m, c, n);
    }
  }

  lemma BadStays(m: string, c: nat, n: nat)
    requires HasUser(m) && Colon(m) == c < n < |m| && forall j :: c < j < n ==> InPassword(m[j])
    requires m[n] == '/' || (m[n] == '@' && n == c + 1)
    ensures n < |MaskUrl(m)| && MaskUrl(m)[n] == m[n]
  {
    OverlongIsNoUrl(m, c, n);
    assert m[0..] == m;
    forall i | 0 <= i <= n && AtUrl(m[i..])
      ensures n <= i + 3
    {
      if 0 < i && i + 3 < n {
        NoUrlInside(m, c, n, i);
      }
    }
    StaysInPlace(m, n);
  }

  /** The first slash or at sign of a password, up to which it is as it should be. */
  ghost predicate BadAt(p: string, j: nat) {
    j < |p| && !InPassword(p[j]) && forall i :: 0 <= i < j ==> InPassword(p[i])
  }

  lemma {:induction false} FindBad(p: string) returns (j: nat)
    requires p != "" && !IsBody(p)
    ensures BadAt(p, j)
  {
    if !InPassword(p[0]) {
      j := 0;
    } else {
      assert exists i :: 0 <= i < |p| && !InPassword(p[i]);
      var i :| 0 <= i < |p| && !InPassword(p[i]);
      assert p[1..][i - 1] == p[i];
      var k := FindBad(p[1..]);
      j := k + 1;
      assert forall i :: 1 <= i < |p| ==> p[i] == p[1..][i - 1];
    }
  }

  lemma LoginFacts(pre: string, body: string, j: nat)
    requires PasswordToEnd(pre) && BadAt(body, j)
    ensures var m, n := pre + AtTail(body, ""), |pre| + j;
            && HasUser(m) && Colon(m) == Colon(pre) < n < |m| - 1 && m[n] == body[j]
            && forall i :: Colon(pre) < i < n ==> InPassword(m[i])
  {
    var m, c := pre + AtTail(body, ""), Colon(pre);
    AtTailAt(pre, body, "");
    SamePrefixSameUser(pre, m, c);
    assert forall i :: c < i < |pre| ==> pre[i] == pre[c + 1..][i - c - 1];
  }

  lemma BadBodyHere(pre: string, body: string, j: nat)
    requires PasswordToEnd(pre) && BadAt(body, j)
    ensures MaskUrl(pre + AtTail(body, "")) != MaskUrl(pre + AtTail("x", ""))
  {
    var m, c, n := pre + AtTail(body, ""), Colon(pre), |pre| + j;
    MaskedHere(pre, "x", "");
    assert "***@" + MaskUrl("") == "***@";
    LoginFacts(pre, body, j);
    BadDiffers(m, c, n, pre[..c + 1]);
  }

  lemma BadDiffers(m: string, c: nat, n: nat, head: string)
    requires HasUser(m) && Colon(m) == c < n < |m| - 1 && forall j :: c < j < n ==> InPassword(m[j])
    requires !InPassword(m[n]) && |head| == c + 1
    ensures MaskUrl(m) != head + "***@"
  {
    if m[n] == '@' && n > c + 1 {
      PasswordEndsAt(m, n);
      MaskedIsLonger(m, c, n);
    } else {
      BadStays(m, c, n);
      BadIsNotMask(head, n, m[n]);
    }
  }

  lemma MaskedIsLonger(m: string, c: nat, n: nat)
    requires AtUrl(m) && Colon(m) == c && At(m) == n < |m| - 1
    ensures |MaskUrl(m)| > c + 5
  {
    var rest := m[n + 1..];
    MaskUrlFrom(m, m[..c + 1], rest);
    MaskUrlKeepsFirst(rest);
  }

  lemma BadIsNotMask(head: string, n: nat, bad: char)
    requires |head| <= n && (bad == '/' || (bad == '@' && n == |head|))
    ensures n < |head + "***@"| ==> (head + "***@")[n] != bad
  {
    assert n < |head| + 4 ==> (head + "***@")[n] == "***@"[n - |head|];
  }

  lemma DifferUnder(head: string, a: string, b: string)
    requires a != b
    ensures head + a != head + b
  {
    assert (head + a)[|head|..] == a && (head + b)[|head|..] == b;
  }

  /** Where a password is expected, one with a slash or an at sign comes out differently. */
  lemma {:induction false} BadBodyShows(pre: string, body: string, j: nat)
    requires AwaitsPassword(pre) && BadAt(body, j)
    ensures MaskUrl(pre + AtTail(body, "")) != MaskUrl(pre + AtTail("x", ""))
    decreases |pre|
  {
    var s, t := AtTail(body, ""), AtTail("x", "");
    if PasswordToEnd(pre) {
      BadBodyHere(pre, body, j);
    } else if AtUrl(pre) {
      var head, more := UrlStep(pre, s, t);
      BadBodyShows(more, body, j);
      DifferUnder("***@", MaskUrl(more + s), MaskUrl(more + t));
      DifferUnder(head, "***@" + MaskUrl(more + s), "***@" + MaskUrl(more + t));
    } else {
      UrlNotYet(pre, s);
      UrlNotYet(pre, t);
      UrlStepPlain(pre, s);
      UrlStepPlain(pre, t);
      BadBodyShows(pre[1..], body, j);
      DifferUnder([pre[0]], MaskUrl(pre[1..] + s), MaskUrl(pre[1..] + t));
    }
  }

  // A password that leaves a token open, which takes the at sign.

  lemma {:induction false} OpenEndsMasked(u: string)
    requires OpenAtEnd(u)
    ensures var m := MaskBearer(u + AtTail("", "")); m != "" && m[|m| - 1] == '*'
    decreases |u|
  {
    var s := AtTail("", "");
    if WordToEnd(u) {
      OpenEndsHere(u);
    } else if AtBearer(u) {
      var k, more := TokenStart(u), u[TokenEnd(u)..];
      MaskStepToken(u, s);
      OpenEndsMasked(more);
      LastOfAppend(MASK, MaskBearer(more + s));
      LastOfAppend(u[..k], MASK + MaskBearer(more + s));
    } else {
      OpenNotYet(u, s);
      MaskStepPlain(u, s);
      OpenEndsMasked(u[1..]);
      LastOfAppend([u[0]], MaskBearer(u[1..] + s));
    }
  }

  lemma OpenEndsHere(u: string)
    requires WordToEnd(u)
    ensures var m := MaskBearer(u + AtTail("", "")); m != "" && m[|m| - 1] == '*'
  {
    var k := if AtBearer(u) then TokenStart(u) else |u|;
    assert !AtBearer(u) ==> forall i :: 6 <= i < |u| ==> u[i] == u[6..][i - 6];
    SwallowedAt(u, "", "", k);
    assert MASK + MaskBearer("") == MASK;
    LastOfAppend(u[..k], MASK);
  }

  lemma OpenedShows(front: string, p: string)
    requires !OpenAtEnd(front) && OpenAtEnd(front + p)
    ensures RedactString(front + AtTail(p, "")) != RedactString(front + AtTail("x", ""))
  {
    var m, x := MaskBearer(front + AtTail(p, "")), MaskBearer(front) + AtTail("x", "");
    JoinTail(front, p, "");
    OpenEndsMasked(front + p);
    RedactFreshPassword(front, "x", "");
    MaskUrlKeepsLast(m);
    MaskUrlKeepsLast(x);
    assert x[|x| - 1] == '@';
  }

  // A token that is being read in front, and a password with whitespace, at which it ends.

  /** Two tails that part at once. */
  predicate Forks(s: string, t: string) {
    t != "" && (s == "" || s[0] != t[0]) && forall i :: 0 <= i < |s| ==> s[i] != '@'
  }

  lemma AtSignRemains(m: string)
    requires AtUrl(m)
    ensures exists i :: 0 <= i < |MaskUrl(m)| && MaskUrl(m)[i] == '@'
  {
    var c := Colon(m);
    MaskUrlFrom(m, m[..c + 1], m[At(m) + 1..]);
    assert MaskUrl(m)[c + 4] == '@';
  }

  /** What parts stays apart under the second substitution, whatever stands in front. */
  lemma {:induction false} ForkShows(u: string, s: string, t: string)
    requires Forks(s, t)
    ensures MaskUrl(u + s) != MaskUrl(u + t)
    decreases |u|
  {
    if u == "" {
      assert u + s == s && u + t == t;
      MaskUrlKeepsFirst(s);
      MaskUrlKeepsFirst(t);
    } else if AtUrl(u) {
      var head, more := UrlStep(u, s, t);
      ForkShows(more, s, t);
      DifferUnder("***@", MaskUrl(more + s), MaskUrl(more + t));
      DifferUnder(head, "***@" + MaskUrl(more + s), "***@" + MaskUrl(more + t));
    } else if AtUrl(u + t) {
      UrlReachesOver(u, t);
      NoAtNoUrl(u + s);
      AtSignRemains(u + t);
    } else {
      if AtUrl(u + s) {
        UrlReachesOver(u, s);
      }
      UrlStepPlain(u, s);
      UrlStepPlain(u, t);
      ForkShows(u[1..], s, t);
      DifferUnder([u[0]], MaskUrl(u[1..] + s), MaskUrl(u[1..] + t));
    }
  }

  /** The token goes on into the password and ends there, before its first whitespace. */
  lemma TokenEndsInside(front: string, p: string, k: nat, i: nat) returns (t: string)
    requires SaysBearer(front) && 7 <= k <= |front| && k < |front| + i && i < |p| && IsSpace(p[i])
    requires (forall j :: 6 <= j < k ==> IsSpace(front[j])) && (forall j :: k <= j < |front| ==> !IsSpace(front[j]))
    requires forall j :: 0 <= j < i ==> !IsSpace(p[j])
    ensures t != "" && MaskBearer(front + AtTail(p, "")) == front[..k] + (MASK + t)
  {
    var m, e := front + AtTail(p, ""), |front| + i;
    AtTailAt(front, p, "");
    BearerShape(m, k);
    TokenEndsAt(m, e);
    DropTail(front, p, "", k);
    MaskBearerFrom(m, front[..k], m[e..]);
    MaskKeepsFirst(m[e..]);
    t := MaskBearer(m[e..]);
  }

  /** More whitespace before the token begins. */
  lemma SpacesGoOn(front: string, s: string) returns (t: string)
    requires SaysBearer(front) && |front| >= 7 && s != "" && IsSpace(s[0]) && Spaces(s) < |s|
    requires forall j :: 6 <= j < |front| ==> IsSpace(front[j])
    ensures t != "" && t[0] == s[0] && MaskBearer(front + s) == front + t
  {
    SpacesShape(front, s, Spaces(s));
    t := SpacesSplit(front, s, Spaces(s));
  }

  lemma SpacesSplit(front: string, s: string, n: nat) returns (t: string)
    requires 0 < n <= |s| && AtBearer(front + s) && TokenStart(front + s) == |front| + n
    ensures t != "" && t[0] == s[0] && MaskBearer(front + s) == front + t
  {
    var m := front + s;
    var behind := m[TokenEnd(m)..];
    var rest := MASK + MaskBearer(behind);
    MaskBearerFrom(m, m[..|front| + n], behind);
    SplitBehind(front, s, n, rest);
    t := s[..n] + rest;
  }

  lemma SpacesShape(front: string, s: string, n: nat)
    requires SaysBearer(front) && |front| >= 7 && n < |s| && !IsSpace(s[n])
    requires (forall j :: 6 <= j < |front| ==> IsSpace(front[j])) && forall j :: 0 <= j < n ==> IsSpace(s[j])
    ensures AtBearer(front + s) && TokenStart(front + s) == |front| + n
  {
    var m, k := front + s, |front| + n;
    assert forall i :: 0 <= i < |front| ==> m[i] == front[i];
    forall i | |front| <= i < k
      ensures IsSpace(m[i])
    {
      assert m[i] == s[i - |front|];
    }
    assert m[k] == s[n];
    BearerShape(m, k);
  }

  lemma SplitBehind(front: string, s: string, n: nat, rest: string)
    requires 0 < n <= |s|
    ensures (front + s)[..|front| + n] + rest == front + (s[..n] + rest)
    ensures (s[..n] + rest)[0] == s[0]
  {
    assert (front + s)[..|front| + n] == front + s[..n];
  }

  lemma SpacesEnd(p: string)
    ensures Spaces(AtTail(p, "")) < |AtTail(p, "")|
  {
    var s := AtTail(p, "");
    assert s[|p|] == '@' && |s| == |p| + 1;
  }

  lemma ForkHere(front: string, p: string) returns (u: string, s: string, t: string)
    requires WordToEnd(front) && !NoSpace(p)
    ensures MaskBearer(front + AtTail("x", "")) == u + s && MaskBearer(front + AtTail(p, "")) == u + t && Forks(s, t)
  {
    var k := if AtBearer(front) then TokenStart(front) else |front|;
    assert !AtBearer(front) ==> forall j :: 6 <= j < |front| ==> front[j] == front[6..][j - 6];
    u, s, t := ForkAt(front, p, k);
  }

  lemma ForkAt(front: string, p: string, k: nat) returns (u: string, s: string, t: string)
    requires SaysBearer(front) && 7 <= k <= |front| && !NoSpace(p)
    requires (forall j :: 6 <= j < k ==> IsSpace(front[j])) && (forall j :: k <= j < |front| ==> !IsSpace(front[j]))
    ensures MaskBearer(front + AtTail("x", "")) == u + s && MaskBearer(front + AtTail(p, "")) == u + t && Forks(s, t)
  {
    var i := Token(p);
    SwallowedAt(front, "x", "", k);
    assert MASK + MaskBearer("") == MASK;
    if k < |front| + i {
      t := TokenEndsInside(front, p, k, i);
      u, s := front[..k] + MASK, "";
      Regroup(front[..k], "", MASK, t);
    } else {
      SpacesEnd(p);
      AtTailFirst(p, "");
      t := SpacesGoOn(front, AtTail(p, ""));
      u, s := front, MASK;
      assert front[..k] == front;
    }
  }

  lemma {:induction false} OpenForks(front: string, p: string) returns (u: string, s: string, t: string)
    requires OpenAtEnd(front) && !NoSpace(p)
    ensures MaskBearer(front + AtTail("x", "")) == u + s && MaskBearer(front + AtTail(p, "")) == u + t && Forks(s, t)
    decreases |front|
  {
    var x, y := AtTail("x", ""), AtTail(p, "");
    if WordToEnd(front) {
      u, s, t := ForkHere(front, p);
    } else if AtBearer(front) {
      var head, more := front[..TokenStart(front)], front[TokenEnd(front)..];
      MaskStepToken(front, x);
      MaskStepToken(front, y);
      u, s, t := OpenForks(more, p);
      Regroup(head, MASK, u, s);
      Regroup(head, MASK, u, t);
      u := head + (MASK + u);
    } else {
      OpenNotYet(front, x);
      OpenNotYet(front, y);
      MaskStepPlain(front, x);
      MaskStepPlain(front, y);
      u, s, t := OpenForks(front[1..], p);
      Regroup([front[0]], "", u, s);
      Regroup([front[0]], "", u, t);
      u := [front[0]] + u;
    }
  }

  lemma SpaceShows(front: string, p: string)
    requires OpenAtEnd(front) && !NoSpace(p)
    ensures !Hidden(front, p)
  {
    var u, s, t := OpenForks(front, p);
    ForkShows(u, s, t);
  }

  lemma TokenHides(front: string, p: string)
    requires OpenAtEnd(front) && NoSpace(p)
    ensures Hidden(front, p)
  {
    forall rest
      ensures RedactString(front + AtTail(p, rest)) == RedactString(front + AtTail("x", rest))
    {
      TokenSwallows(front, p, "x", rest);
    }
  }

  lemma NotTakenInShows(front: string, p: string)
    requires p != "" && !OpenAtEnd(front) && AwaitsPassword(MaskBearer(front)) && !TakenIn(front, p)
    ensures !Hidden(front, p)
  {
    if OpenAtEnd(front + p) {
      OpenedShows(front, p);
    } else {
      BadPasswordShows(front, p);
    }
  }

  lemma BadPasswordShows(front: string, p: string)
    requires p != "" && !OpenAtEnd(front) && !OpenAtEnd(front + p)
    requires AwaitsPassword(MaskBearer(front)) && !IsBody(Added(front, p))
    ensures RedactString(front + AtTail(p, "")) != RedactString(front + AtTail("x", ""))
  {
    AddedBehind(front, p);
    var j := FindBad(Added(front, p));
    RedactClosed(front, p, "");
    RedactFreshPassword(front, "x", "");
    assert MaskBearer("") == "";
    BadBodyShows(MaskBearer(front), Added(front, p), j);
  }

  /**
   * Any password at all, in any place that hides ordinary ones, comes out as they
   * do exactly when it is taken in: by the token that is being read there, or as
   * the password of the URL, its own tokens masked.
   */
  lemma PasswordHiddenIff(front: string, p: string)
    requires p != "" && HidesPassword(front)
    ensures Hidden(front, p) <==> TakenIn(front, p)
  {
    FrontHidesIff(front);
    if OpenAtEnd(front) {
      if NoSpace(p) {
        TokenHides(front, p);
      } else {
        SpaceShows(front, p);
      }
    } else if TakenIn(front, p) {
      TakenInHidden(front, p);
    } else {
      NotTakenInShows(front, p);
    }
  }

  // ---- two that show ----

  lemma {:induction false} NoAtNoUrl(s: string)
    requires forall i :: 0 <= i < |s| ==> s[i] != '@'
    ensures MaskUrl(s) == s
  {
    if s != "" {
      assert !AtUrl(s);
      NoAtNoUrl(s[1..]);
    }
  }

  const LOGIN := "://u:"
  const SPACED := "bearer x@"

  lemma SpacedBearer()
    ensures AtBearer(SPACED) && TokenStart(SPACED) == 7 && TokenEnd(SPACED) == 9
  {
    BearerShape(SPACED, 7);
    TokenEndsAt(SPACED, 9);
  }

  lemma LoginAwaits()
    ensures !OpenAtEnd(LOGIN) && MaskBearer(LOGIN) == LOGIN && AwaitsPassword(LOGIN) && HidesPassword(LOGIN)
    ensures HasUser(LOGIN) && Colon(LOGIN) == 4
  {
    assert |LOGIN| < 6;
    NoWordUnchanged(LOGIN);
    assert LOGIN[3..][0] == 'u' && LOGIN[3..][1] == ':';
    assert UserRun(LOGIN[3..]) == 1;
    PasswordReaches(LOGIN);
    FrontHidesIff(LOGIN);
  }

  lemma ShortHasNoWord(s: string)
    requires forall i :: 0 <= i < |s| - 5 ==> !IsB(s[i])
    ensures NoWord(s) && MaskBearer(s) == s && !OpenAtEnd(s)
  {
    assert forall i :: 0 <= i < |s| ==> |s[i..]| == |s| - i && s[i..][0] == s[i];
    NoWordUnchanged(s);
  }

  lemma {:induction false} NoUrlKept(s: string)
    requires !AtUrl(s) && forall i :: 1 <= i < |s| - 1 && s[i] == ':' ==> s[i + 1] != '/'
    ensures MaskUrl(s) == s
  {
    if s != "" {
      var t := s[1..];
      assert forall i :: 0 <= i < |t| ==> t[i] == s[i + 1];
      NoUrlKept(t);
    }
  }

  const SLASHED := "a/b"

  lemma SlashIsNoUrl(s: string)
    requires |s| > 6 && s[..5] == LOGIN && s[5] == 'a' && s[6] == '/'
    ensures !AtUrl(s)
  {
    LoginAwaits();
    assert forall i :: 0 <= i < 5 ==> s[..5][i] == s[i];
    SamePrefixSameUser(LOGIN, s, 4);
    OverlongIsNoUrl(s, 4, 6);
  }

  lemma SlashKept()
    ensures RedactString(LOGIN + AtTail(SLASHED, "h")) == LOGIN + AtTail(SLASHED, "h")
  {
    var s := LOGIN + AtTail(SLASHED, "h");
    assert s == "://u:a/b@h";
    ShortHasNoWord(s);
    SlashIsNoUrl(s);
    NoUrlKept(s);
  }

  /** A slash that is not escaped keeps the whole login from being a URL's. */
  lemma SlashPasswordShows()
    ensures RedactString(LOGIN + AtTail(SLASHED, "h")) == LOGIN + AtTail(SLASHED, "h")
    ensures HidesPassword(LOGIN) && !Hidden(LOGIN, SLASHED)
  {
    var s := LOGIN + SLASHED;
    assert s == "://u:a/b";
    SlashKept();
    LoginAwaits();
    ShortHasNoWord(s);
    assert s[|LOGIN|..] == SLASHED;
    assert !InPassword(SLASHED[1]);
    PasswordHiddenIff(LOGIN, SLASHED);
  }

  /**
   * And a word with whitespace behind it makes the at sign part of a token, and
   * what stands before that token is then no URL any more.
   */
  lemma SpacedPasswordShows()
    ensures RedactString(LOGIN + SPACED) == LOGIN + ("bearer " + MASK)
  {
    var rest := SPACED[9..];
    SpacedBearer();
    assert |LOGIN| < 6;
    NoWordUnchanged(LOGIN);
    MaskSeparates(LOGIN, SPACED);
    assert rest == "";
    MaskBearerFrom(SPACED, SPACED[..7], rest);
    assert SPACED[..7] == "bearer ";
    assert MASK + "" == MASK;
    NoAtNoUrl(LOGIN + ("bearer " + MASK));
  }
}
