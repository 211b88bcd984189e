/**
 * Exactly when redaction hides a bearer token: it must not be in front of the
 * word that a token is already being read.
 */
module HiddenTokens {
  import opened Characters
  import opened Redaction

  /** The word and whitespace up to the end, or a token that reaches the end. */
  predicate WordToEnd(s: string) {
    || (SaysBearer(s) && Spaces(s[6..]) > 0 && 6 + Spaces(s[6..]) == |s|)
    || (AtBearer(s) && TokenEnd(s) == |s|)
  }

  /** A text that ends while a token is being read, so that what is appended belongs to that token. */
  predicate OpenAtEnd(s: string)
    decreases |s|
  {
    if s == "" then false
    else if WordToEnd(s) then true
    else if AtBearer(s) then OpenAtEnd(s[TokenEnd(s)..])
    else OpenAtEnd(s[1..])
  }

  lemma TokenInFront(pre: string, s: string)
    requires AtBearer(pre) && TokenEnd(pre) < |pre|
    ensures AtBearer(pre + s) && TokenStart(pre + s) == TokenStart(pre) && TokenEnd(pre + s) == TokenEnd(pre)
  {
    var k, e := TokenStart(pre), TokenEnd(pre);
    assert forall i :: 0 <= i < |pre| ==> (pre + s)[i] == pre[i];
    SamePrefixSameBearer(pre, pre + s, k);
    TokenEndsAt(pre + s, e);
  }

  /** A text that begins with the word's letter, a colon, or no whitespace up to an at sign, so that no word runs into it. */
  ghost predicate StartsApart(s: string) {
    s != "" && (IsB(s[0]) || s[0] == ':' || exists n :: 0 <= n < |s| && s[n] == '@' && forall i :: 0 <= i < n ==> !IsSpace(s[i]))
  }

  /** A word that begins in one text and whose token begins in the next leaves the first one open. */
  lemma TokenAcross(pre: string, s: string)
    requires pre != "" && StartsApart(s) && AtBearer(pre + s)
    ensures AtBearer(pre) || WordToEnd(pre)
  {
    var m := pre + s;
    var k := TokenStart(m);
    assert m[|pre|] == s[0] && forall i :: 0 <= i < |pre| ==> m[i] == pre[i];
    if k < |pre| {
      SamePrefixSameBearer(m, pre, k);
    } else {
      WordInFront(pre, s);
      SpacesToEnd(pre, 6);
    }
  }

  /** The word itself does not reach over. */
  lemma WordInFront(pre: string, s: string)
    requires pre != "" && StartsApart(s) && SaysBearer(pre + s) && |pre + s| > 6 && IsSpace((pre + s)[6])
    ensures |pre| > 6
  {
    var m := pre + s;
    assert forall i :: 0 <= i < |s| ==> m[|pre| + i] == s[i];
    if |pre| <= 6 && !IsB(s[0]) && s[0] != ':' {
      var n :| 0 <= n < |s| && s[n] == '@' && forall i :: 0 <= i < n ==> !IsSpace(s[i]);
    }
  }

  lemma SpacesToEnd(s: string, k: nat)
    requires k <= |s| && forall i :: k <= i < |s| ==> IsSpace(s[i])
    ensures Spaces(s[k..]) == |s| - k
  {
    assert forall i :: 0 <= i < |s| - k ==> s[k..][i] == s[i + k];
  }

  lemma DropAppend(pre: string, s: string, k: nat)
    requires k <= |pre|
    ensures (pre + s)[k..] == pre[k..] + s && (pre + s)[..k] == pre[..k]
  {
  }

  lemma MaskStepToken(pre: string, s: string)
    requires AtBearer(pre) && TokenEnd(pre) < |pre|
    ensures MaskBearer(pre + s) == pre[..TokenStart(pre)] + (MASK + MaskBearer(pre[TokenEnd(pre)..] + s))
  {
    TokenInFront(pre, s);
    DropAppend(pre, s, TokenStart(pre));
    DropAppend(pre, s, TokenEnd(pre));
  }

  lemma MaskStepPlain(pre: string, s: string)
    requires pre != "" && !AtBearer(pre + s)
    ensures MaskBearer(pre + s) == [pre[0]] + MaskBearer(pre[1..] + s)
  {
    DropAppend(pre, s, 1);
  }

  lemma Regroup(a: string, b: string, c: string, d: string)
    ensures a + (b + (c + d)) == (a + (b + c)) + d
    ensures a + (c + d) == (a + c) + d
  {
  }

  /** Unless a token is still being read there, masking a text and what follows it are separate. */
  lemma {:induction false} MaskSeparates(pre: string, s: string)
    requires StartsApart(s) && !OpenAtEnd(pre)
    ensures MaskBearer(pre + s) == MaskBearer(pre) + MaskBearer(s)
    decreases |pre|
  {
    if pre == "" {
      assert pre + s == s;
    } else if AtBearer(pre) {
      var rest := pre[TokenEnd(pre)..];
      MaskStepToken(pre, s);
      MaskSeparates(rest, s);
      Regroup(pre[..TokenStart(pre)], MASK, MaskBearer(rest), MaskBearer(s));
    } else {
      if AtBearer(pre + s) {
        TokenAcross(pre, s);
      }
      MaskStepPlain(pre, s);
      MaskSeparates(pre[1..], s);
      Regroup([pre[0]], "", MaskBearer(pre[1..]), MaskBearer(s));
    }
  }

  lemma WordInToken(m: string, k: nat, n: nat)
    requires SaysBearer(m) && 7 <= k <= n && n + 6 < |m| && IsSpace(m[n + 6])
    requires (forall i :: 6 <= i < k ==> IsSpace(m[i])) && (forall i :: k <= i < n + 6 ==> !IsSpace(m[i]))
    ensures AtBearer(m) && TokenEnd(m) == n + 6
  {
    BearerShape(m, k);
    TokenEndsAt(m, n + 6);
  }

  lemma NoSpaceInWord(s: string)
    requires SaysBearer(s)
    ensures forall i :: 0 <= i < 6 ==> !IsSpace(s[i])
  {
  }

  lemma TokenGoesOnAt(pre: string, s: string, k: nat)
    requires SaysBearer(pre) && 7 <= k <= |pre| && |s| > 6 && IsSpace(s[6])
    requires forall i :: 0 <= i < 6 ==> !IsSpace(s[i])
    requires (forall i :: 6 <= i < k ==> IsSpace(pre[i])) && (forall i :: k <= i < |pre| ==> !IsSpace(pre[i]))
    ensures AtBearer(pre + s) && TokenEnd(pre + s) == |pre| + 6
  {
    var m := pre + s;
    forall i | |pre| <= i < |pre| + 6
      ensures !IsSpace(m[i])
    {
      assert m[i] == s[i - |pre|];
    }
    assert m[|pre| + 6] == s[6];
    WordInToken(m, k, |pre|);
  }

  lemma TokenGoesOn(pre: string, s: string)
    requires WordToEnd(pre) && AtBearer(s)
    ensures AtBearer(pre + s) && TokenEnd(pre + s) == |pre| + 6
  {
    NoSpaceInWord(s);
    if AtBearer(pre) {
      TokenGoesOnAt(pre, s, TokenStart(pre));
    } else {
      assert forall i :: 6 <= i < |pre| ==> pre[i] == pre[6..][i - 6];
      TokenGoesOnAt(pre, s, |pre|);
    }
  }

  lemma ExposedHere(pre: string, s: string)
    requires WordToEnd(pre) && AtBearer(s)
    ensures exists q :: MaskBearer(pre + s) == q + MaskBearer(s[6..])
  {
    var m := pre + s;
    TokenGoesOn(pre, s);
    assert m[|pre| + 6..] == s[6..];
    Regroup(m[..TokenStart(m)], "", MASK, MaskBearer(s[6..]));
  }

  lemma Prefixed(m: string, head: string, inner: string, tail: string)
    requires m == head + inner && exists q :: inner == q + tail
    ensures exists q :: m == q + tail
  {
    var q :| inner == q + tail;
    Regroup(head, "", q, tail);
  }

  /** Otherwise the word itself is taken for the token, and the token after it is text like any other. */
  lemma {:induction false} MaskExposes(pre: string, s: string)
    requires AtBearer(s) && OpenAtEnd(pre)
    ensures exists q :: MaskBearer(pre + s) == q + MaskBearer(s[6..])
    decreases |pre|
  {
    if WordToEnd(pre) {
      ExposedHere(pre, s);
    } else if AtBearer(pre) {
      var k, rest := TokenStart(pre), pre[TokenEnd(pre)..];
      MaskStepToken(pre, s);
      MaskExposes(rest, s);
      Regroup(pre[..k], "", MASK, MaskBearer(rest + s));
      Prefixed(MaskBearer(pre + s), pre[..k] + MASK, MaskBearer(rest + s), MaskBearer(s[6..]));
    } else {
      if AtBearer(pre + s) {
        TokenAcross(pre, s);
      }
      MaskStepPlain(pre, s);
      MaskExposes(pre[1..], s);
      Prefixed(MaskBearer(pre + s), [pre[0]], MaskBearer(pre[1..] + s), MaskBearer(s[6..]));
    }
  }

  lemma LastOfAppend(a: string, b: string)
    requires b != ""
    ensures (a + b)[|a + b| - 1] == b[|b| - 1]
  {
  }

  lemma {:induction false} MaskUrlKeepsLast(s: string)
    requires s != ""
    ensures MaskUrl(s) != "" && MaskUrl(s)[|MaskUrl(s)| - 1] == s[|s| - 1]
    decreases |s|
  {
    if AtUrl(s) {
      var rest := s[At(s) + 1..];
      if rest != "" {
        MaskUrlKeepsLast(rest);
        LastOfAppend(s[..Colon(s) + 1], "***@" + MaskUrl(rest));
        LastOfAppend("***@", MaskUrl(rest));
      } else {
        assert |"***@" + MaskUrl(rest)| == 4;
        LastOfAppend(s[..Colon(s) + 1], "***@" + MaskUrl(rest));
      }
    } else if |s| > 1 {
      MaskUrlKeepsLast(s[1..]);
      LastOfAppend([s[0]], MaskUrl(s[1..]));
    }
  }

  /** The word with a one-letter token. */
  function Short(c: char): string { "Bearer " + [c] }

  lemma ShortShape(c: char)
    requires !IsSpace(c)
    ensures AtBearer(Short(c)) && TokenStart(Short(c)) == 7 && TokenEnd(Short(c)) == 8
    ensures Short(c)[6..] == [' ', c]
  {
    BearerShape(Short(c), 7);
    TokenEndsAt(Short(c), 8);
  }

  /** After a text still reading a token, the letter is in the open, at the very end. */
  lemma ShortExposed(pre: string, c: char)
    requires OpenAtEnd(pre) && !IsSpace(c)
    ensures RedactString(pre + Short(c)) != "" && RedactString(pre + Short(c))[|RedactString(pre + Short(c))| - 1] == c
  {
    ShortShape(c);
    MaskExposes(pre, Short(c));
    NoWordUnchanged([' ', c]);
    MaskUrlKeepsLast(MaskBearer(pre + Short(c)));
  }

  /** The same text but for the token after the word in front. */
  ghost predicate SameButToken(s: string, t: string) {
    && AtBearer(s) && AtBearer(t)
    && s[..TokenStart(s)] == t[..TokenStart(t)] && s[TokenEnd(s)..] == t[TokenEnd(t)..]
  }

  /** A text in front under which the token's own characters never show. */
  ghost predicate HidesToken(pre: string) {
    forall s, t :: SameButToken(s, t) ==> RedactString(pre + s) == RedactString(pre + t)
  }

  /**
   * Texts that differ only in the token after a word come out the same exactly
   * when the text in front is not itself in the middle of a token there.
   */
  lemma TokenHiddenIff(pre: string)
    ensures HidesToken(pre) <==> !OpenAtEnd(pre)
  {
    if OpenAtEnd(pre) {
      ShortExposed(pre, 'x');
      ShortExposed(pre, 'y');
      ShortShape('x');
      ShortShape('y');
      assert SameButToken(Short('x'), Short('y'));
    } else {
      forall s, t | SameButToken(s, t)
        ensures RedactString(pre + s) == RedactString(pre + t)
      {
        MaskSeparates(pre, s);
        MaskSeparates(pre, t);
      }
    }
  }

  predicate NoWord(s: string) {
    forall i :: 0 <= i < |s| ==> !SaysBearer(s[i..])
  }

  lemma {:induction false} NoWordUnchanged(s: string)
    requires NoWord(s)
    ensures MaskBearer(s) == s && !OpenAtEnd(s)
  {
    if s != "" {
      assert s[0..] == s;
      assert forall i :: 0 <= i < |s[1..]| ==> s[1..][i..] == s[i + 1..];
      NoWordUnchanged(s[1..]);
    }
  }

  /** So a token is hidden wherever the word stands for the first time. */
  lemma FirstWordHides(pre: string)
    requires NoWord(pre)
    ensures HidesToken(pre)
  {
    TokenHiddenIff(pre);
    NoWordUnchanged(pre);
  }

  const ONCE := "Bearer "

  /** And in the open where the word is said twice. */
  lemma SecondWordExposes()
    ensures !HidesToken(ONCE)
  {
    SpacesToEnd(ONCE, 6);
    assert WordToEnd(ONCE);
    TokenHiddenIff(ONCE);
  }
}
