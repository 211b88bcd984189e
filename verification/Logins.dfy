/**
 * Redaction on texts spelled out character by character: which logins in URLs
 * and which bearer tokens are masked, what is put in their place, and what is
 * left as it is.
 */
module Logins {
  import opened Characters
  import opened Redaction
  import opened HiddenTokens
  import opened HiddenPasswords

  /** A user name: anything but a colon, a slash and an at sign. */
  predicate IsUserName(u: string) {
    u != "" && forall i :: 0 <= i < |u| ==> u[i] != ':' && u[i] != '/' && u[i] != '@'
  }

  /** A password: anything but a slash, an at sign and whitespace. */
  predicate IsPlainPassword(p: string) {
    p != "" && forall i :: 0 <= i < |p| ==> p[i] != '/' && p[i] != '@' && !IsSpace(p[i])
  }

  function Login(user: string): string { "://" + (user + ":") }

  // ---- a login is read as one, whatever tokens its user name may hold ----

  /** A user name with its colon behind it. */
  predicate EndsInColon(m: string) {
    && m != "" && m[|m| - 1] == ':'
    && forall i :: 0 <= i < |m| - 1 ==> m[i] != ':' && m[i] != '/' && m[i] != '@'
  }

  lemma StillEndsInColon(head: string, m: string)
    requires EndsInColon(m) && forall i :: 0 <= i < |head| ==> head[i] != ':' && head[i] != '/' && head[i] != '@'
    ensures EndsInColon(head + m)
  {
    forall i | 0 <= i < |head + m| - 1
      ensures (head + m)[i] != ':' && (head + m)[i] != '/' && (head + m)[i] != '@'
    {
      assert (head + m)[i] == if i < |head| then head[i] else m[i - |head|];
    }
  }

  /** A token inside it ends before the colon, if none is left open. */
  lemma TokenInUser(s: string)
    requires EndsInColon(s) && AtBearer(s) && !OpenAtEnd(s)
    ensures TokenEnd(s) < |s| && EndsInColon(s[TokenEnd(s)..]) && !OpenAtEnd(s[TokenEnd(s)..])
    ensures forall i :: 0 <= i < TokenStart(s) ==> s[i] != ':' && s[i] != '/' && s[i] != '@'
  {
  }

  lemma MaskedUserToken(s: string, head: string, rest: string)
    requires AtBearer(s) && s[..TokenStart(s)] == head && s[TokenEnd(s)..] == rest && EndsInColon(MaskBearer(rest))
    requires forall i :: 0 <= i < |head| ==> head[i] != ':' && head[i] != '/' && head[i] != '@'
    ensures EndsInColon(MaskBearer(s)) && |MaskBearer(s)| > 1
  {
    MaskBearerFrom(s, head, rest);
    StillEndsInColon(MASK, MaskBearer(rest));
    StillEndsInColon(head, MASK + MaskBearer(rest));
  }

  lemma MaskedUserPlain(s: string)
    requires EndsInColon(s) && |s| > 1 && !AtBearer(s) && EndsInColon(MaskBearer(s[1..]))
    ensures EndsInColon(MaskBearer(s)) && |MaskBearer(s)| > 1
  {
    assert MaskBearer(s) == [s[0]] + MaskBearer(s[1..]);
    StillEndsInColon([s[0]], MaskBearer(s[1..]));
  }

  lemma UserTail(s: string)
    requires EndsInColon(s) && |s| > 1 && !AtBearer(s) && !OpenAtEnd(s)
    ensures EndsInColon(s[1..]) && !OpenAtEnd(s[1..])
  {
  }

  /** What masking makes of a user name with its colon is again one. */
  lemma {:induction false} MaskedUser(s: string)
    requires EndsInColon(s) && !OpenAtEnd(s)
    ensures EndsInColon(MaskBearer(s)) && (|s| > 1 ==> |MaskBearer(s)| > 1)
    decreases |s|
  {
    if AtBearer(s) {
      TokenInUser(s);
      MaskedUser(s[TokenEnd(s)..]);
      MaskedUserToken(s, s[..TokenStart(s)], s[TokenEnd(s)..]);
    } else if |s| > 1 {
      UserTail(s);
      MaskedUser(s[1..]);
      MaskedUserPlain(s);
    } else {
      assert MaskBearer(s) == [s[0]] + MaskBearer(s[1..]);
    }
  }

  lemma CopyFirst(s: string)
    requires s != "" && !IsB(s[0])
    ensures MaskBearer(s) == [s[0]] + MaskBearer(s[1..])
  {
  }

  lemma MaskedLogin(user: string)
    ensures MaskBearer(Login(user)) == "://" + MaskBearer(user + ":")
  {
    var s := user + ":";
    CopyFirst("://" + s);
    assert ("://" + s)[1..] == "//" + s;
    CopyFirst("//" + s);
    assert ("//" + s)[1..] == "/" + s;
    CopyFirst("/" + s);
    assert ("/" + s)[1..] == s;
  }

  lemma OpenBehind(c: char, s: string)
    requires !IsB(c)
    ensures OpenAtEnd([c] + s) <==> OpenAtEnd(s)
  {
    assert ([c] + s)[1..] == s;
  }

  lemma LoginOpen(user: string)
    ensures OpenAtEnd(Login(user)) <==> OpenAtEnd(user + ":")
  {
    var s := user + ":";
    assert Login(user) == [':'] + (['/'] + (['/'] + s));
    OpenBehind(':', ['/'] + (['/'] + s));
    OpenBehind('/', ['/'] + s);
    OpenBehind('/', s);
  }

  /** A login's user name and colon, standing alone. */
  lemma LoginAwaitsPassword(m: string)
    requires |m| > 1 && EndsInColon(m)
    ensures PasswordToEnd("://" + m) && forall i :: 0 <= i < |"://" + m| ==> ("://" + m)[i] != '@'
  {
    var s := "://" + m;
    assert s[3..] == m;
    var n := UserRun(m);
    assert n == |m| - 1;
    PasswordReaches(s);
  }

  lemma AtInFront(front: string, s: string)
    requires AtUrl(front + s) && forall i :: 0 <= i < |s| ==> s[i] != '@'
    ensures At(front + s) < |front|
  {
    assert forall i :: |front| <= i < |front + s| ==> (front + s)[i] == s[i - |front|];
  }

  lemma AwaitsUrl(m: string, a: nat)
    requires AtUrl(m) && a == At(m) && AwaitsPassword(m[a + 1..])
    ensures AwaitsPassword(m)
  {
  }

  lemma AwaitsPlain(m: string)
    requires m != "" && !AtUrl(m) && AwaitsPassword(m[1..])
    ensures AwaitsPassword(m)
  {
  }

  /** And behind any text. */
  lemma {:induction false} AwaitsBehind(front: string, s: string)
    requires PasswordToEnd(s) && forall i :: 0 <= i < |s| ==> s[i] != '@'
    ensures AwaitsPassword(front + s)
    decreases |front|
  {
    var m := front + s;
    if front == "" {
      assert m == s;
    } else if AtUrl(m) {
      var a := At(m);
      AtInFront(front, s);
      DropAppend(front, s, a + 1);
      AwaitsBehind(front[a + 1..], s);
      AwaitsUrl(m, a);
    } else {
      DropAppend(front, s, 1);
      AwaitsBehind(front[1..], s);
      AwaitsPlain(m);
    }
  }

  /** Behind any text that is not inside a token, a login hides its password. */
  lemma LoginHides(front: string, user: string)
    requires IsUserName(user) && !OpenAtEnd(front)
    ensures HidesPassword(front + Login(user))
  {
    FrontHidesIff(front + Login(user));
    if !OpenAtEnd(front + Login(user)) {
      var login := MaskBearer(Login(user));
      MaskSeparates(front, Login(user));
      NotOpenBehind(front, Login(user));
      LoginOpen(user);
      MaskedUser(user + ":");
      MaskedLogin(user);
      LoginAwaitsPassword(MaskBearer(user + ":"));
      AwaitsBehind(MaskBearer(front), login);
    }
  }

  /** What is open at the end of the second of two separate texts is open at the end of both. */
  lemma {:induction false} NotOpenBehind(front: string, s: string)
    requires StartsApart(s) && !OpenAtEnd(front) && !OpenAtEnd(front + s)
    ensures !OpenAtEnd(s)
    decreases |front|
  {
    if front == "" {
      assert front + s == s;
    } else if AtBearer(front) {
      TokenInFront(front, s);
      DropAppend(front, s, TokenEnd(front));
      NotOpenBehind(front[TokenEnd(front)..], s);
    } else {
      if AtBearer(front + s) {
        TokenAcross(front, s);
      }
      DropAppend(front, s, 1);
      NotOpenBehind(front[1..], s);
    }
  }

  lemma PlainIsPassword(p: string)
    requires IsPlainPassword(p)
    ensures IsPassword(p)
  {
  }

  /**
   * In any text in front that is not inside a token, behind any user name, the
   * redacted text does not tell one password from another.
   */
  lemma LoginPasswordHidden(front: string, user: string, p: string, q: string, rest: string)
    requires IsUserName(user) && !OpenAtEnd(front) && IsPlainPassword(p) && IsPlainPassword(q)
    ensures RedactString(front + ("://" + (user + ":")) + (p + ("@" + rest)))
         == RedactString(front + ("://" + (user + ":")) + (q + ("@" + rest)))
  {
    LoginHides(front, user);
    PlainIsPassword(p);
    PlainIsPassword(q);
    assert AtTail(p, rest) == p + ("@" + rest) && AtTail(q, rest) == q + ("@" + rest);
  }

  // ---- what stands there instead, and what is left as it is ----

  /** A text without the word, in which no at sign ends a login, is left alone. */
  lemma PlainTextKept(s: string)
    requires NoWord(s) && forall i :: 0 <= i < |s| ==> s[i] != '@'
    ensures RedactString(s) == s
  {
    NoWordUnchanged(s);
    NoAtNoUrl(s);
  }

  /** Behind a text without colons, a login keeps its user name and gets three asterisks for its password. */
  lemma LoginMasked(front: string, user: string, p: string, rest: string)
    requires (forall i :: 0 <= i < |front| ==> front[i] != ':') && IsUserName(user)
    requires p != "" && forall i :: 0 <= i < |p| ==> p[i] != '/' && p[i] != '@'
    ensures MaskUrl(front + (Login(user) + AtTail(p, rest))) == front + (Login(user) + ("***@" + MaskUrl(rest)))
  {
    var login := Login(user);
    var s := login + AtTail(p, rest);
    LoginAwaitsPassword(user + ":");
    assert Colon(login) == |login| - 1;
    MaskedHere(login, p, rest);
    assert login[..|login|] == login;
    var m := front + s;
    MaskUrlCopies(m, |front|);
    assert m[..|front|] == front && m[|front|..] == s;
  }

  /** The word, in capitals or not. */
  predicate IsWord(w: string) {
    && |w| == 6 && (w[0] == 'b' || w[0] == 'B') && (w[1] == 'e' || w[1] == 'E') && (w[2] == 'a' || w[2] == 'A')
    && (w[3] == 'r' || w[3] == 'R') && (w[4] == 'e' || w[4] == 'E') && (w[5] == 'r' || w[5] == 'R')
  }

  lemma WordIs(w: string)
    requires |w| == 6
    ensures SaysBearer(w) <==> IsWord(w)
  {
    assert forall i :: 0 <= i < 6 ==> Lower(w[i]) == w[i] || ('A' <= w[i] <= 'Z' && Lower(w[i]) == w[i] + ' ');
  }

  /**
   * Behind a text without the word, the word and its whitespace stay, the token
   * up to the next whitespace becomes three asterisks, and the rest goes on.
   */
  lemma BearerMasked(front: string, word: string, blank: string, token: string, rest: string)
    requires NoWord(front) && IsWord(word) && blank != "" && token != ""
    requires (forall i :: 0 <= i < |blank| ==> IsSpace(blank[i])) && (forall i :: 0 <= i < |token| ==> !IsSpace(token[i]))
    requires rest != "" ==> IsSpace(rest[0])
    ensures MaskBearer(front + (word + blank + (token + rest))) == front + (word + blank + ("***" + MaskBearer(rest)))
  {
    var head, tail := word + blank, token + rest;
    var s := head + tail;
    WordIs(word);
    BearerAt(s, word, blank, token, rest);
    MaskBearerFrom(s, head, rest);
    NoWordUnchanged(front);
    MaskSeparates(front, s);
  }

  /** As in an authorization header: one blank, and a token of printable characters up to a blank, a line break or the end. */
  lemma HeaderMasked(front: string, token: string, rest: string)
    requires NoWord(front) && token != "" && forall i :: 0 <= i < |token| ==> '!' <= token[i] <= '~'
    requires rest != "" ==> rest[0] == ' ' || rest[0] == '\n'
    ensures MaskBearer(front + ("Bearer" + " " + (token + rest))) == front + ("Bearer" + " " + ("***" + MaskBearer(rest)))
  {
    BearerMasked(front, "Bearer", " ", token, rest);
  }

  lemma BearerAt(s: string, word: string, blank: string, token: string, rest: string)
    requires s == (word + blank) + (token + rest) && SaysBearer(word) && |word| == 6 && blank != "" && token != ""
    requires (forall i :: 0 <= i < |blank| ==> IsSpace(blank[i])) && (forall i :: 0 <= i < |token| ==> !IsSpace(token[i]))
    requires rest != "" ==> IsSpace(rest[0])
    ensures AtBearer(s) && s[..TokenStart(s)] == word + blank && s[TokenEnd(s)..] == rest && IsB(s[0])
  {
    var k := 6 + |blank|;
    assert forall i :: 0 <= i < 6 ==> s[i] == word[i];
    assert forall i :: 6 <= i < k ==> s[i] == blank[i - 6];
    assert forall i :: k <= i < k + |token| ==> s[i] == token[i - k];
    assert rest != "" ==> s[k + |token|] == rest[0];
    BearerShape(s, k);
    TokenEndsAt(s, k + |token|);
  }
}
