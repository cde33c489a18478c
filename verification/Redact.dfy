/** Scrubbing the configured secrets out of what a remote printed, by replacing each
    in turn with a placeholder. */
module Redact {
  const PLACEHOLDER := "<redacted>"

  /** strings.ReplaceAll: leftmost, non-overlapping. */
  function ReplaceAll(s: string, secret: string, p: string): string
    requires secret != ""
    decreases |s|
  {
    if |s| < |secret| then s
    else if secret <= s then p + ReplaceAll(s[|secret|..], secret, p)
    else [s[0]] + ReplaceAll(s[1..], secret, p)
  }

  ghost predicate Contains(s: string, t: string) {
    exists i :: 0 <= i <= |s| && t <= s[i..]
  }

  /** The texts agree as far as both go. */
  predicate Clash(a: string, b: string) {
    a <= b || b <= a
  }

  /** No way of laying `t` over the placeholder `p` agrees with it where they overlap:
      neither starting at or before its first character, nor inside it. */
  ghost predicate Apart(t: string, p: string) {
    && (forall k :: 0 <= k < |t| ==> !Clash(t[k..], p))
    && (forall k :: 0 < k < |p| ==> !Clash(p[k..], t))
  }

  /** A secret with neither bracket and longer than the word between them is apart
      from the placeholder; the shortest secret the server accepts has 16 bytes. */
  lemma BracketFreeApart(t: string)
    requires '<' !in t && '>' !in t && |t| > 8
    ensures Apart(t, PLACEHOLDER)
  {
    var p := PLACEHOLDER;
    assert p[0] == '<' && p[9] == '>' && |p| == 10;
    forall k | 0 <= k < |t| ensures !Clash(t[k..], p) {
      assert t[k..][0] == t[k] && t[k] in t;
    }
    forall k | 0 < k < 10 ensures !Clash(p[k..], t) {
      assert p[k..][9 - k] == '>' && t[8] in t && t[9 - k] in t;
    }
  }

  // ---------------------------------------------------------------- one pass

  /** In `u + t` the secret is not found before the end of `u`. */
  predicate FirstAfter(u: string, t: string) {
    u == "" || (!(t <= u + t) && FirstAfter(u[1..], t))
  }

  /** Where a text `v` at the start of the output comes from: it was all copied, or it
      runs into the first placeholder after a copied `u`. */
  lemma {:induction false} Copied(s: string, t: string, v: string, p: string) returns (u: string)
    requires t != "" && v <= ReplaceAll(s, t, p)
    ensures (v <= s && (v == "" || !(t <= s)))
         || (u < v && Clash(v[|u|..], p) && u + t <= s && FirstAfter(u, t))
    decreases |s|
  {
    u := "";
    if v == "" || |s| < |t| {
    } else if t <= s {
      PrefixesClash(v, p, ReplaceAll(s[|t|..], t, p));
      assert v[0..] == v && u + t == t;
    } else {
      var rest := Copied(s[1..], t, v[1..], p);
      u := [s[0]] + rest;
      CopiedOne(s, t, v, rest);
    }
  }

  lemma CopiedOne(s: string, t: string, v: string, rest: string)
    requires s != "" && v != "" && v[0] == s[0] && t != ""
    ensures v[1..] <= s[1..] ==> v <= s
    ensures var u := [s[0]] + rest;
            && (rest < v[1..] ==> u < v && v[|u|..] == v[1..][|rest|..])
            && (rest + t <= s[1..] ==> u + t <= s)
            && (u + t <= s && !(t <= s) && FirstAfter(rest, t) ==> FirstAfter(u, t))
  {
    var u := [s[0]] + rest;
    assert s == [s[0]] + s[1..] && v == [s[0]] + v[1..] && u[1..] == rest;
    assert u + t == [s[0]] + (rest + t);
  }

  lemma ContainsLater(s: string, n: nat, t: string)
    requires n <= |s| && Contains(s[n..], t)
    ensures Contains(s, t)
  {
    var i :| 0 <= i <= |s[n..]| && t <= s[n..][i..];
    assert s[n..][i..] == s[n + i..];
  }

  /** What the output of a pass contains, the input contained, and it is not the
      secret of that pass. */
  lemma {:induction false} PassCreatesNothing(s: string, secret: string, t: string, i: nat, p: string)
    requires secret != "" && t != "" && Apart(t, p)
    requires i <= |ReplaceAll(s, secret, p)| && t <= ReplaceAll(s, secret, p)[i..]
    ensures Contains(s, t) && t != secret
    decreases |s|
  {
    var out := ReplaceAll(s, secret, p);
    assert t[0..] == t && p[0..] == p;
    if |s| < |secret| {
      assert |t| <= |out| - i;
    } else if secret <= s {
      var rest := ReplaceAll(s[|secret|..], secret, p);
      if i >= |p| {
        assert out[i..] == rest[i - |p|..];
        PassCreatesNothing(s[|secret|..], secret, t, i - |p|, p);
        ContainsLater(s, |secret|, t);
      } else {
        assert out[i..] == p[i..] + rest;
        PrefixesClash(t, p[i..], rest);
      }
    } else if i == 0 {
      assert out[0..] == out && s[0..] == s;
      var u := Copied(s, secret, t, p);
    } else {
      assert out[i..] == ReplaceAll(s[1..], secret, p)[i - 1..];
      PassCreatesNothing(s[1..], secret, t, i - 1, p);
      ContainsLater(s, 1, t);
    }
  }

  lemma PrefixesClash(t: string, a: string, b: string)
    requires t <= a + b
    ensures Clash(t, a)
  {
    if |t| <= |a| {
      assert t == (a + b)[..|t|] == a[..|t|];
    } else {
      assert a == (a + b)[..|a|] == t[..|a|];
    }
  }

  lemma PassRemoves(s: string, secret: string, t: string, p: string)
    requires secret != "" && t != "" && Apart(t, p)
    ensures Contains(ReplaceAll(s, secret, p), t) ==> Contains(s, t) && t != secret
  {
    var out := ReplaceAll(s, secret, p);
    if i :| 0 <= i <= |out| && t <= out[i..] {
      PassCreatesNothing(s, secret, t, i, p);
    }
  }

  // ---------------------------------------------------------------- all passes

  function Redacted(s: string, secrets: seq<string>): string {
    if secrets == [] then s
    else
      var last := secrets[|secrets| - 1];
      var r := Redacted(s, secrets[..|secrets| - 1]);
      if last == "" then r else ReplaceAll(r, last, PLACEHOLDER)
  }

  /** Replaces each configured secret in turn; an empty one is skipped. */
  method RedactSecrets(input: string, secrets: seq<string>) returns (r: string)
    ensures r == Redacted(input, secrets)
  {
    r := input;
    if r == "" {
      EmptyStays(secrets);
      return;
    }
    for i := 0 to |secrets|
      invariant r == Redacted(input, secrets[..i])
    {
      assert secrets[..i + 1][..i] == secrets[..i];
      if secrets[i] != "" {
        r := ReplaceAll(r, secrets[i], PLACEHOLDER);
      }
    }
    assert secrets[..|secrets|] == secrets;
  }

  lemma {:induction false} EmptyStays(secrets: seq<string>)
    ensures Redacted("", secrets) == ""
  {
    if secrets != [] {
      EmptyStays(secrets[..|secrets| - 1]);
    }
  }

  /** No secret is left, whatever the input: a later pass never recreates an earlier
      secret, not even across its own placeholders. */
  lemma {:induction false} RedactionComplete(input: string, secrets: seq<string>, t: string)
    requires t in secrets && t != "" && Apart(t, PLACEHOLDER)
    ensures !Contains(Redacted(input, secrets), t)
  {
    var n := |secrets| - 1;
    var last := secrets[n];
    if last != "" {
      PassRemoves(Redacted(input, secrets[..n]), last, t, PLACEHOLDER);
    }
    if t != last {
      assert secrets == secrets[..n] + [last];
      RedactionComplete(input, secrets[..n], t);
    }
  }

  /** Any of the three secrets that has the validated length and no angle bracket, whatever
      the other two are. */
  lemma ServerSecretsRedacted(input: string, hmac: string, token: string, password: string, t: string)
    requires t in [hmac, token, password] && |t| >= 16 && '<' !in t && '>' !in t
    ensures !Contains(Redacted(input, [hmac, token, password]), t)
  {
    BracketFreeApart(t);
    RedactionComplete(input, [hmac, token, password], t);
  }

  // ---------------------------------------------------------------- the exact condition

  /** The placeholder can complete the secret: at its start, or from what was copied
      before it. */
  ghost predicate Rebuilds(t: string, p: string) {
    || (exists k :: 0 < k < |p| && Clash(p[k..], t))
    || (exists k :: 0 <= k < |t| && Clash(t[k..], p) && FirstAfter(t[..k], t))
  }

  lemma {:induction false} OwnPass(s: string, t: string, i: nat, p: string)
    requires t != "" && i <= |ReplaceAll(s, t, p)| && t <= ReplaceAll(s, t, p)[i..]
    ensures Rebuilds(t, p)
    decreases |s|
  {
    var out := ReplaceAll(s, t, p);
    if i == 0 {
      assert out[0..] == out && t[0..] == t;
      if t <= s {
        PrefixesClash(t, p, ReplaceAll(s[|t|..], t, p));
        assert FirstAfter(t[..0], t);
      } else {
        var u := Copied(s, t, t, p);
        assert t[..|u|] == u;
      }
    } else if |s| < |t| {
    } else if t <= s {
      var rest := ReplaceAll(s[|t|..], t, p);
      if i < |p| {
        assert out[i..] == p[i..] + rest;
        PrefixesClash(t, p[i..], rest);
      } else {
        assert out[i..] == rest[i - |p|..];
        OwnPass(s[|t|..], t, i - |p|, p);
      }
    } else {
      assert out[i..] == ReplaceAll(s[1..], t, p)[i - 1..];
      OwnPass(s[1..], t, i - 1, p);
    }
  }

  /** What a text continues with beyond the end of another it clashes with. */
  function Beyond(a: string, b: string): (w: string)
    requires Clash(a, b)
    ensures a <= b + w && |w| <= |a|
    ensures b != "" && a != "" ==> |w| < |a|
  {
    if |a| <= |b| then "" else a[|b|..]
  }

  lemma CompletesInside(t: string, k: nat, p: string)
    requires 0 < k < |p| && t != "" && Clash(p[k..], t)
    ensures Contains(ReplaceAll(t + Beyond(t, p[k..]), t, p), t)
  {
    var w := Beyond(t, p[k..]);
    var out := p + w;
    ReplacesHead(t, w, p);
    assert out[k..] == p[k..] + w;
  }

  /** What precedes the first match is copied. */
  lemma {:induction false} CopiesUpTo(u: string, t: string, s: string, p: string)
    requires t != "" && t <= s && FirstAfter(u, t)
    ensures ReplaceAll(u + s, t, p) == u + ReplaceAll(s, t, p)
  {
    if u == "" {
      assert u + s == s;
    } else {
      hide FirstAfter;
      var rest, whole := u[1..], u + s;
      NotFoundYet(u, t, s);
      assert whole[0] == u[0] && whole[1..] == rest + s;
      CopiesUpTo(rest, t, s, p);
      HeadFirst(u, ReplaceAll(s, t, p));
    }
  }

  lemma HeadFirst(u: string, s: string)
    requires u != ""
    ensures [u[0]] + (u[1..] + s) == u + s
  {
  }

  lemma NotFoundYet(u: string, t: string, s: string)
    requires t <= s && !(t <= u + t)
    ensures !(t <= u + s)
  {
    assert u + s == u + t + s[|t|..];
    assert (u + s)[..|t|] == (u + t)[..|t|];
  }

  lemma CompletesAfter(t: string, k: nat, p: string)
    requires p != "" && k < |t| && Clash(t[k..], p) && FirstAfter(t[..k], t)
    ensures var w := Beyond(t[k..], p);
            ReplaceAll(t[..k] + (t + w), t, p) == t[..k] + (p + w) && t <= t[..k] + (p + w)
  {
    var u, v := t[..k], t[k..];
    var w := Beyond(v, p);
    ReplacesHead(t, w, p);
    CopiesUpTo(u, t, t + w, p);
    SharedStart(u, v, p + w);
    assert t == u + v;
  }

  lemma ReplacesHead(t: string, w: string, p: string)
    requires |w| < |t|
    ensures ReplaceAll(t + w, t, p) == p + w
  {
    assert (t + w)[|t|..] == w && t <= t + w;
    assert ReplaceAll(w, t, p) == w;
  }

  lemma SharedStart(a: string, b: string, c: string)
    requires b <= c
    ensures a + b <= a + c
  {
    assert c == b + c[|b|..];
    assert a + c == a + b + c[|b|..];
  }

  lemma ContainsStart(s: string, t: string)
    requires t <= s
    ensures Contains(s, t)
  {
    assert s[0..] == s;
  }

  /** A text made of the secret's own characters, and shorter than two of it. */
  predicate Within(s: string, t: string) {
    |s| < 2 * |t| && forall i :: 0 <= i < |s| ==> s[i] in t
  }

  lemma BeyondWithin(t: string, k: nat, b: string)
    requires k <= |t| && b != "" && t != "" && Clash(t[k..], b)
    ensures k < |t| ==> Within(t[..k] + (t + Beyond(t[k..], b)), t)
  {
  }

  lemma RebuiltSurvives(t: string, p: string) returns (s: string)
    requires t != "" && p != "" && Rebuilds(t, p)
    ensures Contains(ReplaceAll(s, t, p), t) && Within(s, t)
  {
    if k :| 0 < k < |p| && Clash(p[k..], t) {
      CompletesInside(t, k, p);
      s := t + Beyond(t, p[k..]);
    } else {
      var k :| 0 <= k < |t| && Clash(t[k..], p) && FirstAfter(t[..k], t);
      s := CompletedAfter(t, k, p);
    }
  }

  lemma CompletedAfter(t: string, k: nat, p: string) returns (s: string)
    requires p != "" && k < |t| && Clash(t[k..], p) && FirstAfter(t[..k], t)
    ensures Contains(ReplaceAll(s, t, p), t) && Within(s, t)
  {
    CompletesAfter(t, k, p);
    ContainsStart(t[..k] + (p + Beyond(t[k..], p)), t);
    BeyondWithin(t, k, p);
    s := t[..k] + (t + Beyond(t[k..], p));
  }

  /** Exactly when a secret can be in the output of its own pass. */
  lemma SurvivesOwnPass(t: string, p: string)
    requires t != "" && p != ""
    ensures (exists s :: Contains(ReplaceAll(s, t, p), t)) <==> Rebuilds(t, p)
  {
    if s :| Contains(ReplaceAll(s, t, p), t) {
      var i :| 0 <= i <= |ReplaceAll(s, t, p)| && t <= ReplaceAll(s, t, p)[i..];
      OwnPass(s, t, i, p);
    }
    if Rebuilds(t, p) {
      var s := RebuiltSurvives(t, p);
    }
  }

  /** The secret replaced last is gone if the placeholder cannot complete it, whatever the
      other secrets are. */
  lemma LastSecretGone(input: string, secrets: seq<string>)
    requires secrets != [] && secrets[|secrets| - 1] != "" && !Rebuilds(secrets[|secrets| - 1], PLACEHOLDER)
    ensures !Contains(Redacted(input, secrets), secrets[|secrets| - 1])
  {
    var last := secrets[|secrets| - 1];
    var r := Redacted(input, secrets[..|secrets| - 1]);
    SurvivesOwnPass(last, PLACEHOLDER);
    assert !Contains(ReplaceAll(r, last, PLACEHOLDER), last);
  }

  /** The other secret is no part of a short text in the characters of `t`. */
  predicate OutOfReach(other: string, t: string) {
    other == "" || |other| >= 2 * |t| || exists i :: 0 <= i < |other| && other[i] !in t
  }

  lemma {:induction false} PassSkips(s: string, other: string, t: string, p: string)
    requires OutOfReach(other, t) && other != "" && Within(s, t)
    ensures ReplaceAll(s, other, p) == s
  {
    if |s| >= |other| {
      assert forall i :: 0 <= i < |s| ==> s[i] in s;
      PassSkips(s[1..], other, t, p);
      assert s == [s[0]] + s[1..];
    }
  }

  lemma TwoPassesSkip(s: string, a: string, b: string, t: string)
    requires t != "" && OutOfReach(a, t) && OutOfReach(b, t) && Within(s, t)
    ensures Redacted(s, [a, b, t]) == ReplaceAll(s, t, PLACEHOLDER)
  {
    var two, one := [a, b], [a];
    assert [a, b, t][..2] == two && two[..1] == one && one[..0] == [];
    if a != "" { PassSkips(s, a, t, PLACEHOLDER); }
    assert Redacted(s, one) == s;
    if b != "" { PassSkips(s, b, t, PLACEHOLDER); }
    assert Redacted(s, two) == s;
  }

  /** Exactly when the password, which is replaced last, can come through all three passes:
      when the placeholder can complete it. Each of the other two secrets is taken to be
      twice as long, or to have a character of its own. */
  lemma PasswordExactly(hmac: string, token: string, password: string)
    requires password != "" && OutOfReach(hmac, password) && OutOfReach(token, password)
    ensures (exists s :: Contains(Redacted(s, [hmac, token, password]), password)) <==> Rebuilds(password, PLACEHOLDER)
  {
    var secrets := [hmac, token, password];
    if Rebuilds(password, PLACEHOLDER) {
      var s := RebuiltSurvives(password, PLACEHOLDER);
      TwoPassesSkip(s, hmac, token, password);
      assert Contains(Redacted(s, secrets), password);
    } else {
      forall s ensures !Contains(Redacted(s, secrets), password) {
        LastSecretGone(s, secrets);
      }
    }
  }

  /** So brackets matter to passwords that configuration accepts: one whose only `<` is at
      its end comes through this text. */
  lemma PasswordSurvives(password: string, hmac: string, token: string)
    requires |password| >= 16 && OutOfReach(hmac, password) && OutOfReach(token, password)
    requires password[|password| - 1] == '<' && '<' !in password[..|password| - 1]
    ensures Contains(Redacted(password[..|password| - 1] + password, [hmac, token, password]), password)
  {
    var k := |password| - 1;
    LastOnly(password[..k], password);
    assert password[k..] == "<" && PLACEHOLDER[..1] == "<";
    CompletesAtEnd(password, PLACEHOLDER);
    TwoPassesSkip(password[..k] + password, hmac, token, password);
  }

  /** The placeholder begins with the secret's last character. */
  lemma CompletesAtEnd(t: string, p: string)
    requires t != "" && t[|t| - 1..] <= p && FirstAfter(t[..|t| - 1], t)
    ensures Contains(ReplaceAll(t[..|t| - 1] + t, t, p), t) && Within(t[..|t| - 1] + t, t)
  {
    var k := |t| - 1;
    CompletesAfter(t, k, p);
    assert Beyond(t[k..], p) == "" && t + "" == t && p + "" == p;
    ContainsStart(t[..k] + p, t);
  }

  lemma {:induction false} LastOnly(u: string, t: string)
    requires t != "" && '<' !in u && t[|t| - 1] == '<' && '<' !in t[..|t| - 1] && |u| < |t|
    ensures FirstAfter(u, t)
  {
    if u != "" {
      assert (u + t)[|t| - 1] == t[|t| - 1 - |u|] && t[|t| - 1 - |u|] in t[..|t| - 1];
      LastOnly(u[1..], t);
    }
  }

  // ---------------------------------------------------------------- secrets that others follow

  /** The text has a character that `s` lacks. */
  predicate Alien(b: string, s: string) {
    b == "" || exists i :: 0 <= i < |b| && b[i] !in s
  }

  lemma AlienAbsent(b: string, within: string, s: string)
    requires b != "" && Alien(b, within) && forall i :: 0 <= i < |s| ==> s[i] in within
    ensures !Contains(s, b)
  {
    var k :| 0 <= k < |b| && b[k] !in within;
    forall i | 0 <= i <= |s| ensures !(b <= s[i..]) {
      assert i + k < |s| ==> s[i..][k] == s[i + k];
    }
  }

  lemma {:induction false} PassLeaves(s: string, secret: string, p: string)
    requires secret != "" && !Contains(s, secret)
    ensures ReplaceAll(s, secret, p) == s
  {
    if |s| >= |secret| {
      assert s[0..] == s;
      if Contains(s[1..], secret) { ContainsLater(s, 1, secret); }
      PassLeaves(s[1..], secret, p);
      assert s == [s[0]] + s[1..];
    }
  }

  lemma {:induction false} PassesLeave(s: string, secrets: seq<string>)
    requires forall k :: 0 <= k < |secrets| ==> secrets[k] == "" || !Contains(s, secrets[k])
    ensures Redacted(s, secrets) == s
  {
    if secrets != [] {
      var n := |secrets| - 1;
      PassesLeave(s, secrets[..n]);
      if secrets[n] != "" { PassLeaves(s, secrets[n], PLACEHOLDER); }
    }
  }

  lemma {:induction false} PassesAfter(s: string, first: seq<string>, rest: seq<string>)
    ensures Redacted(s, first + rest) == Redacted(Redacted(s, first), rest)
  {
    if rest == [] {
      assert first + rest == first;
    } else {
      var n := |rest| - 1;
      PassesAfter(s, first, rest[..n]);
      assert (first + rest)[..|first + rest| - 1] == first + rest[..n];
    }
  }

  /** The secret `c` can be laid between texts in the characters of `t` without making a `t`
      or another `c`. */
  ghost predicate Fits(c: string, t: string) {
    c != "" && c[0] !in t && c[|c| - 1] !in t && !Contains(c, t)
  }

  /** Short texts in the characters of `t` on both sides. */
  predicate Sides(u: string, w: string, t: string) {
    && |u| < |t| && |w| < |t|
    && (forall i :: 0 <= i < |u| ==> u[i] in t) && (forall i :: 0 <= i < |w| ==> w[i] in t)
  }

  lemma NotMade(u: string, c: string, w: string, t: string)
    requires Fits(c, t) && Sides(u, w, t)
    ensures !Contains(u + c + w, t)
  {
    var s := u + c + w;
    forall i | 0 <= i && i + |t| <= |s| ensures !(t <= s[i..]) {
      if i <= |u| {
        assert s[i..][|u| - i] == c[0];
      } else if i + |t| > |u| + |c| {
        assert s[i..][|u| + |c| - 1 - i] == c[|c| - 1];
      } else {
        assert !(t <= c[i - |u|..]);
        assert s[i..][..|t|] == c[i - |u|..][..|t|];
      }
    }
  }

  lemma {:induction false} NotBefore(u: string, c: string)
    requires c != "" && forall i :: 0 <= i < |u| ==> u[i] != c[0]
    ensures FirstAfter(u, c)
  {
    if u != "" {
      assert (u + c)[0] == u[0];
      NotBefore(u[1..], c);
    }
  }

  lemma OneReplaced(u: string, c: string, w: string, t: string, p: string)
    requires Fits(c, t) && Sides(u, w, t)
    ensures ReplaceAll(u + c + w, c, p) == u + p + w
  {
    NotBefore(u, c);
    CopiesUpTo(u, c, c + w, p);
    ReplacesOnce(c, w, t, p);
    hide ReplaceAll, Sides;
    Joined(u, c, w);
    Joined(u, p, w);
  }

  lemma Joined(a: string, b: string, c: string)
    ensures a + (b + c) == a + b + c
  {
  }

  lemma ReplacesOnce(c: string, w: string, t: string, p: string)
    requires Fits(c, t) && Sides("", w, t)
    ensures ReplaceAll(c + w, c, p) == p + w
  {
    forall i | 0 <= i <= |w| ensures !(c <= w[i..]) {
      assert i < |w| ==> w[i..][0] == w[i];
    }
    PassLeaves(w, c, p);
    assert (c + w)[|c|..] == w && c <= c + w;
  }

  /** The parts that the placeholder completes to `t`. */
  lemma Completed(t: string, p: string) returns (u: string, w: string)
    requires t != "" && p != "" && !Apart(t, p)
    ensures Sides(u, w, t) && Contains(u + p + w, t)
  {
    if k :| 0 <= k < |t| && Clash(t[k..], p) {
      u, w := t[..k], Beyond(t[k..], p);
      CompletedFrom(t, k, p);
    } else {
      var k :| 0 < k < |p| && Clash(p[k..], t);
      u, w := "", Beyond(t, p[k..]);
      CompletedWithin(t, k, p);
    }
  }

  lemma CompletedFrom(t: string, k: nat, p: string)
    requires k < |t| && p != "" && Clash(t[k..], p)
    ensures var u, w := t[..k], Beyond(t[k..], p); Sides(u, w, t) && Contains(u + p + w, t)
  {
    var u, w := t[..k], Beyond(t[k..], p);
    SharedStart(u, t[k..], p + w);
    assert t == u + t[k..] && u + (p + w) == u + p + w;
    ContainsStart(u + p + w, t);
  }

  lemma CompletedWithin(t: string, k: nat, p: string)
    requires t != "" && 0 < k < |p| && Clash(p[k..], t)
    ensures var w := Beyond(t, p[k..]); Sides("", w, t) && Contains("" + p + w, t)
  {
    var w := Beyond(t, p[k..]);
    assert ("" + p + w)[k..] == p[k..] + w;
  }

  /** The text goes unchanged to the secret at `j`, whose pass completes `t`, and then to the
      end. */
  lemma ComesThrough(secrets: seq<string>, j: nat, t: string, u: string, w: string)
    requires j < |secrets| && Fits(secrets[j], t) && Sides(u, w, t)
    requires forall k :: 0 <= k < j ==> secrets[k] == t || Alien(secrets[k], t + secrets[j])
    requires forall k :: j < k < |secrets| ==> Alien(secrets[k], t + PLACEHOLDER)
    ensures Redacted(u + secrets[j] + w, secrets) == u + PLACEHOLDER + w
  {
    hide Fits, Alien, Sides, ReplaceAll;
    var c := secrets[j];
    var s, r := u + c + w, u + PLACEHOLDER + w;
    var before, after := secrets[..j], secrets[j + 1..];
    forall k | 0 <= k < |before| ensures before[k] == t || Alien(before[k], t + c) {
      assert before[k] == secrets[k];
    }
    UpToLeaves(before, c, t, u, w);
    OneReplaced(u, c, w, t, PLACEHOLDER);
    forall k | 0 <= k < |after| ensures Alien(after[k], t + PLACEHOLDER) {
      assert after[k] == secrets[j + 1 + k];
    }
    FromThereLeaves(after, t, u, w);
    FittedNotEmpty(c, t);
    LastPass(s, before, c);
    assert before + [c] + after == secrets;
    PassesAfter(s, before + [c], after);
  }

  lemma FittedNotEmpty(c: string, t: string)
    requires Fits(c, t)
    ensures c != ""
  {
  }

  lemma LastPass(s: string, before: seq<string>, c: string)
    requires c != ""
    ensures Redacted(s, before + [c]) == ReplaceAll(Redacted(s, before), c, PLACEHOLDER)
  {
    assert (before + [c])[..|before|] == before;
  }

  lemma UpToLeaves(before: seq<string>, c: string, t: string, u: string, w: string)
    requires Fits(c, t) && Sides(u, w, t)
    requires forall k :: 0 <= k < |before| ==> before[k] == t || Alien(before[k], t + c)
    ensures Redacted(u + c + w, before) == u + c + w
  {
    var s := u + c + w;
    forall k | 0 <= k < |before| ensures before[k] == "" || !Contains(s, before[k]) {
      if before[k] == t {
        NotMade(u, c, w, t);
      } else if before[k] != "" {
        AlienAbsent(before[k], t + c, s);
      }
    }
    PassesLeave(s, before);
  }

  lemma FromThereLeaves(after: seq<string>, t: string, u: string, w: string)
    requires Sides(u, w, t) && forall k :: 0 <= k < |after| ==> Alien(after[k], t + PLACEHOLDER)
    ensures Redacted(u + PLACEHOLDER + w, after) == u + PLACEHOLDER + w
  {
    var r := u + PLACEHOLDER + w;
    forall k | 0 <= k < |after| ensures after[k] == "" || !Contains(r, after[k]) {
      if after[k] != "" { AlienAbsent(after[k], t + PLACEHOLDER, r); }
    }
    PassesLeave(r, after);
  }

  /** Exactly when a secret that others follow can be in the output: when some way of laying
      it over the placeholder agrees. Of the others it asks for one, replaced later, that
      can stand in its place, and that the rest do not interfere. */
  lemma ExactWhenFollowed(secrets: seq<string>, i: nat, j: nat)
    requires i < j < |secrets| && secrets[i] != "" && Fits(secrets[j], secrets[i])
    requires forall k :: 0 <= k < j && k != i ==> Alien(secrets[k], secrets[i] + secrets[j])
    requires forall k :: j < k < |secrets| ==> Alien(secrets[k], secrets[i] + PLACEHOLDER)
    ensures (exists s :: Contains(Redacted(s, secrets), secrets[i])) <==> !Apart(secrets[i], PLACEHOLDER)
  {
    var t := secrets[i];
    if Apart(t, PLACEHOLDER) {
      forall s ensures !Contains(Redacted(s, secrets), t) {
        RedactionComplete(s, secrets, t);
      }
    } else {
      var u, w := Completed(t, PLACEHOLDER);
      ComesThrough(secrets, j, t, u, w);
      assert Contains(Redacted(u + secrets[j] + w, secrets), t);
    }
  }

  /** The HMAC secret, completed where the token or the password stood. */
  lemma HmacExactly(hmac: string, token: string, password: string)
    requires hmac != ""
    requires || (Fits(token, hmac) && Alien(password, hmac + PLACEHOLDER))
             || (Fits(password, hmac) && Alien(token, hmac + password))
    ensures (exists s :: Contains(Redacted(s, [hmac, token, password]), hmac)) <==> !Apart(hmac, PLACEHOLDER)
  {
    if Fits(token, hmac) && Alien(password, hmac + PLACEHOLDER) {
      ExactWhenFollowed([hmac, token, password], 0, 1);
    } else {
      ExactWhenFollowed([hmac, token, password], 0, 2);
    }
  }

  /** The token, completed where the password stood. */
  lemma TokenExactly(hmac: string, token: string, password: string)
    requires token != "" && Fits(password, token) && Alien(hmac, token + password)
    ensures (exists s :: Contains(Redacted(s, [hmac, token, password]), token)) <==> !Apart(token, PLACEHOLDER)
  {
    ExactWhenFollowed([hmac, token, password], 1, 2);
  }
}
