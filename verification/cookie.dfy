/**
 Reading the auth token out of a raw `Cookie` header with the pattern
 `(^| )auth_token=([^;]+)`, as `String.prototype.match` does: the leftmost
 position where the pattern matches wins, and the value is the longest run
 of characters other than `;` after the key. This is not the cookie grammar
 of section 4.2.1 of RFC 6265 (no trimming, no quoting, no `; ` separator
 required before the key).
 */
module Cookie {
  import opened Nullable

  const AUTH_TOKEN_KEY := "auth_token"

  /** The literal text the pattern needs after its anchor. */
  const KEY_EQ := AUTH_TOKEN_KEY + "="

  /** The facts about the key text the proofs below rely on. */
  lemma KeyFacts()
    ensures |KEY_EQ| == 11
    ensures forall j :: 0 <= j < |KEY_EQ| ==> KEY_EQ[j] != ';' && KEY_EQ[j] != ' '
    ensures KEY_EQ[0] == 'a'
  {
  }

  /** `auth_token=` occurs in `s` at `i`. */
  predicate KeyAt(s: string, i: nat) {
    i + |KEY_EQ| <= |s| && s[i..i + |KEY_EQ|] == KEY_EQ
  }

  /** The first alternative, `^`, matches at `p`: the key opens the string
      and at least one value character (not `;`) follows it. */
  predicate AnchorMatch(s: string, p: nat) {
    p == 0 && KeyAt(s, 0) && |KEY_EQ| < |s| && s[|KEY_EQ|] != ';'
  }

  /** The second alternative, a space, matches at `p`. */
  predicate SpaceMatch(s: string, p: nat) {
    && p < |s| && s[p] == ' ' && KeyAt(s, p + 1)
    && p + 1 + |KEY_EQ| < |s| && s[p + 1 + |KEY_EQ|] != ';'
  }

  /** The whole pattern matches starting at `p`. */
  predicate MatchAt(s: string, p: nat) {
    AnchorMatch(s, p) || SpaceMatch(s, p)
  }

  /** Where the captured value starts for a match at `p`; the anchor
      alternative is tried first. */
  function ValueStart(s: string, p: nat): nat
    requires MatchAt(s, p)
  {
    if AnchorMatch(s, p) then |KEY_EQ| else p + 1 + |KEY_EQ|
  }

  /** The group `([^;]+)`, taken greedily from `i`: the longest run of
      characters other than `;` that starts there. */
  function RunFrom(s: string, i: nat): (r: string)
    requires i <= |s|
    ensures i + |r| <= |s| && r == s[i..i + |r|]
    ensures forall j :: 0 <= j < |r| ==> r[j] != ';'
    ensures i + |r| == |s| || s[i + |r|] == ';'
    decreases |s| - i
  {
    if i == |s| || s[i] == ';' then [] else [s[i]] + RunFrom(s, i + 1)
  }

  /** The longest run is unique: any `;`-free stretch from `i` that ends at
      a `;` or at the end of the string is it. */
  lemma RunFromIs(s: string, i: nat, t: string)
    requires i + |t| <= |s| && s[i..i + |t|] == t
    requires forall j :: 0 <= j < |t| ==> t[j] != ';'
    requires i + |t| == |s| || s[i + |t|] == ';'
    ensures RunFrom(s, i) == t
  {
    var r := RunFrom(s, i);
    assert |r| == |t|;
  }

  /** The leftmost position at or after `from` where the pattern matches. */
  function FirstMatch(s: string, from: nat): (r: Option<nat>)
    requires from <= |s|
    ensures r.Some? ==> from <= r.value < |s| && MatchAt(s, r.value)
    ensures forall q :: from <= q < |s| && (r.None? || q < r.value) ==> !MatchAt(s, q)
    decreases |s| - from
  {
    if from == |s| then None
    else if MatchAt(s, from) then Some(from)
    else FirstMatch(s, from + 1)
  }

  /** `p` is where `String.prototype.match` reports the match. */
  ghost predicate IsLeftmostMatch(s: string, p: nat) {
    p < |s| && MatchAt(s, p) && forall q :: 0 <= q < p ==> !MatchAt(s, q)
  }

  /** parseAuthTokenFromCookie: no token for a missing or empty header;
      otherwise a token exactly when the pattern matches somewhere, and
      then the value captured at the leftmost match, which is non-empty and
      free of `;`. */
  function ParseAuthTokenFromCookie(cookie: Option<string>): (r: Option<string>)
    ensures cookie.None? || cookie == Some("") ==> r.None?
    ensures r.Some? ==> |r.value| > 0 && forall j :: 0 <= j < |r.value| ==> r.value[j] != ';'
    ensures cookie.Some? ==>
      (r.Some? <==> exists p: nat :: p < |cookie.value| && MatchAt(cookie.value, p))
    ensures cookie.Some? ==> forall p: nat :: IsLeftmostMatch(cookie.value, p) ==>
      r == Some(RunFrom(cookie.value, ValueStart(cookie.value, p)))
  {
    if cookie.None? || cookie.value == "" then None
    else
      var s := cookie.value;
      match FirstMatch(s, 0)
      case None => None
      case Some(p) =>
        Some(RunFrom(s, ValueStart(s, p)))
  }

  /** A header that is just `auth_token=<t>` yields `t`. */
  lemma RoundTripAlone(t: string)
    requires |t| > 0 && forall j :: 0 <= j < |t| ==> t[j] != ';'
    ensures ParseAuthTokenFromCookie(Some(KEY_EQ + t)) == Some(t)
  {
    var s := KEY_EQ + t;
    assert s[..|KEY_EQ|] == KEY_EQ;
    assert s[|KEY_EQ|] == t[0];
    assert IsLeftmostMatch(s, 0);
    assert s[|KEY_EQ|..|KEY_EQ| + |t|] == t;
    RunFromIs(s, |KEY_EQ|, t);
  }

  /** A match inside `p` of `p + tail`, where `tail` opens with `;`, is a
      match of `p` alone: neither the key nor the first value character can
      lie on that `;`. */
  lemma MatchStaysInPrefix(p: string, tail: string, q: nat)
    requires |tail| > 0 && tail[0] == ';'
    requires q < |p| && MatchAt(p + tail, q)
    ensures MatchAt(p, q)
  {
    var s := p + tail;
    KeyFacts();
    var k := if AnchorMatch(s, q) then 0 else q + 1;
    assert KeyAt(s, k);
    assert forall j :: k <= j < k + |KEY_EQ| ==> s[j] == KEY_EQ[j - k];
    assert s[|p|] == ';';
    assert |p| >= k + |KEY_EQ|;
    assert s[k + |KEY_EQ|] != ';';
    assert s[..|p|] == p;
    assert p[k..k + |KEY_EQ|] == s[k..k + |KEY_EQ|];
  }

  /** A header `p; auth_token=<t>` followed by nothing or by `;...` yields
      `t`, provided `p` has no match of its own. */
  lemma RoundTripAfter(p: string, t: string, rest: string)
    requires forall q: nat :: q < |p| ==> !MatchAt(p, q)
    requires |t| > 0 && forall j :: 0 <= j < |t| ==> t[j] != ';'
    requires rest == [] || rest[0] == ';'
    ensures ParseAuthTokenFromCookie(Some(p + "; " + KEY_EQ + t + rest)) == Some(t)
  {
    var s := p + "; " + KEY_EQ + t + rest;
    var tail := "; " + KEY_EQ + t + rest;
    assert s == p + tail;
    KeyFacts();
    var m := |p| + 1;
    var vs := m + 1 + |KEY_EQ|;
    assert s[m] == ' ';
    assert s[m + 1..m + 1 + |KEY_EQ|] == KEY_EQ;
    assert s[vs] == t[0];
    assert SpaceMatch(s, m);
    forall q: nat | q < m
      ensures !MatchAt(s, q)
    {
      if q < |p| {
        if MatchAt(s, q) {
          MatchStaysInPrefix(p, tail, q);
        }
      } else {
        assert s[q] == ';';
      }
    }
    assert IsLeftmostMatch(s, m);
    assert !AnchorMatch(s, m);
    assert s[vs..vs + |t|] == t;
    RunFromIs(s, vs, t);
  }

  /** Without a space anywhere and without the key at the very start, the
      key is never found: it is not matched in the middle of a name or
      straight after a `;`. */
  lemma NoSpaceNoToken(s: string)
    requires !KeyAt(s, 0)
    requires forall i :: 0 <= i < |s| ==> s[i] != ' '
    ensures ParseAuthTokenFromCookie(Some(s)) == None
  {
  }

  lemma KeyInsideNameIsNotFound()
    ensures ParseAuthTokenFromCookie(Some("my_auth_token=x")) == None
    ensures ParseAuthTokenFromCookie(Some("a=b;auth_token=x")) == None
  {
    var a := "my_auth_token=x";
    var b := "a=b;auth_token=x";
    assert a[0] != KEY_EQ[0] && b[1] != KEY_EQ[1];
    assert a[..|KEY_EQ|][0] == a[0] && b[..|KEY_EQ|][1] == b[1];
    NoSpaceNoToken(a);
    NoSpaceNoToken(b);
  }

  /** An empty value does not stop the search: the next occurrence with a
      value wins. */
  lemma EmptyValueSkipped()
    ensures ParseAuthTokenFromCookie(Some("auth_token=; auth_token=abc")) == Some("abc")
  {
    var p := "auth_token=";
    assert p + "; " + KEY_EQ + "abc" + "" == "auth_token=; auth_token=abc";
    KeyAloneHasNoMatch();
    RoundTripAfter(p, "abc", "");
  }

  /** The key with nothing after it is not a match: `[^;]+` needs a
      character. */
  lemma KeyAloneHasNoMatch()
    ensures forall q: nat :: q < |KEY_EQ| ==> !MatchAt(KEY_EQ, q)
  {
    KeyFacts();
  }
}
