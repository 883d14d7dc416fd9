/**
 Character classes shared by the regular expressions and the validators.
 A JavaScript string is modelled as `seq<char>`; JavaScript counts UTF-16
 code units where Dafny counts Unicode scalar values.
 */
module Chars {

  /** The set matched by `\s` in a JavaScript regular expression, which is
      also the set `String.prototype.trim` strips: ECMAScript WhiteSpace
      (TAB, VT, FF, SP, NBSP, ZWNBSP and the Zs category) plus LineTerminator
      (LF, CR, LS, PS). */
  predicate IsWs(c: char) {
    || c == '\t' || c == '\n' || c == '\U{000B}' || c == '\U{000C}' || c == '\r'
    || c == ' ' || c == '\U{00A0}' || c == '\U{1680}'
    || ('\U{2000}' <= c <= '\U{200A}')
    || c == '\U{2028}' || c == '\U{2029}' || c == '\U{202F}' || c == '\U{205F}'
    || c == '\U{3000}' || c == '\U{FEFF}'
  }

  /** `[0-9]`, which is also what `\d` means. */
  predicate IsDigit(c: char) { '0' <= c <= '9' }

  /** `[A-Z]` */
  predicate IsUpper(c: char) { 'A' <= c <= 'Z' }

  /** `[a-z]` */
  predicate IsLower(c: char) { 'a' <= c <= 'z' }

  /** Every character of `s` is whitespace: the empty string counts. */
  predicate Blank(s: string) {
    forall i :: 0 <= i < |s| ==> IsWs(s[i])
  }

  /** No character of `s` is whitespace. */
  predicate NoWs(s: string) {
    forall i :: 0 <= i < |s| ==> !IsWs(s[i])
  }

  predicate AllDigits(s: string) {
    forall i :: 0 <= i < |s| ==> IsDigit(s[i])
  }

  /** Index of the first non-whitespace character of `s` at or after `i`,
      or `|s|` when there is none. */
  function SkipWs(s: string, i: nat): (k: nat)
    requires i <= |s|
    ensures i <= k <= |s|
    ensures forall j :: i <= j < k ==> IsWs(s[j])
    ensures k == |s| || !IsWs(s[k])
    decreases |s| - i
  {
    if i == |s| || !IsWs(s[i]) then i else SkipWs(s, i + 1)
  }

  /** One past the last non-whitespace character of `s[..i]`, or 0 when
      there is none. */
  function SkipWsBack(s: string, i: nat): (k: nat)
    requires i <= |s|
    ensures k <= i
    ensures forall j :: k <= j < i ==> IsWs(s[j])
    ensures k == 0 || !IsWs(s[k - 1])
  {
    if i == 0 || !IsWs(s[i - 1]) then i else SkipWsBack(s, i - 1)
  }

  /** `r` is `s` with the blank prefix `s[..lo]` and a blank suffix removed. */
  predicate StripsTo(s: string, lo: nat, r: string) {
    && lo + |r| <= |s| && r == s[lo..lo + |r|]
    && Blank(s[..lo]) && Blank(s[lo + |r|..])
  }

  /** `String.prototype.trim`: the result is empty exactly when `s` is blank,
      and otherwise neither starts nor ends with whitespace. */
  function Trim(s: string): (r: string)
    ensures |r| <= |s|
    ensures r == [] <==> Blank(s)
    ensures r == [] || (!IsWs(r[0]) && !IsWs(r[|r| - 1]))
    ensures exists lo: nat :: StripsTo(s, lo, r)
  {
    var lo := SkipWs(s, 0);
    var hi := SkipWsBack(s, |s|);
    assert forall j :: 0 <= j < lo ==> s[..lo][j] == s[j];
    assert forall j :: hi <= j < |s| ==> s[hi..][j - hi] == s[j];
    if lo == |s| then
      assert s[lo..] == [];
      assert StripsTo(s, lo, []);
      []
    else
      assert lo < hi by {
        if hi <= lo {
          assert false;
        }
      }
      assert StripsTo(s, lo, s[lo..hi]);
      s[lo..hi]
  }
}
