/**
 The regular expressions of the application's constants, each written as an
 explicit predicate over the string that `RegExp.prototype.test` is given.
 */
module Patterns {
  import opened Chars
  import opened Decimal

  /** Number of occurrences of `c` in `s`. */
  function Count(s: string, c: char): nat
  {
    if s == [] then 0 else (if s[0] == c then 1 else 0) + Count(s[1..], c)
  }

  lemma {:induction false} CountSplit(s: string, c: char, k: nat)
    requires k <= |s|
    ensures Count(s, c) == Count(s[..k], c) + Count(s[k..], c)
  {
    if k > 0 {
      CountSplit(s[1..], c, k - 1);
      assert s[1..][..k - 1] == s[..k][1..];
      assert s[1..][k - 1..] == s[k..];
    }
  }

  lemma {:induction false} CountZero(s: string, c: char)
    ensures Count(s, c) == 0 <==> forall i :: 0 <= i < |s| ==> s[i] != c
  {
    if s != [] {
      CountZero(s[1..], c);
      assert forall i :: 1 <= i < |s| ==> s[i] == s[1..][i - 1];
    }
  }

  /** A string holding exactly one `c`, at `at`, holds it nowhere else. */
  lemma CountOne(s: string, c: char, at: nat)
    requires at < |s| && s[at] == c
    ensures Count(s, c) == 1 <==> forall j :: 0 <= j < |s| && j != at ==> s[j] != c
  {
    CountSplit(s, c, at);
    CountSplit(s[at..], c, 1);
    assert s[at..][..1] == [c];
    assert s[at..][1..] == s[at + 1..];
    CountZero(s[..at], c);
    CountZero(s[at + 1..], c);
    assert forall j :: at < j < |s| ==> s[j] == s[at + 1..][j - at - 1];
  }

  // ---------------------------------------------------------------- email

  /** `[^\s@]` */
  predicate IsEmailAtom(c: char) { !IsWs(c) && c != '@' }

  predicate AllEmailAtoms(s: string) {
    forall i :: 0 <= i < |s| ==> IsEmailAtom(s[i])
  }

  /** `s` splits at `at` and `dot` as EMAIL_REGEX requires. */
  predicate EmailSplit(s: string, at: nat, dot: nat) {
    && 0 < at && at + 1 < dot && dot + 1 < |s|
    && s[at] == '@' && s[dot] == '.'
    && AllEmailAtoms(s[..at]) && AllEmailAtoms(s[at + 1..dot]) && AllEmailAtoms(s[dot + 1..])
  }

  /** EMAIL_REGEX, `^[^\s@]+@[^\s@]+\.[^\s@]+$`, as written: the whole string
      is three non-empty runs of `[^\s@]`, the first two joined by `@` and
      the last two by `.`. */
  predicate EmailRegex(s: string) {
    exists at: nat, dot: nat | at < |s| && dot < |s| :: EmailSplit(s, at, dot)
  }

  /** The domain has a `.` that is neither its first nor its last character. */
  predicate InnerDot(d: string) {
    exists k :: 0 < k < |d| - 1 && d[k] == '.'
  }

  /** The shape of an address the application accepts: no whitespace,
      exactly one `@`, something before it, and an inner `.` after it. */
  predicate EmailShape(s: string) {
    && NoWs(s)
    && Count(s, '@') == 1
    && exists at :: 0 < at < |s| && s[at] == '@' && InnerDot(s[at + 1..])
  }

  lemma RegexSplitHasShape(s: string, at: nat, dot: nat)
    requires EmailSplit(s, at, dot)
    ensures EmailShape(s)
  {
    forall j | 0 <= j < |s|
      ensures !IsWs(s[j]) && (j != at ==> s[j] != '@')
    {
      if j < at {
        assert s[j] == s[..at][j];
      } else if at < j < dot {
        assert s[j] == s[at + 1..dot][j - at - 1];
      } else if dot < j {
        assert s[j] == s[dot + 1..][j - dot - 1];
      }
    }
    CountOne(s, '@', at);
    assert s[at + 1..][dot - at - 1] == '.';
  }

  lemma ShapeHasRegexSplit(s: string) returns (at: nat, dot: nat)
    requires EmailShape(s)
    ensures EmailSplit(s, at, dot)
  {
    at :| 0 < at < |s| && s[at] == '@' && InnerDot(s[at + 1..]);
    var d := s[at + 1..];
    var k :| 0 < k < |d| - 1 && d[k] == '.';
    dot := at + 1 + k;
    CountOne(s, '@', at);
    assert forall j :: 0 <= j < at ==> s[..at][j] == s[j];
  }

  /** The regular expression as written accepts exactly the email shape. */
  lemma EmailRegexIffShape(s: string)
    ensures EmailRegex(s) <==> EmailShape(s)
  {
    if EmailRegex(s) {
      var at: nat, dot: nat :| at < |s| && dot < |s| && EmailSplit(s, at, dot);
      RegexSplitHasShape(s, at, dot);
    }
    if EmailShape(s) {
      var at, dot := ShapeHasRegexSplit(s);
    }
  }

  /** The documented example `user@domain.com` has the email shape. */
  lemma EmailExample()
    ensures EmailShape("user@domain.com")
  {
    var s := "user@domain.com";
    assert s[..4] == "user" && s[5..11] == "domain" && s[12..] == "com";
    assert AllEmailAtoms("user");
    assert AllEmailAtoms("domain");
    assert AllEmailAtoms("com");
    assert EmailSplit(s, 4, 11);
    RegexSplitHasShape(s, 4, 11);
  }

  // ------------------------------------------------------ password classes

  /** PASSWORD_PATTERNS.UPPERCASE, `/[A-Z]/`, is found somewhere in `s`. */
  predicate HasUpper(s: string) { exists i :: 0 <= i < |s| && IsUpper(s[i]) }

  /** PASSWORD_PATTERNS.LOWERCASE, `/[a-z]/`. */
  predicate HasLower(s: string) { exists i :: 0 <= i < |s| && IsLower(s[i]) }

  /** PASSWORD_PATTERNS.NUMBER, `/[0-9]/`. */
  predicate HasDigit(s: string) { exists i :: 0 <= i < |s| && IsDigit(s[i]) }

  /** The character class of PASSWORD_PATTERNS.SPECIAL. */
  predicate IsSpecial(c: char) {
    c in "!@#$%^&*()_+-=[]{};':\"\\|,.<>/?"
  }

  /** PASSWORD_PATTERNS.SPECIAL is found somewhere in `s`. */
  predicate HasSpecial(s: string) { exists i :: 0 <= i < |s| && IsSpecial(s[i]) }

  /** Printable ASCII punctuation: everything from `!` to `~` that is not a
      letter or a digit. */
  predicate IsAsciiPunctuation(c: char) {
    ('!' <= c <= '/') || (':' <= c <= '@') || ('[' <= c <= '`') || ('{' <= c <= '~')
  }

  /** The special class is ASCII punctuation without the backtick and the
      tilde; in particular no letter, digit or whitespace is special. */
  lemma SpecialIsPunctuationButBacktickAndTilde(c: char)
    ensures IsSpecial(c) <==> IsAsciiPunctuation(c) && c != '`' && c != '~'
    ensures IsSpecial(c) ==> !IsUpper(c) && !IsLower(c) && !IsDigit(c) && !IsWs(c)
  {
  }

  // ------------------------------------------------------------ phone

  /** `[1-9]\d{1,14}`: a non-zero digit followed by one to fourteen digits. */
  predicate PhoneDigits(d: string) {
    2 <= |d| <= 15 && '1' <= d[0] <= '9' && AllDigits(d)
  }

  /** PHONE_REGEX, `^\+?[1-9]\d{1,14}$`, as written: the digits alone, or a
      `+` followed by them. */
  predicate PhoneRegex(s: string) {
    || PhoneDigits(s)
    || (|s| > 0 && s[0] == '+' && PhoneDigits(s[1..]))
  }

  /** The decimal notations PHONE_REGEX is about. */
  predicate E164Notation(s: string, n: nat) {
    10 <= n < Pow10(15) && (s == NatToDecimal(n) || s == "+" + NatToDecimal(n))
  }

  lemma PhoneHasE164Number(s: string) returns (n: nat)
    requires PhoneRegex(s)
    ensures E164Notation(s, n)
  {
    var d := if PhoneDigits(s) then s else s[1..];
    assert PhoneDigits(d);
    DecimalOfValue(d);
    ValueBounds(d);
    Pow10Monotone(1, |d| - 1);
    Pow10Monotone(|d|, 15);
    n := Value(d);
  }

  lemma E164NumberIsPhone(s: string, n: nat)
    requires E164Notation(s, n)
    ensures PhoneRegex(s)
  {
    var r := NatToDecimal(n);
    DecimalLength(n);
    if |r| > 15 {
      Pow10Monotone(15, |r| - 1);
    }
    assert PhoneDigits(r);
    if s != r {
      assert s[1..] == r;
    }
  }

  /** PHONE_REGEX accepts exactly the decimal notation of a number from 10
      up to (but excluding) 10^15, with or without a leading `+`: two to
      fifteen significant digits, the bound of ITU-T E.164. */
  lemma PhoneIffE164Number(s: string)
    ensures PhoneRegex(s) <==> exists n: nat :: E164Notation(s, n)
  {
    if PhoneRegex(s) {
      var n := PhoneHasE164Number(s);
    }
    if exists n: nat :: E164Notation(s, n) {
      var n: nat :| E164Notation(s, n);
      E164NumberIsPhone(s, n);
    }
  }

  // ---------------------------------------- numbers only, alphanumeric

  /** NUMBERS_ONLY_REGEX, `^\d+$`. */
  predicate NumbersOnlyRegex(s: string) {
    |s| > 0 && AllDigits(s)
  }

  /** `[a-zA-Z0-9\s]` */
  predicate IsAlphanumericOrSpace(c: char) {
    IsUpper(c) || IsLower(c) || IsDigit(c) || IsWs(c)
  }

  /** ALPHANUMERIC_SPACE_REGEX, `^[a-zA-Z0-9\s]+$`. */
  predicate AlphanumericSpaceRegex(s: string) {
    |s| > 0 && forall i :: 0 <= i < |s| ==> IsAlphanumericOrSpace(s[i])
  }

  /** Every string NUMBERS_ONLY accepts is also ALPHANUMERIC_SPACE, no
      ALPHANUMERIC_SPACE string holds a special character, and a phone
      number written without `+` is NUMBERS_ONLY. */
  lemma NumbersOnlyRelations(s: string)
    ensures NumbersOnlyRegex(s) ==> AlphanumericSpaceRegex(s)
    ensures AlphanumericSpaceRegex(s) ==> !HasSpecial(s)
    ensures PhoneRegex(s) && s[0] != '+' ==> NumbersOnlyRegex(s)
  {
    if AlphanumericSpaceRegex(s) {
      forall i | 0 <= i < |s| ensures !IsSpecial(s[i]) {
        SpecialIsPunctuationButBacktickAndTilde(s[i]);
      }
    }
  }

  /** Every decimal notation passes NUMBERS_ONLY and reads back to its number. */
  lemma NumbersOnlyOfDecimal(n: nat)
    ensures NumbersOnlyRegex(NatToDecimal(n)) && Value(NatToDecimal(n)) == n
  {
    NatToDecimalRoundTrip(n);
  }
}
