/**
 The field validators: email, password (with a strength score), required
 field and minimum length. Each returns the `{ isValid, message? }` record
 the forms display.
 */
module Rules {
  import opened Nullable
  import opened Chars
  import opened Decimal
  import opened Patterns

  datatype Strength = Weak | Medium | Strong

  /** Strength as a number, for comparing two strengths. */
  function Rank(st: Strength): nat {
    match st
    case Weak => 0
    case Medium => 1
    case Strong => 2
  }

  /** Result of the email, required-field and minimum-length validators. */
  datatype Validation = Validation(isValid: bool, message: Option<string>)

  /** Result of the password validator. The field is optional in the record
      type, but every branch of the validator sets it. */
  datatype PasswordValidation = PasswordValidation(isValid: bool, message: Option<string>, strength: Strength)

  const EMAIL_REQUIRED := "Email is required"
  const EMAIL_INVALID := "Invalid email format"
  const PASSWORD_TOO_SHORT := "Password must be at least 8 characters"
  const PASSWORD_WEAK := "Password is weak. Add uppercase, numbers, and special characters."
  const MIN_PASSWORD_LENGTH := 8

  // ------------------------------------------------------------ email

  /** validateEmail: a blank address is reported as missing before its
      format is looked at; a non-blank one is valid exactly when it has the
      email shape. */
  function ValidateEmail(email: string): (r: Validation)
    ensures r.isValid <==> r.message.None?
    ensures Blank(email) <==> r == Validation(false, Some(EMAIL_REQUIRED))
    ensures !Blank(email) ==> (r.isValid <==> EmailShape(email))
    ensures !Blank(email) && !EmailShape(email) ==> r == Validation(false, Some(EMAIL_INVALID))
  {
    EmailRegexIffShape(email);
    if email == "" || Trim(email) == "" then Validation(false, Some(EMAIL_REQUIRED))
    else if !EmailRegex(email) then Validation(false, Some(EMAIL_INVALID))
    else Validation(true, None)
  }

  // --------------------------------------------------------- password

  /** The four character classes PASSWORD_PATTERNS tests for. */
  datatype CharClass = Upper | Lower | Digit | Special

  predicate Present(s: string, k: CharClass) {
    match k
    case Upper => HasUpper(s)
    case Lower => HasLower(s)
    case Digit => HasDigit(s)
    case Special => HasSpecial(s)
  }

  /** The classes that occur in `s`. */
  ghost function ClassesIn(s: string): set<CharClass> {
    set k | k in {Upper, Lower, Digit, Special} && Present(s, k)
  }

  /** strengthScore: one point per pattern the password matches. */
  function Score(pw: string): nat {
    (if HasUpper(pw) then 1 else 0) + (if HasLower(pw) then 1 else 0)
    + (if HasDigit(pw) then 1 else 0) + (if HasSpecial(pw) then 1 else 0)
  }

  /** The set of classes named by four flags. */
  function ClassSet(upper: bool, lower: bool, digit: bool, special: bool): (r: set<CharClass>)
    ensures Upper in r <==> upper
    ensures Lower in r <==> lower
    ensures Digit in r <==> digit
    ensures Special in r <==> special
  {
    (if upper then {Upper} else {}) + (if lower then {Lower} else {})
    + (if digit then {Digit} else {}) + (if special then {Special} else {})
  }

  lemma ClassSetSize(upper: bool, lower: bool, digit: bool, special: bool)
    ensures |ClassSet(upper, lower, digit, special)|
      == (if upper then 1 else 0) + (if lower then 1 else 0) + (if digit then 1 else 0) + (if special then 1 else 0)
  {
    var u := if upper then {Upper} else {};
    var l := if lower then {Lower} else {};
    var d := if digit then {Digit} else {};
    var p := if special then {Special} else {};
    assert |u + l| == |u| + |l|;
    assert |u + l + d| == |u + l| + |d|;
    assert |u + l + d + p| == |u + l + d| + |p|;
  }

  lemma ClassesInIsClassSet(s: string)
    ensures ClassesIn(s) == ClassSet(HasUpper(s), HasLower(s), HasDigit(s), HasSpecial(s))
  {
    var c := ClassSet(HasUpper(s), HasLower(s), HasDigit(s), HasSpecial(s));
    forall k ensures k in ClassesIn(s) <==> k in c {
      match k
      case Upper => assert k in ClassesIn(s) <==> HasUpper(s);
      case Lower => assert k in ClassesIn(s) <==> HasLower(s);
      case Digit => assert k in ClassesIn(s) <==> HasDigit(s);
      case Special => assert k in ClassesIn(s) <==> HasSpecial(s);
    }
  }

  lemma ScoreCountsClasses(s: string)
    ensures Score(s) == |ClassesIn(s)|
  {
    ClassesInIsClassSet(s);
    ClassSetSize(HasUpper(s), HasLower(s), HasDigit(s), HasSpecial(s));
  }

  /** validatePassword: a password shorter than eight characters is
      rejected as weak; any longer one is accepted, rated strong with three
      or more character classes, medium with two and weak with fewer, and
      carries an advisory message exactly when it is weak. */
  function ValidatePassword(pw: string): (r: PasswordValidation)
    ensures r.isValid <==> |pw| >= MIN_PASSWORD_LENGTH
    ensures !r.isValid ==> r == PasswordValidation(false, Some(PASSWORD_TOO_SHORT), Weak)
    ensures r.isValid ==> (r.message.Some? <==> r.strength == Weak)
    ensures r.isValid && r.message.Some? ==> r.message.value == PASSWORD_WEAK
    ensures r.isValid ==> (r.strength == Strong <==> |ClassesIn(pw)| >= 3)
    ensures r.isValid ==> (r.strength == Medium <==> |ClassesIn(pw)| == 2)
    ensures r.isValid ==> (r.strength == Weak <==> |ClassesIn(pw)| <= 1)
  {
    if pw == "" || |pw| < MIN_PASSWORD_LENGTH then
      PasswordValidation(false, Some(PASSWORD_TOO_SHORT), Weak)
    else
      var score := Score(pw);
      ScoreCountsClasses(pw);
      var strength := if score >= 3 then Strong else if score >= 2 then Medium else Weak;
      PasswordValidation(true, if strength == Weak then Some(PASSWORD_WEAK) else None, strength)
  }

  /** Inserting `c` at `k` shifts the characters from `k` on by one. */
  lemma InsertIndex(s: string, k: nat, c: char, i: nat) returns (j: nat)
    requires k <= |s| && i < |s|
    ensures j < |s[..k] + [c] + s[k..]| && (s[..k] + [c] + s[k..])[j] == s[i]
  {
    j := if i < k then i else i + 1;
  }

  /** Inserting a character keeps one class present. */
  lemma InsertKeepsClass(s: string, k: nat, c: char, cls: CharClass)
    requires k <= |s|
    ensures Present(s, cls) ==> Present(s[..k] + [c] + s[k..], cls)
  {
    var t := s[..k] + [c] + s[k..];
    match cls
    case Upper =>
      if HasUpper(s) {
        var i :| 0 <= i < |s| && IsUpper(s[i]);
        var j := InsertIndex(s, k, c, i);
        assert IsUpper(t[j]);
      }
    case Lower =>
      if HasLower(s) {
        var i :| 0 <= i < |s| && IsLower(s[i]);
        var j := InsertIndex(s, k, c, i);
        assert IsLower(t[j]);
      }
    case Digit =>
      if HasDigit(s) {
        var i :| 0 <= i < |s| && IsDigit(s[i]);
        var j := InsertIndex(s, k, c, i);
        assert IsDigit(t[j]);
      }
    case Special =>
      if HasSpecial(s) {
        var i :| 0 <= i < |s| && IsSpecial(s[i]);
        var j := InsertIndex(s, k, c, i);
        assert IsSpecial(t[j]);
      }
  }

  /** Inserting a character anywhere keeps every class that was present. */
  lemma InsertKeepsClasses(s: string, k: nat, c: char)
    requires k <= |s|
    ensures ClassesIn(s) <= ClassesIn(s[..k] + [c] + s[k..])
  {
    forall cls | cls in ClassesIn(s)
      ensures cls in ClassesIn(s[..k] + [c] + s[k..])
    {
      InsertKeepsClass(s, k, c, cls);
    }
  }

  /** Adding a character never lowers the strength. */
  lemma StrengthMonotone(s: string, k: nat, c: char)
    requires k <= |s|
    ensures Rank(ValidatePassword(s).strength) <= Rank(ValidatePassword(s[..k] + [c] + s[k..]).strength)
  {
    var t := s[..k] + [c] + s[k..];
    InsertKeepsClasses(s, k, c);
    assert |ClassesIn(s)| <= |ClassesIn(t)| by {
      assert ClassesIn(t) == ClassesIn(s) + (ClassesIn(t) - ClassesIn(s));
    }
  }

  /** The documented example: `MyP@ssw0rd` is strong. */
  lemma StrongExample()
    ensures ValidatePassword("MyP@ssw0rd") == PasswordValidation(true, None, Strong)
  {
    var pw := "MyP@ssw0rd";
    assert pw[0] == 'M' && pw[1] == 'y' && pw[3] == '@' && pw[7] == '0';
    assert IsSpecial('@');
    assert HasUpper(pw) && HasLower(pw) && HasSpecial(pw) && HasDigit(pw);
    assert Score(pw) == 4;
  }

  // -------------------------------------------- required, minimum length

  /** validateRequired: invalid, naming the field, exactly when the value
      is blank. */
  function ValidateRequired(value: string, fieldName: string): (r: Validation)
    ensures r.isValid <==> !Blank(value)
    ensures r.isValid ==> r.message.None?
    ensures !r.isValid ==> r.message == Some(fieldName + " is required")
  {
    if value == "" || Trim(value) == "" then Validation(false, Some(fieldName + " is required"))
    else Validation(true, None)
  }

  /** validateMinLength: invalid exactly when the value is shorter than the
      minimum, counting every character (nothing is trimmed). */
  function ValidateMinLength(value: string, minLength: int, fieldName: string): (r: Validation)
    ensures r.isValid <==> |value| >= minLength
    ensures r.isValid ==> r.message.None?
    ensures !r.isValid ==> r.message == Some(fieldName + " must be at least " + IntToDecimal(minLength) + " characters")
  {
    if |value| < minLength then
      Validation(false, Some(fieldName + " must be at least " + IntToDecimal(minLength) + " characters"))
    else Validation(true, None)
  }

  /** The minimum-length verdict depends on the length alone: a blank value
      long enough passes, although the required-field rule rejects it. */
  lemma MinLengthIgnoresContent(v: string, w: string, minLength: int, fieldName: string)
    requires |v| == |w|
    ensures ValidateMinLength(v, minLength, fieldName) == ValidateMinLength(w, minLength, fieldName)
    ensures Blank(v) && |v| >= minLength ==>
      ValidateMinLength(v, minLength, fieldName).isValid && !ValidateRequired(v, fieldName).isValid
  {
  }

  /** The password validator's verdict is the minimum-length rule with the
      bound eight. */
  lemma PasswordIsMinLengthEight(pw: string, fieldName: string)
    ensures ValidatePassword(pw).isValid == ValidateMinLength(pw, MIN_PASSWORD_LENGTH, fieldName).isValid
  {
  }
}
