/**
 The decision logic of the registration page: the server-side form action,
 the per-field error record built on submit with its gate in front of the
 `register` call, and the field-update handler.
 */
module Register {
  import opened Nullable
  import opened Chars
  import opened Patterns
  import opened Rules

  const NAME_REQUIRED := "Name is required"
  const PASSWORDS_DIFFER := "Passwords do not match"
  const REGISTRATION_FAILED := "Registration failed"

  // ----------------------------------------------------- server action

  /** The server-side `action`: the email is checked first, then the
      password; the result is the first error message, or none. A field
      missing from the submitted form (`null`) is treated as the validators
      treat it, like the empty string. The name is not checked. */
  function RegisterAction(email: Option<string>, password: Option<string>, name: Option<string>): (r: Option<string>)
    ensures var e := email.GetOr(""); Blank(e) ==> r == Some(EMAIL_REQUIRED)
    ensures var e := email.GetOr(""); !Blank(e) && !EmailShape(e) ==> r == Some(EMAIL_INVALID)
    ensures var e, p := email.GetOr(""), password.GetOr("");
      EmailShape(e) && |p| < MIN_PASSWORD_LENGTH ==> r == Some(PASSWORD_TOO_SHORT)
    ensures var e, p := email.GetOr(""), password.GetOr("");
      r.None? <==> EmailShape(e) && |p| >= MIN_PASSWORD_LENGTH
  {
    var emailValidation := ValidateEmail(email.GetOr(""));
    if !emailValidation.isValid then emailValidation.message
    else
      var passwordValidation := ValidatePassword(password.GetOr(""));
      if !passwordValidation.isValid then passwordValidation.message
      else None
  }

  // --------------------------------------------------------- page state

  datatype Field = NameField | EmailField | PasswordField | ConfirmPasswordField

  datatype FormData = FormData(name: string, email: string, password: string, confirmPassword: string)

  /** One message per field plus a general one; "" means no error. */
  datatype Errors = Errors(name: string, email: string, password: string, confirmPassword: string, general: string)

  const NoErrors := Errors("", "", "", "", "")

  datatype Page = Page(form: FormData, errors: Errors, passwordStrength: Strength)

  /** The page's starting `useState` values: an empty form, no errors, a
      weak strength meter. */
  const InitialPage := Page(FormData("", "", "", ""), NoErrors, Weak)

  function Get(form: FormData, field: Field): string {
    match field
    case NameField => form.name
    case EmailField => form.email
    case PasswordField => form.password
    case ConfirmPasswordField => form.confirmPassword
  }

  function ErrorOf(errors: Errors, field: Field): string {
    match field
    case NameField => errors.name
    case EmailField => errors.email
    case PasswordField => errors.password
    case ConfirmPasswordField => errors.confirmPassword
  }

  /** handleChange: the edited field takes the new value, its error and the
      general error are cleared, and the strength meter follows the password
      field only; everything else is left as it was. */
  function HandleChange(page: Page, field: Field, value: string): (r: Page)
    ensures Get(r.form, field) == value
    ensures forall g :: g != field ==> Get(r.form, g) == Get(page.form, g)
    ensures ErrorOf(r.errors, field) == "" && r.errors.general == ""
    ensures forall g :: g != field ==> ErrorOf(r.errors, g) == ErrorOf(page.errors, g)
    ensures field == PasswordField ==> r.passwordStrength == ValidatePassword(value).strength
    ensures field != PasswordField ==> r.passwordStrength == page.passwordStrength
  {
    var f := page.form;
    var e := page.errors.(general := "");
    match field
    case NameField => page.(form := f.(name := value), errors := e.(name := ""))
    case EmailField => page.(form := f.(email := value), errors := e.(email := ""))
    case PasswordField =>
      Page(f.(password := value), e.(password := ""), ValidatePassword(value).strength)
    case ConfirmPasswordField =>
      page.(form := f.(confirmPassword := value), errors := e.(confirmPassword := ""))
  }

  // ------------------------------------------------------------ submit

  /** The name error of handleSubmit: the required-field message when the
      name is blank. */
  function NameError(name: string): (m: string)
    ensures m == (if Blank(name) then NAME_REQUIRED else "")
  {
    var v := ValidateRequired(name, "Name");
    assert v.isValid <==> !Blank(name);
    if !v.isValid then v.message.GetOr("") else ""
  }

  /** The email error of handleSubmit: missing before malformed. */
  function EmailError(email: string): (m: string)
    ensures m == (if Blank(email) then EMAIL_REQUIRED else if !EmailShape(email) then EMAIL_INVALID else "")
  {
    var v := ValidateEmail(email);
    if !v.isValid then v.message.GetOr("") else ""
  }

  /** The password error of handleSubmit: only the length gate; a weak
      password gives no error. */
  function PasswordError(password: string): (m: string)
    ensures m == (if |password| < MIN_PASSWORD_LENGTH then PASSWORD_TOO_SHORT else "")
  {
    var v := ValidatePassword(password);
    if !v.isValid then v.message.GetOr("") else ""
  }

  /** The error record `handleSubmit` builds: each field's error comes from
      its own rule, the confirmation is compared exactly (no trimming), and
      the general error starts empty. */
  function SubmitErrors(form: FormData): (e: Errors)
    ensures e.name == (if Blank(form.name) then NAME_REQUIRED else "")
    ensures e.email == (if Blank(form.email) then EMAIL_REQUIRED
                        else if !EmailShape(form.email) then EMAIL_INVALID else "")
    ensures e.password == (if |form.password| < MIN_PASSWORD_LENGTH then PASSWORD_TOO_SHORT else "")
    ensures e.confirmPassword == (if form.password != form.confirmPassword then PASSWORDS_DIFFER else "")
    ensures e.general == ""
  {
    Errors(
      NameError(form.name),
      EmailError(form.email),
      PasswordError(form.password),
      if form.password != form.confirmPassword then PASSWORDS_DIFFER else "",
      "")
  }

  /** `Object.values(errors).some(err => err !== "")` */
  predicate HasErrors(e: Errors) {
    e.name != "" || e.email != "" || e.password != "" || e.confirmPassword != "" || e.general != ""
  }

  datatype RegisterRequest = RegisterRequest(email: string, password: string, name: string)

  /** What submitting does: either the page shows the new errors and nothing
      is sent, or `register` is called with the form's values. */
  datatype SubmitOutcome = Rejected(page: Page) | Submitted(request: RegisterRequest)

  /** handleSubmit: `register` is called exactly when the name is not blank,
      the email has the email shape, the password has at least eight
      characters and the confirmation equals it; the password's strength
      plays no part. */
  function HandleSubmit(page: Page): (r: SubmitOutcome)
    ensures var f := page.form;
      r.Submitted? <==>
        !Blank(f.name) && EmailShape(f.email) && |f.password| >= MIN_PASSWORD_LENGTH && f.password == f.confirmPassword
    ensures r.Submitted? ==> r.request == RegisterRequest(page.form.email, page.form.password, page.form.name)
    ensures r.Rejected? ==> r.page == page.(errors := SubmitErrors(page.form))
  {
    var newErrors := SubmitErrors(page.form);
    if HasErrors(newErrors) then Rejected(page.(errors := newErrors))
    else Submitted(RegisterRequest(page.form.email, page.form.password, page.form.name))
  }

  /** The `catch` of handleSubmit: the general error shows the thrown
      error's message, or a fixed text when what was thrown is not an
      `Error`; the rest of the page is kept. */
  function RegisterFailed(page: Page, thrownMessage: Option<string>): (r: Page)
    ensures r.errors.general == thrownMessage.GetOr(REGISTRATION_FAILED)
    ensures r.form == page.form && r.passwordStrength == page.passwordStrength
    ensures forall g :: ErrorOf(r.errors, g) == ErrorOf(page.errors, g)
  {
    page.(errors := page.errors.(general := thrownMessage.GetOr(REGISTRATION_FAILED)))
  }

  // ----------------------------------------------------------- lemmas

  /** Whatever the client lets through, the server action accepts too; the
      action alone accepts a blank name or a mismatched confirmation. */
  lemma SubmitImpliesActionAccepts(page: Page)
    ensures var f := page.form;
      HandleSubmit(page).Submitted? ==> RegisterAction(Some(f.email), Some(f.password), Some(f.name)).None?
    ensures var f := page.form;
      RegisterAction(Some(f.email), Some(f.password), Some(f.name)).None? <==>
        SubmitErrors(f).email == "" && SubmitErrors(f).password == ""
  {
  }

  lemma AllLowerIsWeak()
    ensures ValidatePassword("aaaaaaaa") == PasswordValidation(true, Some(PASSWORD_WEAK), Weak)
  {
    var pw := "aaaaaaaa";
    assert !HasUpper(pw) && !HasDigit(pw);
    assert !HasSpecial(pw) by {
      forall i | 0 <= i < |pw| ensures !IsSpecial(pw[i]) {
        assert pw[i] == 'a';
      }
    }
    assert Score(pw) <= 1;
  }

  lemma ShortEmailHasShape()
    ensures EmailShape("a@b.co")
  {
    var email := "a@b.co";
    assert email[..1] == "a" && email[2..3] == "b" && email[4..] == "co";
    assert AllEmailAtoms("a") && AllEmailAtoms("b") && AllEmailAtoms("co");
    assert EmailSplit(email, 1, 3);
    RegexSplitHasShape(email, 1, 3);
  }

  /** A weak password is no obstacle to registration: `aaaaaaaa` is rated
      weak, and with a name and a well-formed email the form is sent. */
  lemma WeakPasswordIsAccepted()
    ensures ValidatePassword("aaaaaaaa").strength == Weak
    ensures HandleSubmit(Page(FormData("Ann", "a@b.co", "aaaaaaaa", "aaaaaaaa"), NoErrors, Weak)).Submitted?
  {
    AllLowerIsWeak();
    ShortEmailHasShape();
    assert !Blank("Ann") by {
      assert !IsWs("Ann"[0]);
    }
  }

  /** The page opens with nothing to report: submitting the empty form
      right away is rejected and shows the required-field errors. */
  lemma InitialPageIsClean()
    ensures !HasErrors(InitialPage.errors) && InitialPage.passwordStrength == Weak
    ensures forall g :: Get(InitialPage.form, g) == ""
    ensures HandleSubmit(InitialPage).Rejected?
    ensures HandleSubmit(InitialPage).page.errors
      == Errors(NAME_REQUIRED, EMAIL_REQUIRED, PASSWORD_TOO_SHORT, "", "")
  {
  }
}
