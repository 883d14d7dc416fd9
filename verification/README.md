# ParseGuard client core in Dafny

A model of the pure logic inside the ParseGuard compliance dashboard's web
client: the form validators and the regular expressions they rely on, the
extraction of the auth token from a raw `Cookie` header, the client-side
authentication store, and the decisions the registration page takes on
submit and on every keystroke. Everything else in the client is rendering
and HTTP glue.

| file | module | models |
|---|---|---|
| `nullable.dfy` | `Nullable` | JavaScript `null` / optional fields as `Option` |
| `chars.dfy` | `Chars` | the `\s` / `trim()` whitespace set, ASCII classes, `trim()` itself |
| `decimal.dfy` | `Decimal` | `${n}` for an integral number below 2^53 in magnitude, and the value of a digit string |
| `patterns.dfy` | `Patterns` | `app/lib/constants/regex.ts` |
| `rules.dfy` | `Rules` | `app/lib/validation/rules.ts` |
| `cookie.dfy` | `Cookie` | `parseAuthTokenFromCookie` of `app/lib/auth/cookie.ts` |
| `auth_store.dfy` | `AuthStore` | `app/lib/store/authStore.ts` |
| `register.dfy` | `Register` | `action`, `handleChange`, `handleSubmit` of `app/routes/register.tsx` |

Each regular expression is written as an explicit predicate in the shape of
the expression (`EmailRegex` splits the string into its three runs,
`PhoneRegex` takes the optional `+` as an alternation). Three of them are
also proved equal to an independent description: EMAIL_REGEX to the email
shape (`Patterns.EmailRegexIffShape`), PHONE_REGEX to the notation of a
number of two to fifteen digits (`Patterns.PhoneIffE164Number`), and the
SPECIAL class to ASCII punctuation without backtick and tilde
(`Patterns.SpecialIsPunctuationButBacktickAndTilde`). NUMBERS_ONLY and
ALPHANUMERIC_SPACE are related to each other and to the other patterns by
one-way implications only. UPPERCASE, LOWERCASE and NUMBER are the
one-character tests `HasUpper`, `HasLower` and `HasDigit`, used through the
password strength score. Strings are `seq<char>`; JavaScript's `length` counts UTF-16
code units, the model counts Unicode scalar values.

## Model

| member | source | states |
|---|---|---|
| Chars.Trim | app/lib/validation/rules.ts:30 | `trim()` yields the input with a blank prefix and a blank suffix removed, whose ends are not whitespace; so it is empty exactly when every character is whitespace |
| Decimal.NatToDecimalRoundTrip | app/lib/validation/rules.ts:108 | the decimal notation put in the minimum-length message reads back to the number |
| Decimal.IntToDecimal | app/lib/validation/rules.ts:108 | `${minLength}` for an integral bound below 2^53 in magnitude: `-` exactly for a negative bound, followed by the notation of its magnitude; a non-negative bound is its decimal notation, with no leading zero |
| Decimal.ValueBounds | app/lib/constants/regex.ts:45 | a string of k digits denotes less than 10^k, and at least 10^(k-1) without a leading zero |
| Patterns.EmailRegexIffShape | app/lib/constants/regex.ts:10 | EMAIL_REGEX accepts exactly: no whitespace, one `@`, a non-empty part before it, and a `.` inside the part after it at neither end |
| Patterns.EmailExample | app/lib/constants/regex.ts:7-10 | the documented `user@domain.com` has the email shape |
| Patterns.SpecialIsPunctuationButBacktickAndTilde | app/lib/constants/regex.ts:34 | the SPECIAL class is ASCII punctuation except backtick and tilde; no letter, digit or whitespace is special |
| Patterns.PhoneIffE164Number | app/lib/constants/regex.ts:45 | PHONE_REGEX accepts exactly the notation of a number from 10 to 10^15-1, with or without `+`: 2 to 15 digits, first one non-zero |
| Patterns.NumbersOnlyRelations | app/lib/constants/regex.ts:45-55 | every NUMBERS_ONLY string is ALPHANUMERIC_SPACE, no ALPHANUMERIC_SPACE string has a special character, a phone number without `+` is NUMBERS_ONLY |
| Patterns.NumbersOnlyOfDecimal | app/lib/constants/regex.ts:55 | every decimal notation passes NUMBERS_ONLY and denotes its number |
| Rules.ValidateEmail | app/lib/validation/rules.ts:29-39 | "Email is required" exactly for a blank input, checked before the format; otherwise valid with no message iff the email shape holds, else "Invalid email format" |
| Rules.ScoreCountsClasses | app/lib/constants/regex.ts:19-34 | the strength score of rules.ts:60-66, one point per PASSWORD_PATTERNS test that succeeds (`HasUpper`, `HasLower`, `HasDigit`, `HasSpecial` model UPPERCASE, LOWERCASE, NUMBER, SPECIAL), is the number of character classes present |
| Rules.ValidatePassword | app/lib/validation/rules.ts:51-76 | under 8 characters: invalid, weak, "at least 8 characters"; otherwise always valid, strong iff 3 or more classes, medium iff 2, weak iff at most 1, with the advisory message iff weak |
| Rules.StrengthMonotone | app/lib/validation/rules.ts:60-69 | inserting a character anywhere never lowers the strength |
| Rules.StrongExample | app/lib/validation/rules.ts:47-49 | the documented `MyP@ssw0rd` is valid, strong, without message |
| Rules.ValidateRequired | app/lib/validation/rules.ts:85-90 | invalid with `<field> is required` exactly when the value is blank |
| Rules.ValidateMinLength | app/lib/validation/rules.ts:100-112 | invalid exactly when shorter than the bound, with the message naming field and bound |
| Rules.MinLengthIgnoresContent | app/lib/validation/rules.ts:105-111 | the verdict depends on the length alone, so a long enough blank value passes although validateRequired rejects it |
| Rules.PasswordIsMinLengthEight | app/lib/validation/rules.ts:52-58 | validatePassword's verdict coincides with validateMinLength at bound 8 |
| Cookie.RunFromIs | app/lib/auth/cookie.ts:47 | the greedy `[^;]+` capture is the unique `;`-free stretch ending at a `;` or the end |
| Cookie.ParseAuthTokenFromCookie | app/lib/auth/cookie.ts:44-54 | null for a null or empty header; a token iff the pattern matches somewhere, then the value at the leftmost match, non-empty and without `;` |
| Cookie.RoundTripAlone | app/lib/auth/cookie.ts:47-50 | `auth_token=<t>` yields t for any non-empty t without `;` |
| Cookie.RoundTripAfter | app/lib/auth/cookie.ts:47-50 | `p; auth_token=<t>` followed by nothing or by `;...` yields t when p has no match of its own |
| Cookie.KeyInsideNameIsNotFound | app/lib/auth/cookie.ts:47-52 | `my_auth_token=x` and `a=b;auth_token=x` yield null: the key counts only at the start or after a space |
| Cookie.NoSpaceNoToken | app/lib/auth/cookie.ts:47-52 | a header with no space and no key at its start yields null |
| Cookie.EmptyValueSkipped | app/lib/auth/cookie.ts:47-50 | `auth_token=; auth_token=abc` yields `abc`: the leftmost match with a value wins |
| AuthStore.SetAuth | app/lib/store/authStore.ts:52-59 | setAuth holds the given user and token, authenticated and not loading, and the result satisfies the invariant |
| AuthStore.ClearAuth | app/lib/store/authStore.ts:64-71 | clearAuth from any state yields the initial state |
| AuthStore.SetLoading | app/lib/store/authStore.ts:78-80 | setLoading changes only the loading flag and keeps the invariant |
| AuthStore.ClearAuthIdempotent | app/lib/store/authStore.ts:52-71 | clearAuth is idempotent and undoes any setAuth |
| AuthStore.ReachableIsConsistent | app/lib/store/authStore.ts:40-80 | in every state reachable from the initial one, authenticated iff token held iff user held |
| AuthStore.RunHoldsLastSession | app/lib/store/authStore.ts:52-80 | after any action sequence the store holds the user and token of the last setAuth not followed by clearAuth, and is authenticated iff there is one |
| Register.RegisterAction | app/routes/register.tsx:12-30 | the email error if the email is blank or malformed, else the password error if it is under 8 characters, else no error |
| Register.HandleChange | app/routes/register.tsx:60-72 | sets only the edited field, clears only its error and the general error, recomputes strength only for the password |
| Register.NameError | app/routes/register.tsx:89-92 | the name error is "Name is required" exactly when the name is blank, else empty |
| Register.EmailError | app/routes/register.tsx:94-97 | the email error is "Email is required" for a blank email, else "Invalid email format" without the email shape, else empty |
| Register.PasswordError | app/routes/register.tsx:99-102 | the password error is the 8-character message exactly for a password under 8 characters; a weak one gives none |
| Register.SubmitErrors | app/routes/register.tsx:81-106 | each field error comes from its own rule, the confirmation error iff the two passwords differ exactly, the general error empty |
| Register.HandleSubmit | app/routes/register.tsx:108-120 | register is called iff the name is not blank, the email has the shape, the password has 8+ characters and equals the confirmation; otherwise the new errors are shown |
| Register.RegisterFailed | app/routes/register.tsx:124-129 | a failed register call shows the thrown message, or "Registration failed", as the general error and keeps the rest |
| Register.SubmitImpliesActionAccepts | app/routes/register.tsx:19-29 | the server action accepts exactly when the client's email and password errors are empty, so whatever the client sends the action accepts |
| Register.AllLowerIsWeak | app/lib/validation/rules.ts:71-75 | `aaaaaaaa` is valid but weak, with the advisory message |
| Register.InitialPageIsClean | app/routes/register.tsx:40-55 | the page starts with an empty form, no errors and a weak meter, so submitting it untouched is rejected with the required-name, required-email and short-password errors |
| Register.WeakPasswordIsAccepted | app/routes/register.tsx:109-120 | a form with a weak password of 8+ characters is still submitted |

## Left out

- `URL_REGEX` (app/lib/constants/regex.ts:40): word-boundary and bounded-repetition semantics, and it is used nowhere in the client.
- `setAuthToken`, `getAuthToken`, `removeAuthToken`: they hand the token to a cookie library (expiry, flags, path) and the browser.
- The persist middleware of the auth store: serialisation to browser storage.
- The `register` network call itself, `navigate`, and all rendering and translation; a failed call is modelled only through its message (`Register.RegisterFailed`).
- The HTTP client, its interceptors and 401 redirect, the API service classes, the `useAuth` hook, the other routes and the document analyzer: network calls to an unseen backend, timers and floating-point formatting.
- Decimal.IntToDecimal: writes the exact decimal notation, which is what `${n}` gives only for integral n below 2^53 (`Number.MAX_SAFE_INTEGER + 1`) in magnitude; from 2^53 up to 10^21 JavaScript prints the shortest digit string that rounds back to the same double, padded with zeros (`${2**64}` is `18446744073709552000`), from 10^21 on it uses exponent form (`1e+21`), and infinities print as `Infinity`. The message of Rules.ValidateMinLength differs from the source's for such bounds accordingly.
- Rules.ValidateMinLength: takes an integer bound; a fractional or NaN `minLength` and its number formatting are not modelled.
- Register.RegisterAction: a form field that holds a file instead of a string is not modelled; a missing field is modelled as `None`.
- String lengths count Unicode scalar values where JavaScript counts UTF-16 code units; for characters outside the Basic Multilingual Plane the length-8 and minimum-length gates may differ.
