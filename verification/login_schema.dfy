/**
 * The login form's validation schema: the `emailOrPhone` field must be
 * present and be a whole-string match of the email or the phone pattern; the
 * `password` field must be present and at least six UTF-16 code units long.
 * The form holds strings, but Formik hands an empty field to the schema as
 * `undefined`, and Yup's `min` rule lets an absent value pass.
 */
module LoginSchema {
  import opened Options
  import opened JsText
  import EmailPattern
  import PhonePattern

  const EMAIL_OR_PHONE_REQUIRED: string := "Email or phone number is required"
  const EMAIL_OR_PHONE_INVALID: string := "Invalid email or phone number"
  const PASSWORD_REQUIRED: string := "Password is required"
  const PASSWORD_TOO_SHORT: string := "Password must be at least 6 characters"

  /** The bound of `min(6)`, in UTF-16 code units. */
  const MIN_PASSWORD_LENGTH: nat := 6

  /** `String(undefined)`, what `RegExp.prototype.test` matches when given `undefined`. */
  const UNDEFINED_TEXT: JsString := [0x75, 0x6E, 0x64, 0x65, 0x66, 0x69, 0x6E, 0x65, 0x64]

  /** The field values the form holds. */
  datatype LoginValues = LoginValues(emailOrPhone: JsString, password: JsString)

  /** For each field, the messages of the rules it breaks, in declaration order. */
  datatype LoginErrors = LoginErrors(emailOrPhone: seq<string>, password: seq<string>)

  /** Formik's preparation of a field for the schema: an empty string becomes `undefined` (`None`). */
  function SchemaInput(v: JsString): (r: Option<JsString>)
    ensures r.None? <==> |v| == 0
    ensures r.Some? ==> r.value == v && |r.value| > 0
  {
    if |v| == 0 then None else Some(v)
  }

  /** The custom `emailOrPhone` test: one of the two patterns matches the whole value. */
  function IsEmailOrPhone(v: JsString): (b: bool)
    ensures b <==> EmailPattern.MatchesEmailRegex(v) || PhonePattern.MatchesPhoneRegex(v)
  {
    EmailPattern.IsEmail(v) || PhonePattern.IsPhone(v)
  }

  /** The text `test` matches: the value itself, or "undefined" for an absent value. */
  function TestedText(v: Option<JsString>): JsString {
    match v
    case None => UNDEFINED_TEXT
    case Some(s) => s
  }

  /** "undefined" has no `@` and does not start with a digit, so neither pattern matches it. */
  lemma UndefinedMatchesNeither()
    ensures !IsEmailOrPhone(UNDEFINED_TEXT)
  {
  }

  /**
   * The rules `emailOrPhone` breaks, for the value the schema receives:
   * `required` for an absent or empty value, then the custom test, which
   * fails on those two as well. This is the list Yup 0.x reports, where
   * `required` is an ordinary test and every test runs; Yup 1.x stops after
   * `required` on an absent value. Either way `required` comes first.
   */
  function EmailOrPhoneErrors(v: Option<JsString>): (errs: seq<string>)
    ensures errs == [] <==>
      v.Some? && (EmailPattern.MatchesEmailRegex(v.value) || PhonePattern.MatchesPhoneRegex(v.value))
    ensures (v.None? || |v.value| == 0) ==> errs == [EMAIL_OR_PHONE_REQUIRED, EMAIL_OR_PHONE_INVALID]
    ensures errs != [] && errs[0] == EMAIL_OR_PHONE_REQUIRED <==> v.None? || |v.value| == 0
    ensures v.Some? && |v.value| > 0 ==> EMAIL_OR_PHONE_REQUIRED !in errs
    ensures v.Some? && |v.value| > 0
      && !(EmailPattern.MatchesEmailRegex(v.value) || PhonePattern.MatchesPhoneRegex(v.value))
      ==> errs == [EMAIL_OR_PHONE_INVALID]
  {
    UndefinedMatchesNeither();
    var required := v.None? || |v.value| == 0;
    (if required then [EMAIL_OR_PHONE_REQUIRED] else [])
    + (if IsEmailOrPhone(TestedText(v)) then [] else [EMAIL_OR_PHONE_INVALID])
  }

  /**
   * The rules `password` breaks, for the value the schema receives:
   * `required` for an absent or empty value, and `min(6)` for a present
   * value shorter than six code units (the empty string included); `min`
   * lets an absent value pass. There is no other rule.
   */
  function PasswordErrors(p: Option<JsString>): (errs: seq<string>)
    ensures errs == [] <==> p.Some? && |p.value| >= MIN_PASSWORD_LENGTH
    ensures PASSWORD_REQUIRED in errs <==> p.None? || |p.value| == 0
    ensures PASSWORD_TOO_SHORT in errs <==> p.Some? && |p.value| < MIN_PASSWORD_LENGTH
    ensures |errs| <= 2 && (|errs| == 2 ==> errs[0] == PASSWORD_REQUIRED)
    ensures forall m :: m in errs ==> m == PASSWORD_REQUIRED || m == PASSWORD_TOO_SHORT
  {
    var required := p.None? || |p.value| == 0;
    var tooShort := p.Some? && |p.value| < MIN_PASSWORD_LENGTH;
    (if required then [PASSWORD_REQUIRED] else [])
    + (if tooShort then [PASSWORD_TOO_SHORT] else [])
  }

  /**
   * Validating the form: each field goes through Formik's preparation and
   * then through its own rules. An empty password breaks only `required`.
   */
  function Validate(values: LoginValues): (e: LoginErrors)
    ensures e.emailOrPhone == [] <==>
      EmailPattern.MatchesEmailRegex(values.emailOrPhone) || PhonePattern.MatchesPhoneRegex(values.emailOrPhone)
    ensures e.password == [] <==> |values.password| >= MIN_PASSWORD_LENGTH
    ensures |values.emailOrPhone| == 0 ==> e.emailOrPhone == [EMAIL_OR_PHONE_REQUIRED, EMAIL_OR_PHONE_INVALID]
    ensures |values.emailOrPhone| > 0 ==> EMAIL_OR_PHONE_REQUIRED !in e.emailOrPhone
    ensures e.emailOrPhone != [] && e.emailOrPhone[0] == EMAIL_OR_PHONE_REQUIRED <==> |values.emailOrPhone| == 0
    ensures |values.emailOrPhone| > 0
      && !(EmailPattern.MatchesEmailRegex(values.emailOrPhone) || PhonePattern.MatchesPhoneRegex(values.emailOrPhone))
      ==> e.emailOrPhone == [EMAIL_OR_PHONE_INVALID]
    ensures |values.password| == 0 ==> e.password == [PASSWORD_REQUIRED]
    ensures 0 < |values.password| < MIN_PASSWORD_LENGTH ==> e.password == [PASSWORD_TOO_SHORT]
  {
    LoginErrors(
      EmailOrPhoneErrors(SchemaInput(values.emailOrPhone)),
      PasswordErrors(SchemaInput(values.password)))
  }

  /** The form can be submitted: no field breaks a rule. */
  predicate IsValid(values: LoginValues) {
    var e := Validate(values);
    e.emailOrPhone == [] && e.password == []
  }

  /** A login is accepted exactly when the identifier matches a pattern and the password is long enough. */
  lemma ValidIff(values: LoginValues)
    ensures IsValid(values) <==>
      && (EmailPattern.MatchesEmailRegex(values.emailOrPhone)
          || PhonePattern.MatchesPhoneRegex(values.emailOrPhone))
      && |values.password| >= MIN_PASSWORD_LENGTH
  {
  }

  /** Accepted identifiers are ASCII without line breaks: both patterns are anchored at both ends. */
  lemma AcceptedIdentifierIsAscii(v: JsString)
    requires IsEmailOrPhone(v)
    ensures forall j :: 0 <= j < |v| ==> IsAscii(v[j]) && v[j] != NEWLINE
  {
    if EmailPattern.MatchesEmailRegex(v) {
      EmailPattern.EmailIsAscii(v);
    } else {
      PhonePattern.PhoneIsAscii(v);
    }
  }

  /** `$` without the `m` flag does not tolerate a trailing line break. */
  lemma TrailingNewlineRejected(v: JsString)
    ensures !IsEmailOrPhone(v + [NEWLINE])
    ensures EmailOrPhoneErrors(SchemaInput(v + [NEWLINE])) == [EMAIL_OR_PHONE_INVALID]
  {
    var t := v + [NEWLINE];
    assert t[|v|] == NEWLINE;
    if IsEmailOrPhone(t) {
      AcceptedIdentifierIsAscii(t);
    }
  }

  lemma UpperCaseFixesNonLetters(s: JsString)
    requires forall j :: 0 <= j < |s| ==> !IsAsciiLetter(AsciiUpperCase(s)[j])
    ensures AsciiUpperCase(s) == s
  {
  }

  /** The phone pattern has no letters, so upper-casing never changes its verdict. */
  lemma PhoneIgnoresAsciiCase(s: JsString)
    ensures PhonePattern.MatchesPhoneRegex(AsciiUpperCase(s)) <==> PhonePattern.MatchesPhoneRegex(s)
  {
    var t := AsciiUpperCase(s);
    if PhonePattern.MatchesPhoneRegex(s) {
      PhonePattern.PhoneShape(s);
      UpperCaseFixesNonLetters(s);
    }
    if PhonePattern.MatchesPhoneRegex(t) {
      PhonePattern.PhoneShape(t);
      UpperCaseFixesNonLetters(s);
    }
  }

  /** ASCII case never changes whether an identifier is accepted. */
  lemma IdentifierIgnoresAsciiCase(v: JsString)
    ensures IsEmailOrPhone(AsciiUpperCase(v)) <==> IsEmailOrPhone(v)
  {
    EmailPattern.EmailIgnoresAsciiCase(v);
    PhoneIgnoresAsciiCase(v);
  }
}
