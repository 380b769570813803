/**
 * Field validation of the enhanced contact form (js/main-backup.js:1430-1598,
 * 1804-1813). A field is reduced to what the validator reads from it: its
 * name, its `type`, its tag, whether it carries `required`, its raw value and
 * its `minlength`/`maxlength` attributes. Showing and clearing the inline
 * messages is presentation and is not modelled; only the verdict and its
 * message are.
 */
module Validators {
  import opened Text
  import opened Email
  import opened Wrappers

  /** `{ isValid, message }` as returned by the validators. */
  datatype Verdict = Valid | Invalid(message: string)

  /**
   * Later checks of `validateFieldEnhanced` overwrite the verdict of earlier
   * ones only when they fail.
   */
  function Then(earlier: Verdict, later: Verdict): (r: Verdict)
    ensures r.Valid? <==> earlier.Valid? && later.Valid?
    ensures later.Invalid? ==> r == later
    ensures later.Valid? ==> r == earlier
  {
    if later.Invalid? then later else earlier
  }

  // ---------------------------------------------------------------------
  // E-mail
  // ---------------------------------------------------------------------

  const EmailMessage := "Please enter a valid email address (e.g., name@example.com)"

  /** `validateEmailField`: valid exactly when the label-address expression matches. */
  function ValidateEmail(email: string): (r: Verdict)
    ensures r.Valid? <==> MatchesLabelAddress(email)
    ensures r.Invalid? ==> r.message == EmailMessage
  {
    LabelAddressAgrees(email);
    if IsLabelAddress(email) then Valid else Invalid(EmailMessage)
  }

  // ---------------------------------------------------------------------
  // Phone
  // ---------------------------------------------------------------------

  const PhoneMessage := "Please enter a valid phone number (10-15 digits)"

  /** `phone.replace(/[^\d]/g, '')`: the digits of `s`, in order. */
  function Digits(s: string): (d: string)
    ensures |d| <= |s|
    ensures forall i :: 0 <= i < |d| ==> IsDigit(d[i])
  {
    if s == [] then []
    else Digits(s[..|s| - 1]) + (if IsDigit(s[|s| - 1]) then [s[|s| - 1]] else [])
  }

  /** The positions in `s` that hold a decimal digit. */
  ghost function DigitPositions(s: string): set<nat> {
    set i: nat | i < |s| && IsDigit(s[i])
  }

  /** `validatePhoneField` */
  function ValidatePhone(phone: string): (r: Verdict)
    ensures r.Invalid? ==> r.message == PhoneMessage
  {
    var clean := Digits(phone);
    if |clean| < 10 || |clean| > 15 then Invalid(PhoneMessage) else Valid
  }

  /** The digit positions of `s` are those of all but its last character, and that one if it is a digit. */
  lemma {:induction false} DigitPositionsStep(s: string)
    requires s != []
    ensures DigitPositions(s) == DigitPositions(s[..|s| - 1]) + (if IsDigit(s[|s| - 1]) then {|s| - 1} else {})
  {
    var init := s[..|s| - 1];
    forall i: nat | i < |init| ensures IsDigit(init[i]) == IsDigit(s[i]) {
      assert init[i] == s[i];
    }
  }

  /** The cleaned number has one character per digit position of the input. */
  lemma {:induction false} DigitsCount(s: string)
    ensures |Digits(s)| == |DigitPositions(s)|
  {
    if s != [] {
      var init := s[..|s| - 1];
      DigitsCount(init);
      DigitPositionsStep(s);
      assert |s| - 1 !in DigitPositions(init);
    }
  }

  /** A phone number is valid exactly when it holds 10 to 15 decimal digits. */
  lemma {:induction false} PhoneValidIff(phone: string)
    ensures ValidatePhone(phone).Valid? <==> 10 <= |DigitPositions(phone)| <= 15
  {
    DigitsCount(phone);
  }

  lemma {:induction false} DigitsAppend(a: string, b: string)
    ensures Digits(a + b) == Digits(a) + Digits(b)
    decreases |b|
  {
    if b == [] {
      assert a + b == a;
    } else {
      var b' := b[..|b| - 1];
      assert (a + b)[..|a + b| - 1] == a + b';
      assert (a + b)[|a + b| - 1] == b[|b| - 1];
      DigitsAppend(a, b');
    }
  }

  /** Separators do not matter: inserting a non-digit anywhere leaves the verdict alone. */
  lemma {:induction false} PhoneIgnoresSeparators(a: string, c: char, b: string)
    requires !IsDigit(c)
    ensures ValidatePhone(a + [c] + b) == ValidatePhone(a + b)
  {
    DigitsAppend(a + [c], b);
    DigitsAppend(a, [c]);
    DigitsAppend(a, b);
    assert [c][..0] == [];
  }

  lemma {:induction false} DigitsOfWhitespace(s: string)
    requires forall i :: 0 <= i < |s| ==> IsWhitespace(s[i])
    ensures Digits(s) == []
  {
    if s != [] {
      DigitsOfWhitespace(s[..|s| - 1]);
    }
  }

  lemma {:induction false} DigitsIgnorePadding(pre: string, mid: string, post: string)
    requires forall i :: 0 <= i < |pre| ==> IsWhitespace(pre[i])
    requires forall i :: 0 <= i < |post| ==> IsWhitespace(post[i])
    ensures Digits(pre + mid + post) == Digits(mid)
  {
    DigitsOfWhitespace(pre);
    DigitsOfWhitespace(post);
    DigitsAppend(pre + mid, post);
    DigitsAppend(pre, mid);
  }

  /** Trimming never removes a digit. */
  lemma {:induction false} DigitsOfTrim(s: string)
    ensures Digits(Trim(s)) == Digits(s)
  {
    var pre, post := TrimPadding(s);
    DigitsIgnorePadding(pre, Trim(s), post);
  }

  // ---------------------------------------------------------------------
  // Name
  // ---------------------------------------------------------------------

  const NameTooShortMessage := "Name must be at least 2 characters long"
  const NameTooLongMessage := "Name must be less than 50 characters"
  const NameCharsMessage := "Name can only contain letters, spaces, hyphens, and apostrophes"

  /** `[a-zA-Z\s\-'\.]` */
  predicate IsNameChar(c: char) {
    IsAsciiLetter(c) || IsWhitespace(c) || c == '-' || c == '\'' || c == '.'
  }

  /** The scan behind `/^[a-zA-Z\s\-'\.]+$/.test(name)` once the length is known to be positive. */
  function AllNameChars(s: string): (ok: bool)
    ensures ok <==> forall i :: 0 <= i < |s| ==> IsNameChar(s[i])
  {
    s == [] || (IsNameChar(s[0]) && AllNameChars(s[1..]))
  }

  /** `validateNameField`: the length checks come first, then the character class. */
  function ValidateName(name: string): (r: Verdict)
    ensures r.Valid? <==> 2 <= |name| <= 50 && forall i :: 0 <= i < |name| ==> IsNameChar(name[i])
    ensures r == Invalid(NameTooShortMessage) <==> |name| < 2
    ensures r == Invalid(NameTooLongMessage) <==> |name| > 50
    ensures r == Invalid(NameCharsMessage) <==>
      2 <= |name| <= 50 && exists i :: 0 <= i < |name| && !IsNameChar(name[i])
  {
    if |name| < 2 then Invalid(NameTooShortMessage)
    else if |name| > 50 then Invalid(NameTooLongMessage)
    else if !AllNameChars(name) then Invalid(NameCharsMessage)
    else Valid
  }

  // ---------------------------------------------------------------------
  // Textarea and select
  // ---------------------------------------------------------------------

  /**
   * A `minlength`/`maxlength` attribute as the validator sees it: missing or
   * empty (so the default applies), a decimal number, or text that converts
   * to NaN (every comparison with it is false).
   */
  datatype LengthAttr = Absent | Numeric(n: nat) | NotANumber

  /** The bound `attr || fallback` stands for; None when it is NaN. */
  function Bound(attr: LengthAttr, fallback: nat): Option<nat> {
    match attr
    case Absent => Some(fallback)
    case Numeric(n) => Some(n)
    case NotANumber => None
  }

  const DefaultMinLength: nat := 10
  const DefaultMaxLength: nat := 1000

  function TooShortMessage(min: nat): string {
    "Message must be at least " + NatToString(min) + " characters long"
  }

  function TooLongMessage(max: nat): string {
    "Message must be less than " + NatToString(max) + " characters"
  }

  /** `validateTextareaField`: the lower bound is checked before the upper bound. */
  function ValidateTextarea(value: string, minLength: LengthAttr, maxLength: LengthAttr): (r: Verdict)
    ensures r.Valid? <==>
      && (Bound(minLength, DefaultMinLength).Some? ==> |value| >= Bound(minLength, DefaultMinLength).value)
      && (Bound(maxLength, DefaultMaxLength).Some? ==> |value| <= Bound(maxLength, DefaultMaxLength).value)
    ensures Bound(minLength, DefaultMinLength).Some? && |value| < Bound(minLength, DefaultMinLength).value ==>
      r == Invalid(TooShortMessage(Bound(minLength, DefaultMinLength).value))
    ensures
      && !(Bound(minLength, DefaultMinLength).Some? && |value| < Bound(minLength, DefaultMinLength).value)
      && Bound(maxLength, DefaultMaxLength).Some? && |value| > Bound(maxLength, DefaultMaxLength).value
      ==> r == Invalid(TooLongMessage(Bound(maxLength, DefaultMaxLength).value))
  {
    var lo, hi := Bound(minLength, DefaultMinLength), Bound(maxLength, DefaultMaxLength);
    if lo.Some? && |value| < lo.value then Invalid(TooShortMessage(lo.value))
    else if hi.Some? && |value| > hi.value then Invalid(TooLongMessage(hi.value))
    else Valid
  }

  const SelectMessage := "Please select an option"

  /** `validateSelectField` */
  function ValidateSelect(value: string): (r: Verdict)
    ensures r.Valid? <==> |value| > 0
    ensures r.Invalid? ==> r.message == SelectMessage
  {
    if value == "" then Invalid(SelectMessage) else Valid
  }

  // ---------------------------------------------------------------------
  // Required fields and the whole field
  // ---------------------------------------------------------------------

  /** `getRequiredFieldMessage`: fixed texts for the four contact-form fields. */
  function RequiredFieldMessage(fieldName: string): (m: string)
    ensures |m| > 0
    ensures fieldName == "name" ==> m == "Please enter your full name"
    ensures fieldName == "email" ==> m == "Please enter your email address"
    ensures fieldName == "subject" ==> m == "Please select a subject for your inquiry"
    ensures fieldName == "message" ==> m == "Please enter your message"
    ensures fieldName !in {"name", "email", "subject", "message"} ==>
      |m| == |fieldName| + 12 && m[..|fieldName|] == Capitalise(fieldName) && m[|fieldName|..] == " is required"
  {
    if fieldName == "name" then "Please enter your full name"
    else if fieldName == "email" then "Please enter your email address"
    else if fieldName == "subject" then "Please select a subject for your inquiry"
    else if fieldName == "message" then "Please enter your message"
    else Capitalise(fieldName) + " is required"
  }

  datatype Tag = Input | Textarea | Select

  /** What `validateFieldEnhanced` reads from a form control. */
  datatype Field = Field(
    name: string,
    inputType: string,
    tag: Tag,
    required: bool,
    value: string,
    minLength: LengthAttr,
    maxLength: LengthAttr)

  /** The `switch (field.type || 'text')` of the validator. */
  function TypeCheck(f: Field, value: string): Verdict {
    var t := if f.inputType == "" then "text" else f.inputType;
    if t == "email" then ValidateEmail(value)
    else if t == "tel" then ValidatePhone(value)
    else if t == "text" && f.name == "name" then ValidateName(value)
    else Valid
  }

  /** The checks a non-blank trimmed value goes through, later failures winning. */
  function ValueChecks(f: Field, value: string): Verdict {
    var byType := TypeCheck(f, value);
    var withText := if f.tag == Textarea then Then(byType, ValidateTextarea(value, f.minLength, f.maxLength)) else byType;
    if f.tag == Select then Then(withText, ValidateSelect(value)) else withText
  }

  /** `validateFieldEnhanced`, as the verdict it returns and the message it would show. */
  function ValidateFieldEnhanced(f: Field): (r: Verdict)
    ensures f.required && Trim(f.value) == [] ==> r == Invalid(RequiredFieldMessage(f.name))
    ensures !f.required && Trim(f.value) == [] ==> r == Valid
    ensures Trim(f.value) != [] ==>
      (r.Valid? <==>
        && TypeCheck(f, Trim(f.value)).Valid?
        && (f.tag == Textarea ==> ValidateTextarea(Trim(f.value), f.minLength, f.maxLength).Valid?)
        && (f.tag == Select ==> ValidateSelect(Trim(f.value)).Valid?))
    ensures Trim(f.value) != [] && r.Invalid? ==>
      || (f.tag == Select && r == ValidateSelect(Trim(f.value)))
      || (f.tag == Textarea && r == ValidateTextarea(Trim(f.value), f.minLength, f.maxLength))
      || r == TypeCheck(f, Trim(f.value))
  {
    var value := Trim(f.value);
    if f.required && value == [] then Invalid(RequiredFieldMessage(f.name))
    else if value != [] then ValueChecks(f, value)
    else Valid
  }

  /** A blank field: required ones fail with the required-field message, optional ones pass. */
  lemma {:induction false} BlankFieldVerdict(f: Field)
    requires forall i :: 0 <= i < |f.value| ==> IsWhitespace(f.value[i])
    ensures f.required ==> ValidateFieldEnhanced(f) == Invalid(RequiredFieldMessage(f.name))
    ensures !f.required ==> ValidateFieldEnhanced(f) == Valid
  {
    TrimEmptyIff(f.value);
  }

  /** A non-blank field is valid exactly when every check that applies to it passes. */
  lemma {:induction false} NonBlankFieldVerdict(f: Field)
    requires exists i :: 0 <= i < |f.value| && !IsWhitespace(f.value[i])
    ensures ValidateFieldEnhanced(f).Valid? <==>
      && TypeCheck(f, Trim(f.value)).Valid?
      && (f.tag == Textarea ==> ValidateTextarea(Trim(f.value), f.minLength, f.maxLength).Valid?)
      && (f.tag == Select ==> ValidateSelect(Trim(f.value)).Valid?)
  {
    TrimEmptyIff(f.value);
  }

  /** A telephone input is valid exactly when it is blank and optional, or holds 10 to 15 digits. */
  lemma {:induction false} PhoneFieldVerdict(f: Field)
    requires f.tag == Input && f.inputType == "tel"
    ensures ValidateFieldEnhanced(f).Valid? <==>
      if Trim(f.value) == [] then !f.required else 10 <= |DigitPositions(f.value)| <= 15
  {
    if Trim(f.value) != [] {
      PhoneValidIff(Trim(f.value));
      DigitsCount(Trim(f.value));
      DigitsOfTrim(f.value);
      DigitsCount(f.value);
    }
  }

  /**
   * The select check never fires: it only runs on a non-blank value. A select
   * is rejected only when it is required and blank.
   */
  lemma {:induction false} SelectFailsOnlyWhenRequiredAndBlank(f: Field)
    requires f.tag == Select && f.inputType in {"select-one", "select-multiple"}
    ensures ValidateFieldEnhanced(f).Invalid? <==>
      f.required && forall i :: 0 <= i < |f.value| ==> IsWhitespace(f.value[i])
  {
    TrimEmptyIff(f.value);
    var value := Trim(f.value);
    assert TypeCheck(f, value) == Valid;
    if value != [] {
      assert ValidateSelect(value) == Valid;
      assert ValueChecks(f, value) == Valid;
    }
  }
}
