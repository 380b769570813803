/**
 * Validation of the basic contact form (js/main.js:279-328): each field is
 * checked for a blank required value and, when it is named "email", for the
 * a@b.c shape; the form is valid when every required field is.
 */
module ContactForm {
  import opened Text
  import opened Email
  import opened Validators

  /** What `validateField` reads from a form control. */
  datatype FormField = FormField(name: string, required: bool, value: string)

  const BasicEmailMessage := "Please enter a valid email address"

  /** `${fieldName.charAt(0).toUpperCase() + fieldName.slice(1)} is required` */
  function RequiredMessage(fieldName: string): string {
    Capitalise(fieldName) + " is required"
  }

  /** `validateField`: the verdict and the message shown under the field. */
  function ValidateField(f: FormField): Verdict {
    var value := Trim(f.value);
    if f.required && value == [] then Invalid(RequiredMessage(f.name))
    else if f.name == "email" && value != [] && !IsBasicAddress(value) then Invalid(BasicEmailMessage)
    else Valid
  }

  /**
   * A field passes unless it is required and blank, or it is a non-blank
   * "email" field whose value is not of the form a@b.c; a blank required
   * field shows the required-field message and any other failure the
   * email message.
   */
  lemma {:induction false} ValidateFieldVerdict(f: FormField)
    ensures ValidateField(f).Valid? <==>
      && !(f.required && Trim(f.value) == [])
      && (f.name == "email" && Trim(f.value) != [] ==> MatchesBasicAddress(Trim(f.value)))
    ensures f.required && Trim(f.value) == [] ==> ValidateField(f) == Invalid(RequiredMessage(f.name))
    ensures ValidateField(f).Invalid? && Trim(f.value) != [] ==> ValidateField(f) == Invalid(BasicEmailMessage)
  {
    BasicAddressAgrees(Trim(f.value));
  }

  /** A field that is not required and left blank always passes. */
  lemma {:induction false} BlankOptionalFieldValid(f: FormField)
    requires !f.required
    requires forall i :: 0 <= i < |f.value| ==> IsWhitespace(f.value[i])
    ensures ValidateField(f) == Valid
  {
    TrimEmptyIff(f.value);
  }

  /** A field other than "email" fails only when it is required and blank. */
  lemma {:induction false} OtherFieldsFailOnlyWhenBlank(f: FormField)
    requires f.name != "email"
    ensures ValidateField(f).Invalid? <==>
      f.required && forall i :: 0 <= i < |f.value| ==> IsWhitespace(f.value[i])
  {
    TrimEmptyIff(f.value);
  }

  /** `form.querySelectorAll('[required]')`: the required fields, in document order. */
  function RequiredFields(fields: seq<FormField>): seq<FormField>
  {
    if fields == [] then []
    else (if fields[0].required then [fields[0]] else []) + RequiredFields(fields[1..])
  }

  /** RequiredFields keeps exactly the required fields. */
  lemma {:induction false} RequiredFieldsMembers(fields: seq<FormField>)
    ensures forall f :: f in RequiredFields(fields) <==> f in fields && f.required
  {
    if fields != [] {
      RequiredFieldsMembers(fields[1..]);
      assert fields == [fields[0]] + fields[1..];
    }
  }

  /** The verdict of each field of `fs`, in order. */
  function Verdicts(fs: seq<FormField>): (vs: seq<Verdict>)
    ensures |vs| == |fs|
  {
    if fs == [] then [] else Verdicts(fs[..|fs| - 1]) + [ValidateField(fs[|fs| - 1])]
  }

  /** One more field adds its verdict at the end. */
  lemma VerdictsStep(fs: seq<FormField>, i: nat)
    requires i < |fs|
    ensures Verdicts(fs[..i + 1]) == Verdicts(fs[..i]) + [ValidateField(fs[i])]
  {
    assert fs[..i + 1][..i] == fs[..i];
  }

  /** Entry `k` of Verdicts is the verdict of field `k`. */
  lemma {:induction false} VerdictsAt(fs: seq<FormField>, k: nat)
    requires k < |fs|
    ensures Verdicts(fs)[k] == ValidateField(fs[k])
  {
    if k < |fs| - 1 {
      VerdictsAt(fs[..|fs| - 1], k);
    }
  }

  predicate AllValid(vs: seq<Verdict>) {
    forall k :: 0 <= k < |vs| ==> vs[k].Valid?
  }

  lemma AllValidAppend(vs: seq<Verdict>, v: Verdict)
    ensures AllValid(vs + [v]) <==> AllValid(vs) && v.Valid?
  {
    assert (vs + [v])[|vs|] == v;
    assert forall k :: 0 <= k < |vs| ==> (vs + [v])[k] == vs[k];
  }

  /** The verdicts of the required fields are all Valid exactly when every required field passes. */
  lemma {:induction false} FormValidIff(fields: seq<FormField>)
    ensures AllValid(Verdicts(RequiredFields(fields)))
      <==> forall f :: f in fields && f.required ==> ValidateField(f).Valid?
  {
    var required := RequiredFields(fields);
    var vs := Verdicts(required);
    RequiredFieldsMembers(fields);
    if AllValid(vs) {
      forall f | f in fields && f.required ensures ValidateField(f).Valid? {
        assert f in required;
        var k :| 0 <= k < |required| && required[k] == f;
        VerdictsAt(required, k);
        assert vs[k].Valid?;
      }
    } else {
      var k :| 0 <= k < |vs| && !vs[k].Valid?;
      VerdictsAt(required, k);
      assert required[k] in required;
      assert !ValidateField(required[k]).Valid?;
    }
  }

  /**
   * `validateForm`: every required field is validated (each shows its own
   * message), and the form is valid exactly when all of them are.
   */
  method ValidateForm(fields: seq<FormField>) returns (isValid: bool, verdicts: seq<Verdict>)
    ensures verdicts == Verdicts(RequiredFields(fields))
    ensures isValid <==> forall f :: f in fields && f.required ==> ValidateField(f).Valid?
  {
    var required := RequiredFields(fields);
    isValid := true;
    verdicts := [];
    var i := 0;
    while i < |required|
      invariant 0 <= i <= |required|
      invariant verdicts == Verdicts(required[..i])
      invariant isValid <==> AllValid(verdicts)
    {
      var verdict := ValidateField(required[i]);
      VerdictsStep(required, i);
      AllValidAppend(verdicts, verdict);
      verdicts := verdicts + [verdict];
      if verdict.Invalid? {
        isValid := false;
      }
      i := i + 1;
    }
    assert required[..i] == required;
    FormValidIff(fields);
  }
}
