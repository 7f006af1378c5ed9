/** A client of the form: a blank submit shows all four missing-value
    messages; after the user fills in every field a submit shows the success
    message; the timer's reset brings the empty form back. */
module ContactFormScenario {
  import opened Wrappers
  import opened Validation
  import opened ContactForm

  /** A blank form shows the missing-value message of every field. */
  method BlankSubmit() {
    var form := new Form({Name, Email, Phone, Message}, {Name, Email, Phone, Message}, ["", "", "", ""], 2);
    var ok := form.Submit();
    FieldErrorMeaning(Email, "");
    FieldErrorMeaning(Phone, "");
    assert form.ErrorOf(Email) == Some(EmailMissing);
    assert !ok && form.spanShown[Ix(Email)] && form.spanText[Ix(Email)] == EmailMissing;
    assert form.ErrorOf(Phone) == Some(PhoneMissing);
    assert form.spanText[Ix(Phone)] == PhoneMissing;
  }

  /** Typing fills the form without touching any other field's value. */
  method Fill(form: Form)
    requires form.Valid() && !form.successShown
    requires form.present == {Name, Email, Phone, Message}
    modifies form.values, form.marked, form.spanShown
    ensures form.Valid() && !form.successShown
    ensures form.values[..] == ["Jane", "jane@x.com", "5551234", "hi"]
  {
    form.OnInput(Name, "Jane");
    form.OnInput(Email, "jane@x.com");
    form.OnInput(Phone, "5551234");
    form.OnInput(Message, "hi");
  }

  /** A passing form (the filled one above is one, by FilledValuesPass)
      submits to the success view, and the reset brings the default values
      back. */
  method SubmitPassingThenReset(form: Form)
    requires form.Valid() && form.Passes() && form.defaults == ["", "", "", ""]
    modifies form, form.values, form.marked, form.spanText, form.spanShown, form.blocks
  {
    var ok := form.Submit();
    assert ok && form.successShown && !form.spanShown[Ix(Email)];
    form.FireReset();
    assert form.values[..] == ["", "", "", ""] && !form.successShown;
  }

  lemma FilledValuesPass(vs: seq<string>)
    requires vs == ["Jane", "jane@x.com", "5551234", "hi"]
    ensures forall f :: FieldError(f, vs[Ix(f)]) == None
  {
    NonBlankPasses(Name, vs[0]);
    NonBlankPasses(Phone, vs[2]);
    NonBlankPasses(Message, vs[3]);
    assert PlainRun("jane") && PlainRun("x") && PlainRun("com");
    AddressPasses("jane", "x", "com");
    assert "jane" + "@" + "x" + "." + "com" == vs[1];
  }

  /** A field other than the e-mail passes once it holds a non-blank character. */
  lemma NonBlankPasses(f: Field, v: string)
    requires f != Email && |v| > 0 && !IsWs(v[0])
    ensures FieldError(f, v) == None
  {
  }
}
