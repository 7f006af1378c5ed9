/** The contact form's submission state (js/main.js, lines 64-177): the four
    inputs, their error marks and error spans, the form-group and button
    elements the success view hides, and the success message. Page elements
    are array slots; the 5-second reset timer is the method FireReset. */
module ContactForm {
  import opened Wrappers
  import opened Validation

  /** The field held in slot i. */
  function FieldAt(i: nat): Field
    requires i < 4
  {
    if i == 0 then Name else if i == 1 then Email else if i == 2 then Phone else Message
  }

  /** The slot of a field in the per-field arrays: one slot per field. */
  function Ix(f: Field): (i: nat)
    ensures i < 4 && FieldAt(i) == f
  {
    match f
    case Name => 0
    case Email => 1
    case Phone => 2
    case Message => 3
  }

  class Form {
    /** Fields whose input element exists on the page (getElementById is not null). */
    const present: set<Field>
    /** Fields whose input's parent holds an error-message span. */
    const withSpan: set<Field>
    /** The values contactForm.reset() restores: the inputs' default values. */
    const defaults: seq<string>

    /** Per-field state, indexed by Ix: the input's value, whether the input
        has class 'error', and its error span's text and visibility. */
    const values: array<string>
    const marked: array<bool>
    const spanText: array<string>
    const spanShown: array<bool>
    /** The `.form-group` and `.btn` elements of the form: shown or hidden. */
    const blocks: array<bool>
    /** Whether the success message is displayed. */
    var successShown: bool

    /** Array sizes, and no two state arrays are the same object. */
    ghost predicate WellFormed()
    {
      values.Length == 4 && marked.Length == 4 && spanText.Length == 4 && spanShown.Length == 4
      && |defaults| == 4 && withSpan <= present
      && marked != spanShown && marked != blocks && spanShown != blocks && values != spanText
    }

    /** The message the submit handler shows for f when the inputs hold vs;
        None for an absent field, which the handler skips. */
    ghost function ErrorIn(f: Field, vs: seq<string>): Option<string>
      requires |vs| == 4
    {
      if f in present then FieldError(f, vs[Ix(f)]) else None
    }

    /** The message the submit handler would show for f now. */
    ghost function ErrorOf(f: Field): Option<string>
      reads values
      requires WellFormed()
    {
      ErrorIn(f, values[..])
    }

    /** All four checks pass. */
    ghost predicate Passes()
      reads values
      requires WellFormed()
    {
      ErrorOf(Name) == None && ErrorOf(Email) == None && ErrorOf(Phone) == None && ErrorOf(Message) == None
    }

    /** The submit handler's isValid in plain words: every present input holds
        a non-whitespace character, and a present e-mail input's trimmed value
        has the address shape. */
    lemma PassesMeaning()
      requires WellFormed()
      ensures Passes() <==>
        (forall f :: f in present ==> !AllWs(values[Ix(f)]))
        && (Email in present ==> PlainWordsEmail(Trim(values[Ix(Email)])))
    {
      FieldErrorMeaning(Name, values[0]);
      FieldErrorMeaning(Email, values[1]);
      FieldErrorMeaning(Phone, values[2]);
      FieldErrorMeaning(Message, values[3]);
      if (forall f :: f in present ==> !AllWs(values[Ix(f)]))
         && (Email in present ==> PlainWordsEmail(Trim(values[Ix(Email)]))) {
        assert Passes();
      }
    }

    ghost predicate NoErrorShown()
      reads marked, spanShown
      requires WellFormed()
    {
      forall f :: !marked[Ix(f)] && !spanShown[Ix(f)]
    }

    ghost predicate Valid()
      reads this, values, marked, spanShown, blocks
    {
      WellFormed()
      // only existing inputs are marked, only existing spans shown
      && (forall f :: marked[Ix(f)] ==> f in present)
      && (forall f :: spanShown[Ix(f)] ==> f in withSpan)
      // the form and the success message are never displayed together
      && (forall k :: 0 <= k < blocks.Length ==> blocks[k] == !successShown)
      // the success message stands beside a passing form and no error
      && (successShown ==> Passes() && NoErrorShown())
    }

    /** The form as the page loads: every input holds its default value, no
        error is shown, the form is displayed and the success message is not. */
    constructor (present: set<Field>, withSpan: set<Field>, defaults: seq<string>, blockCount: nat)
      requires |defaults| == 4 && withSpan <= present
      ensures Valid()
      ensures this.present == present && this.withSpan == withSpan && this.defaults == defaults
      ensures values[..] == defaults && NoErrorShown() && spanText[..] == ["", "", "", ""]
      ensures blocks.Length == blockCount && !successShown
      ensures fresh(values) && fresh(marked) && fresh(spanText) && fresh(spanShown) && fresh(blocks)
    {
      this.present := present;
      this.withSpan := withSpan;
      this.defaults := defaults;
      values := new string[4](i requires 0 <= i < 4 => defaults[i]);
      marked := new bool[4](_ => false);
      spanText := new string[4](_ => "");
      spanShown := new bool[4](_ => false);
      blocks := new bool[blockCount](_ => true);
      successShown := false;
    }

    /** showError: mark the input, and when its parent holds an error span,
        put the message in it and display it. */
    method ShowError(f: Field, message: string)
      requires WellFormed() && f in present
      modifies marked, spanText, spanShown
      ensures marked[..] == old(marked[..])[Ix(f) := true]
      ensures spanShown[..] == if f in withSpan then old(spanShown[..])[Ix(f) := true] else old(spanShown[..])
      ensures spanText[..] == if f in withSpan then old(spanText[..])[Ix(f) := message] else old(spanText[..])
    {
      marked[Ix(f)] := true;
      if f in withSpan {
        spanText[Ix(f)] := message;
        spanShown[Ix(f)] := true;
      }
    }

    /** The first half of the submit handler: every error span is hidden and
        emptied, and every input loses its error mark. */
    method ClearErrors()
      requires WellFormed()
      modifies marked, spanText, spanShown
      ensures forall i :: 0 <= i < 4 ==> !marked[i] && !spanShown[i] && spanText[i] == ""
    {
      for i := 0 to 4
        modifies spanShown, spanText
        invariant forall k :: 0 <= k < i ==> !spanShown[k] && spanText[k] == ""
      {
        spanShown[i] := false;
        spanText[i] := "";
      }
      for i := 0 to 4
        modifies marked
        invariant forall k :: 0 <= k < i ==> !marked[k]
      {
        marked[i] := false;
      }
    }

    /** One field's check in the submit handler. An absent input is skipped;
        otherwise the field's message, if FieldError gives one, is shown (an
        empty trimmed value gives the missing-value message and, for the
        e-mail field only, a value the pattern rejects gives the
        invalid-address message). ok is false exactly when a message was
        shown. Run after the checks of the fields in `checked`, it adds
        f's error to theirs and changes nothing else. vs is what the inputs
        hold throughout. */
    method CheckField(f: Field, ghost checked: set<Field>, ghost vs: seq<string>) returns (ok: bool)
      requires WellFormed() && values[..] == vs
      requires ShowsErrorsOf(checked, vs) && f !in checked
      modifies marked, spanText, spanShown
      ensures ok <==> ErrorIn(f, vs) == None
      ensures ShowsErrorsOf(checked + {f}, vs)
    {
      if f !in present {
        return true;
      }
      var error := FieldError(f, values[Ix(f)]);
      if error.Some? {
        ShowError(f, error.value);
      }
      ok := error.None?;
    }

    /** The submit handler. Errors are cleared first, then all four checks
        run (none is skipped because an earlier one failed), so afterwards
        exactly the failing fields are marked and show their message and no
        earlier error survives. A passing form is replaced by the success
        message; a failing one keeps its current display. isValid is the
        handler's local flag. */
    method Submit() returns (isValid: bool)
      requires Valid()
      modifies this, marked, spanText, spanShown, blocks
      ensures Valid()
      ensures isValid <==> Passes()
      ensures forall f :: marked[Ix(f)] <==> ErrorOf(f).Some?
      ensures forall f :: spanShown[Ix(f)] <==> f in withSpan && ErrorOf(f).Some?
      ensures forall f :: spanText[Ix(f)] == if f in withSpan && ErrorOf(f).Some? then ErrorOf(f).value else ""
      ensures isValid ==> successShown && forall k :: 0 <= k < blocks.Length ==> !blocks[k]
      ensures !isValid ==> successShown == old(successShown) && blocks[..] == old(blocks[..])
    {
      isValid := Validate();
      if isValid {
        ShowSuccess();
      }
    }

    /** The validation part of the submit handler: clear every error, run
        the four checks, and report whether all passed. */
    method Validate() returns (isValid: bool)
      requires WellFormed()
      modifies marked, spanText, spanShown
      ensures isValid <==> Passes()
      ensures forall f :: marked[Ix(f)] <==> ErrorOf(f).Some?
      ensures forall f :: spanShown[Ix(f)] <==> f in withSpan && ErrorOf(f).Some?
      ensures forall f :: spanText[Ix(f)] == if f in withSpan && ErrorOf(f).Some? then ErrorOf(f).value else ""
    {
      ClearErrors();
      isValid := ShowFieldErrors();
      ShownErrorsAreExact();
    }

    /** The success branch of the submit handler: every form-group and
        button is hidden and the success message displayed. */
    method ShowSuccess()
      requires Valid() && Passes() && NoErrorShown()
      modifies this, blocks
      ensures Valid() && successShown
      ensures forall k :: 0 <= k < blocks.Length ==> !blocks[k]
    {
      for k := 0 to blocks.Length
        modifies blocks
        invariant forall m :: 0 <= m < k ==> !blocks[m]
      {
        blocks[k] := false;
      }
      successShown := true;
    }

    /** Slot i is marked and shows its field's error exactly when the field
        is in D and fails with the inputs holding vs; otherwise its span is
        hidden and empty. */
    ghost predicate SlotShows(i: nat, D: set<Field>, vs: seq<string>)
      reads marked, spanText, spanShown
      requires WellFormed() && i < 4 && |vs| == 4
    {
      var g := FieldAt(i);
      var e := ErrorIn(g, vs);
      && (marked[i] <==> g in D && e.Some?)
      && (spanShown[i] <==> g in D && g in withSpan && e.Some?)
      && spanText[i] == if g in D && g in withSpan && e.Some? then e.value else ""
    }

    /** Exactly the failing fields of D are marked and show their message. */
    ghost predicate ShowsErrorsOf(D: set<Field>, vs: seq<string>)
      reads marked, spanText, spanShown
      requires WellFormed()
    {
      |vs| == 4 && SlotShows(0, D, vs) && SlotShows(1, D, vs) && SlotShows(2, D, vs) && SlotShows(3, D, vs)
    }

    /** The four checks of the submit handler, all of them, in order, from a
        state with no error shown: afterwards exactly the failing fields are
        marked and show their message. isValid is the handler's flag. */
    method ShowFieldErrors() returns (isValid: bool)
      requires WellFormed() && forall i :: 0 <= i < 4 ==> !marked[i] && !spanShown[i] && spanText[i] == ""
      modifies marked, spanText, spanShown
      ensures isValid <==> Passes()
      ensures ShowsErrorsOf({Name, Email, Phone, Message}, values[..])
    {
      ghost var vs := values[..];
      ghost var checked: set<Field> := {};
      assert ShowsErrorsOf(checked, vs);
      isValid := true;
      var ok := CheckField(Name, checked, vs);
      checked := checked + {Name};
      isValid := isValid && ok;
      ok := CheckField(Email, checked, vs);
      checked := checked + {Email};
      isValid := isValid && ok;
      ok := CheckField(Phone, checked, vs);
      checked := checked + {Phone};
      isValid := isValid && ok;
      ok := CheckField(Message, checked, vs);
      checked := checked + {Message};
      isValid := isValid && ok;
      assert checked == {Name, Email, Phone, Message};
    }

    /** When every field's error is displayed, a field is marked and shows a
        message exactly when it fails, and the message is its own. */
    lemma ShownErrorsAreExact()
      requires WellFormed() && ShowsErrorsOf({Name, Email, Phone, Message}, values[..])
      ensures forall f :: marked[Ix(f)] <==> ErrorOf(f).Some?
      ensures forall f :: spanShown[Ix(f)] <==> f in withSpan && ErrorOf(f).Some?
      ensures forall f :: spanText[Ix(f)] == if f in withSpan && ErrorOf(f).Some? then ErrorOf(f).value else ""
    {
    }

    /** The body of the 5-second timer a successful submit schedules: the
        inputs go back to their defaults, the form is displayed again and the
        success message hidden. Error marks and spans are not touched. */
    method FireReset()
      requires Valid()
      modifies this, values, blocks
      ensures Valid()
      ensures values[..] == defaults && !successShown
      ensures forall k :: 0 <= k < blocks.Length ==> blocks[k]
    {
      for i := 0 to 4
        modifies values
        invariant forall k :: 0 <= k < i ==> values[k] == defaults[k]
      {
        values[i] := defaults[i];
      }
      for k := 0 to blocks.Length
        modifies blocks
        invariant forall m :: 0 <= m < k ==> blocks[m]
      {
        blocks[k] := true;
      }
      successShown := false;
    }

    /** The input listener of field f, after the user's edit left v in it:
        the field's error mark goes and its span is hidden, whatever v is.
        The span keeps its text, and no other field changes. The field is
        displayed, which it is exactly when the success message is not. */
    method OnInput(f: Field, v: string)
      requires Valid() && f in present && !successShown
      modifies values, marked, spanShown
      ensures Valid()
      ensures values[..] == old(values[..])[Ix(f) := v]
      ensures marked[..] == old(marked[..])[Ix(f) := false]
      ensures spanShown[..] == if f in withSpan then old(spanShown[..])[Ix(f) := false] else old(spanShown[..])
      ensures unchanged(spanText) && successShown == old(successShown)
    {
      values[Ix(f)] := v;
      marked[Ix(f)] := false;
      if f in withSpan {
        spanShown[Ix(f)] := false;
      }
    }
  }
}
