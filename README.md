# Contact form and page enhancements of js/main.js, in Dafny

This project models the logic of the site's page script `js/main.js`. The
script runs once the DOM has loaded. At the centre is the contact form in
`#contact-section`:

- its submit handler clears the previous errors and checks the name, e-mail,
  phone and message inputs;
- a failing field gets the class `error` and a message in its
  `.error-message` span;
- a fully passing form is replaced by a success message, and the form comes
  back after a 5-second timer;
- typing into an input removes that input's error display.

Around the form, the model covers three pure rules of the same script:

- the navigation highlight (the current page and the `active` class);
- the back-to-top control's 300-pixel scroll rule;
- the `loading="lazy"` hint added to images.

Modules:

- `Validation` (validation.dfy) holds the field rules as pure functions:
  - JavaScript's `trim` and the whitespace set that `\s` and `trim` share
    (ECMAScript WhiteSpace and LineTerminator);
  - the e-mail pattern `^[^\s@]+@[^\s@]+\.[^\s@]+$`, read literally as a
    split of the string, and proved equal to a plain-words description;
  - `FieldError`, the one message a field gets, using the script's exact
    message texts.
- `ContactForm` (contact_form.dfy) holds the class `Form`:
  - arrays hold each field's value, error mark, span text and span
    visibility, plus the shown/hidden state of the `.form-group` and `.btn`
    elements;
  - `successShown` records whether the success message is displayed;
  - the methods are the handlers: `Submit`, the timer body `FireReset`,
    the input listener `OnInput`, and the helper `ShowError`;
  - the class invariant `Valid()` says the success message is never
    displayed together with the form or beside an error.
- `ContactFormScenario` (contact_form_scenario.dfy) is a client. It submits a
  blank form, fills the form in, submits it and lets the timer fire.
- `Navigation`, `BackToTop` and `ImageHints` hold the other three rules.
- `Wrappers` holds the `Option` type.

## Model

| member | source | states |
|---|---|---|
| Validation.LeadingWs | js/main.js:98 | the whitespace run that `trim` drops from the front: all whitespace, and followed by a non-whitespace character or the end |
| Validation.TrailingWs | js/main.js:98 | the whitespace run that `trim` drops from the end: all whitespace, and preceded by a non-whitespace character or the start |
| Validation.TrimMeaning | js/main.js:98 | `trim` keeps one contiguous piece of the value, drops only whitespace around it, and the piece neither starts nor ends with whitespace |
| Validation.TrimEmptyIffAllWs | js/main.js:98 | `value.trim() === ''` holds exactly when the value is made only of whitespace (both directions) |
| Validation.TrimIdempotent | js/main.js:106 | trimming an already trimmed value changes nothing |
| Validation.TrimNoWs | js/main.js:106 | a value with no whitespace is its own trim |
| Validation.EmailPatternCharacterised | js/main.js:107-112 | the pattern accepts a string exactly when it has no whitespace, one '@' with at least one character before it, and a '.' strictly inside the part after the '@' |
| Validation.PatternIsPlainWords | js/main.js:107-112 | direction one: every string the pattern accepts has the plain-words shape |
| Validation.PlainWordsIsPattern | js/main.js:107-112 | direction two: every string of the plain-words shape is accepted by the pattern |
| Validation.EveryCharOfSplit | js/main.js:107 | a string the pattern splits has no whitespace and no '@' apart from the split one |
| Validation.FieldErrorMeaning | js/main.js:96-130 | a whitespace-only value gets its field's missing-value message; any other value passes, except an e-mail not of the address shape, which gets "Please enter a valid email address" |
| Validation.FieldErrorOfTrimmed | js/main.js:96-130 | a field's verdict depends only on its trimmed value: the trimmed value gets the same message as the raw one |
| Validation.MessagesDistinct | js/main.js:96-130 | the five message texts are pairwise different, so a shown message identifies its field and its reason |
| Validation.EmptyEmailExample | js/main.js:109-111 | an empty e-mail gets "Please enter your email", not the invalid-address message |
| Validation.MalformedEmailExample | js/main.js:112-114 | "not-an-email" gets "Please enter a valid email address" |
| Validation.WellFormedEmailExample | js/main.js:104-116 | "a@b.co" passes the e-mail check |
| Validation.AddressPasses | js/main.js:104-116 | every address made of a run, '@', a run, '.' and a run of non-whitespace, non-'@' characters passes the e-mail check |
| ContactForm.Form.PassesMeaning | js/main.js:94-133 | `isValid` stays true exactly when every present input holds a non-whitespace character and a present e-mail input's trimmed value has the address shape |
| ContactForm.Form.constructor | js/main.js:64-79 | on page load the inputs hold their defaults, no error is shown, the form is displayed, the success message is hidden, and the invariant holds |
| ContactForm.Form.ShowError | js/main.js:157-164 | the input is marked; its span gets the message and is displayed only when the input's parent holds a span; nothing else changes |
| ContactForm.Form.ClearErrors | js/main.js:84-92 | afterwards every span is hidden and empty and no input is marked |
| ContactForm.Form.CheckField | js/main.js:96-130 | an absent input is skipped; otherwise the field's message, if any, is shown; ok is false exactly when a message was shown; the other fields keep their display |
| ContactForm.Form.ShowFieldErrors | js/main.js:94-130 | all four checks run whatever the earlier ones found; afterwards exactly the failing fields are marked and show their own message; isValid holds exactly when all pass |
| ContactForm.Form.ShownErrorsAreExact | js/main.js:84-130 | once all four checks have run, a field is marked, and its span shows its own message, exactly when it fails |
| ContactForm.Form.Validate | js/main.js:84-130 | clearing and then checking leaves exactly the current failures displayed: no error from an earlier submit survives |
| ContactForm.Form.ShowSuccess | js/main.js:133-140 | every form-group and button is hidden and the success message displayed; the invariant is kept |
| ContactForm.Form.Submit | js/main.js:81-154 | the displayed errors are exactly the current failures; a passing form is hidden and the success message shown; a failing form keeps its display; the invariant is kept |
| ContactForm.Form.FireReset | js/main.js:146-152 | the inputs hold their defaults again, every form-group and button is displayed and the success message hidden; error displays are untouched; the invariant is kept |
| ContactForm.Form.OnInput | js/main.js:167-176 | editing a field stores its value, removes its error mark and hides its span; the span keeps its text and no other field changes |
| ContactFormScenario.Fill | js/main.js:167-176 | four edits fill the form, each edit keeping the invariant |
| ContactFormScenario.FilledValuesPass | js/main.js:96-130 | a filled-in example form, with the address "jane@x.com", passes all four checks |
| ContactFormScenario.NonBlankPasses | js/main.js:96-101 | a name, phone or message value starting with a non-whitespace character passes |
| Navigation.LastSegment | js/main.js:6 | `split('/').pop()` is a '/'-free suffix of the path that either is the whole path or follows a '/' |
| Navigation.LastSegmentUnique | js/main.js:6 | any split of the path into a prefix that is empty or ends in '/', followed by a '/'-free rest, gives that rest as the last segment |
| Navigation.CurrentPage | js/main.js:6 | the current page is never empty and has no '/'; an empty path or one ending in '/' gives "index.html"; otherwise it is the path's last segment |
| Navigation.Highlight | js/main.js:7-14 | every link keeps its href and its classes; it gains 'active' exactly when its href equals the page, and gains nothing else |
| Navigation.ActiveForPath | js/main.js:6-14 | a link not already active becomes active exactly when its href names the page of the location's path |
| BackToTop.OnScroll | js/main.js:47-53 | after a scroll event the control has 'show' exactly when the offset exceeds 300; its other classes are unchanged |
| BackToTop.ShownIffLatestOffset | js/main.js:47-53 | after any non-empty run of scroll events, the control is shown exactly when the latest offset exceeds 300, and its other classes are what they were |
| ImageHints.AddLazyLoading | js/main.js:181-186 | an image without a loading attribute gets "lazy", and an image with one keeps it |

Three behaviours of the script worth knowing:

- The highlight adds 'active' to every link whose href equals the page, not
  to a single one. It never removes an 'active' class already in the markup.
- The timer calls `form.reset()`, which restores each input's default value.
  The inputs are not necessarily emptied.
- The reset does not clear error marks or spans. After a successful submit
  there are none anyway, and `Valid()` records this.

## Left out

- The fade-in animation (`IntersectionObserver`, lines 18-36), the
  back-to-top click (`scrollTo`), the success message's `scrollIntoView`,
  and the mobile navbar toggler. These are browser behaviour with no state
  the script reads back.
- Creating the error spans, the success element and the back-to-top button,
  their `innerHTML`, class names and aria label (lines 40-44, 68-79). The
  model takes the elements as given: `withSpan` is the set of inputs whose
  parent holds a span (the `if (errorSpan)` guard), and each field has its
  own span.
- ContactForm.Form.constructor: the load state, with the success message and
  every error span hidden, assumes that the site's stylesheet hides
  `.success-message` and `.error-message` until the script sets their
  `display`. The script creates both elements without a display style
  (js/main.js:69-79), and the stylesheet is not part of this model.
- `preventDefault` and the page not reloading are not modelled.
- ContactForm.Form.FireReset: the 5-second `setTimeout` is not scheduled.
  FireReset is the timer's body and can be called from any valid state,
  whether or not a timer is pending. Two submits give two timers; the
  model does not track how many are pending.
- ContactForm.Form.OnInput: requires that the success message is not
  displayed. In the success view every form-group is `display: none`, so the
  user cannot type into a field. Without that premise, an edit made during
  the success view could make the values fail their checks while the
  success message is shown, which the invariant rules out.
- ContactForm.Form.Submit: `querySelectorAll('.form-control')` and
  `.error-message` are modelled as the four inputs and their spans. Other
  `.form-control` elements or stray spans in the form are not modelled.
- Validation.IsWs: the whitespace set is fixed to the code points that
  ECMAScript lists for WhiteSpace and LineTerminator (including U+FEFF and
  the Unicode space separators). Strings are sequences of
  Dafny characters, not UTF-16 code units, so lone surrogates are not
  modelled.
- BackToTop: `pageYOffset` is a real number, and the event timing is not
  modelled.
- Navigation: `location.pathname` is taken as given. Percent-encoding and
  the resolution of relative hrefs are not modelled; the script compares
  the raw attribute.
