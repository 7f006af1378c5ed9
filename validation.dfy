/** The contact form's field rules (js/main.js, the submit handler): trimming,
    the empty-field test and the e-mail pattern, with their exact messages. */
module Validation {
  import opened Wrappers

  /** ECMAScript's WhiteSpace and LineTerminator code points. Both `\s` in a
      regular expression and String.prototype.trim use exactly this set. */
  predicate IsWs(c: char) {
    c == '\t' || c == '\n' || c == '\U{000B}' || c == '\U{000C}' || c == '\r' || c == ' '
    || c == '\U{00A0}' || c == '\U{1680}' || ('\U{2000}' <= c <= '\U{200A}')
    || c == '\U{2028}' || c == '\U{2029}' || c == '\U{202F}' || c == '\U{205F}'
    || c == '\U{3000}' || c == '\U{FEFF}'
  }

  predicate AllWs(s: string) {
    forall k :: 0 <= k < |s| ==> IsWs(s[k])
  }

  predicate NoWs(s: string) {
    forall k :: 0 <= k < |s| ==> !IsWs(s[k])
  }

  /** The length of the whitespace run that starts s. */
  function LeadingWs(s: string): (n: nat)
    ensures n <= |s|
    ensures forall k :: 0 <= k < n ==> IsWs(s[k])
    ensures n < |s| ==> !IsWs(s[n])
  {
    if s == [] || !IsWs(s[0]) then 0 else 1 + LeadingWs(s[1..])
  }

  /** The length of the whitespace run that ends s. */
  function TrailingWs(s: string): (n: nat)
    ensures n <= |s|
    ensures forall k :: |s| - n <= k < |s| ==> IsWs(s[k])
    ensures n < |s| ==> !IsWs(s[|s| - 1 - n])
  {
    if s == [] || !IsWs(s[|s| - 1]) then 0 else 1 + TrailingWs(s[..|s| - 1])
  }

  /** String.prototype.trim: s without its leading and trailing whitespace. */
  function Trim(s: string): string {
    var t := s[LeadingWs(s)..];
    t[..|t| - TrailingWs(t)]
  }

  /** What trim removes is whitespace, what it keeps is one contiguous piece
      of s, and the piece kept neither starts nor ends with whitespace. */
  lemma TrimMeaning(s: string)
    ensures var r, i := Trim(s), LeadingWs(s);
      i + |r| <= |s| && r == s[i..i + |r|] && AllWs(s[..i]) && AllWs(s[i + |r|..])
      && (r != [] ==> !IsWs(r[0]) && !IsWs(r[|r| - 1]))
  {
  }

  /** `value.trim() === ''` holds exactly of the strings made only of whitespace. */
  lemma TrimEmptyIffAllWs(s: string)
    ensures Trim(s) == [] <==> AllWs(s)
  {
  }

  /** Trimming twice is trimming once; FieldErrorOfTrimmed rests on it. */
  lemma TrimIdempotent(s: string)
    ensures Trim(Trim(s)) == Trim(s)
  {
  }

  /** A string with no whitespace at all is its own trim. */
  lemma TrimNoWs(s: string)
    requires NoWs(s)
    ensures Trim(s) == s
  {
  }

  // ----- The e-mail pattern /^[^\s@]+@[^\s@]+\.[^\s@]+$/ -----

  /** One character of the class [^\s@]. */
  predicate IsPlain(c: char) {
    !IsWs(c) && c != '@'
  }

  /** [^\s@]+ matching all of s. */
  predicate PlainRun(s: string) {
    |s| > 0 && forall k :: 0 <= k < |s| ==> IsPlain(s[k])
  }

  /** The anchored pattern, read literally: the whole string is a run of [^\s@],
      then '@', then a run, then a literal '.', then a run. The class [^\s@]
      admits '.', so the middle run may hold dots; the pattern matches when
      some split of that shape exists. */
  predicate EmailPattern(s: string) {
    exists i, j | 0 <= i < j < |s| ::
      s[i] == '@' && s[j] == '.'
      && PlainRun(s[..i]) && PlainRun(s[i + 1..j]) && PlainRun(s[j + 1..])
  }

  /** The part after '@' holds a '.' that is neither its first nor its last character. */
  predicate HasInnerDot(d: string) {
    exists k | 0 < k < |d| - 1 :: d[k] == '.'
  }

  /** The same set in plain words: no whitespace, exactly one '@' with something
      before it, and a '.' inside the part after the '@'. */
  predicate PlainWordsEmail(s: string) {
    NoWs(s) &&
    exists i | 0 < i < |s| ::
      s[i] == '@' && '@' !in s[..i] && '@' !in s[i + 1..] && HasInnerDot(s[i + 1..])
  }

  lemma EmailPatternCharacterised(s: string)
    ensures EmailPattern(s) <==> PlainWordsEmail(s)
  {
    if EmailPattern(s) {
      PatternIsPlainWords(s);
    }
    if PlainWordsEmail(s) {
      PlainWordsIsPattern(s);
    }
  }

  lemma PatternIsPlainWords(s: string)
    requires EmailPattern(s)
    ensures PlainWordsEmail(s)
  {
    var i, j :| 0 <= i < j < |s| && s[i] == '@' && s[j] == '.'
      && PlainRun(s[..i]) && PlainRun(s[i + 1..j]) && PlainRun(s[j + 1..]);
    EveryCharOfSplit(s, i, j);
    var d := s[i + 1..];
    assert d[j - i - 1] == '.';
    assert HasInnerDot(d);
    assert 0 < i && '@' !in s[..i] && '@' !in d;
  }

  lemma PlainWordsIsPattern(s: string)
    requires PlainWordsEmail(s)
    ensures EmailPattern(s)
  {
  }

  /** Every character of a string split as the pattern demands is '@' (only at
      the split point) or a [^\s@] character, except the literal '.'. */
  lemma EveryCharOfSplit(s: string, i: int, j: int)
    requires 0 <= i < j < |s| && s[i] == '@' && s[j] == '.'
    requires PlainRun(s[..i]) && PlainRun(s[i + 1..j]) && PlainRun(s[j + 1..])
    ensures NoWs(s)
    ensures forall m :: 0 <= m < |s| && m != i ==> s[m] != '@'
  {
  }

  // ----- Field rules and their messages -----

  /** The four fields of the contact form, in the order the handler checks them
      (ids exampleInputName, exampleInputEmail, exampleInputPhone,
      exampleFormControlMessage). */
  datatype Field = Name | Email | Phone | Message

  const NameMissing: string := "Please enter your name"
  const EmailMissing: string := "Please enter your email"
  const EmailInvalid: string := "Please enter a valid email address"
  const PhoneMissing: string := "Please enter your phone number"
  const MessageMissing: string := "Please enter a message"

  /** The message for a field left empty. */
  function MissingText(f: Field): string {
    match f
    case Name => NameMissing
    case Email => EmailMissing
    case Phone => PhoneMissing
    case Message => MessageMissing
  }

  /** The one message the submit handler shows for field f holding v, or None
      when the field passes. For the e-mail field the empty test comes first,
      the pattern only applies to a non-empty trimmed value. */
  function FieldError(f: Field, v: string): Option<string> {
    var t := Trim(v);
    if t == [] then Some(MissingText(f))
    else if f == Email && !EmailPattern(t) then Some(EmailInvalid)
    else None
  }

  /** What FieldError means in plain words: a value made only of whitespace
      gets the field's missing-value message; any other value passes, except
      an e-mail whose trimmed value is not of the plain-words address shape,
      which gets the invalid-address message. */
  lemma FieldErrorMeaning(f: Field, v: string)
    ensures AllWs(v) ==> FieldError(f, v) == Some(MissingText(f))
    ensures !AllWs(v) && f != Email ==> FieldError(f, v) == None
    ensures !AllWs(v) && f == Email ==>
      FieldError(f, v) == (if PlainWordsEmail(Trim(v)) then None else Some(EmailInvalid))
  {
    TrimEmptyIffAllWs(v);
    EmailPatternCharacterised(Trim(v));
  }

  /** A field's verdict depends only on its trimmed value: checking the
      trimmed value gives the same message as checking the raw one, so
      surrounding whitespace never decides a check. */
  lemma FieldErrorOfTrimmed(f: Field, v: string)
    ensures FieldError(f, Trim(v)) == FieldError(f, v)
  {
    TrimIdempotent(v);
  }

  /** The messages are pairwise different, so a shown message names both the
      field and the reason. */
  lemma MessagesDistinct(f: Field, g: Field)
    ensures MissingText(f) == MissingText(g) ==> f == g
    ensures MissingText(f) != EmailInvalid
  {
  }

  /** The e-mail examples: "" is empty, "not-an-email" is malformed and
      "a@b.co" passes. */
  lemma EmptyEmailExample()
    ensures FieldError(Email, "") == Some(EmailMissing)
  {
  }

  lemma MalformedEmailExample()
    ensures FieldError(Email, "not-an-email") == Some(EmailInvalid)
  {
    var bad := "not-an-email";
    assert NoWs(bad);
    TrimNoWs(bad);
    assert '@' !in bad;
    FieldErrorMeaning(Email, bad);
  }

  lemma WellFormedEmailExample()
    ensures FieldError(Email, "a@b.co") == None
  {
    assert PlainRun("a") && PlainRun("b") && PlainRun("co");
    AddressPasses("a", "b", "co");
    assert "a" + "@" + "b" + "." + "co" == "a@b.co";
  }

  /** Every address of the pattern's shape, a run of [^\s@], '@', a run, '.',
      a run, passes the e-mail field's checks. */
  lemma AddressPasses(local: string, domain: string, tld: string)
    requires PlainRun(local) && PlainRun(domain) && PlainRun(tld)
    ensures FieldError(Email, local + "@" + domain + "." + tld) == None
  {
    var s := local + "@" + domain + "." + tld;
    var i, j := |local|, |local| + 1 + |domain|;
    assert s[..i] == local && s[i + 1..j] == domain && s[j + 1..] == tld;
    assert s[i] == '@' && s[j] == '.';
    assert EmailPattern(s);
    EveryCharOfSplit(s, i, j);
    TrimNoWs(s);
  }
}
