/** The contact form's rules: the email pattern, the per-field verdict,
    the 500-character cap on the message box and the all-fields check on
    submit. Field styling and feedback text updates are not modelled. */
module ContactForm {

  /** JavaScript's whitespace (WhiteSpace and LineTerminator): the characters
      `\s` matches and `String.prototype.trim` removes. */
  predicate IsJsWhitespace(c: char) {
    c == '\t' || c == '\n' || c == '\U{000B}' || c == '\U{000C}' || c == '\r' || c == ' '
    || c == '\U{00A0}' || c == '\U{1680}' || ('\U{2000}' <= c <= '\U{200A}')
    || c == '\U{2028}' || c == '\U{2029}' || c == '\U{202F}' || c == '\U{205F}'
    || c == '\U{3000}' || c == '\U{FEFF}'
  }

  /** How many whitespace characters s starts with. */
  function LeadingBlanks(s: string): (n: nat)
    ensures n <= |s|
    ensures forall k :: 0 <= k < n ==> IsJsWhitespace(s[k])
    ensures n < |s| ==> !IsJsWhitespace(s[n])
  {
    if s != [] && IsJsWhitespace(s[0]) then
      var n := 1 + LeadingBlanks(s[1..]);
      assert forall k :: 1 <= k < n ==> s[k] == s[1..][k - 1];
      n
    else 0
  }

  /** How many whitespace characters s ends with. */
  function TrailingBlanks(s: string): (n: nat)
    ensures n <= |s|
    ensures forall k :: |s| - n <= k < |s| ==> IsJsWhitespace(s[k])
    ensures n < |s| ==> !IsJsWhitespace(s[|s| - n - 1])
  {
    if s != [] && IsJsWhitespace(s[|s| - 1]) then
      var n := 1 + TrailingBlanks(s[..|s| - 1]);
      assert forall k :: |s| - n <= k < |s| - 1 ==> s[k] == s[..|s| - 1][k];
      n
    else 0
  }

  /** `value.trim()`: s without the whitespace at either end. */
  function Trim(s: string): string {
    var i, n := LeadingBlanks(s), TrailingBlanks(s);
    if i == |s| then [] else s[i..|s| - n]
  }

  /** r is what trimming s must give: a slice s[i..j] with only whitespace
      outside it, neither starting nor ending with whitespace, and empty
      exactly when s is all whitespace. */
  predicate TrimmedFrom(s: string, r: string) {
    && (exists i, j :: (0 <= i <= j <= |s| && r == s[i..j]
         && (forall k :: 0 <= k < i ==> IsJsWhitespace(s[k]))
         && (forall k :: j <= k < |s| ==> IsJsWhitespace(s[k]))))
    && (r == [] <==> forall k :: 0 <= k < |s| ==> IsJsWhitespace(s[k]))
    && (r != [] ==> !IsJsWhitespace(r[0]) && !IsJsWhitespace(r[|r| - 1]))
  }

  /** trim removes exactly the whitespace at both ends. */
  lemma TrimCharacterised(s: string)
    ensures TrimmedFrom(s, Trim(s))
  {
    var i, n := LeadingBlanks(s), TrailingBlanks(s);
    var r := Trim(s);
    if i == |s| {
      assert r == s[|s|..|s|];
      assert forall k :: 0 <= k < |s| ==> IsJsWhitespace(s[k]);
    } else {
      var j := |s| - n;
      assert r == s[i..j] && r[0] == s[i] && r[|r| - 1] == s[j - 1];
      assert !IsJsWhitespace(s[i]);
    }
  }

  /** One run of the regex class `[^\s@]+`. */
  predicate IsAtom(s: string) {
    |s| > 0 && forall k :: 0 <= k < |s| ==> s[k] != '@' && !IsJsWhitespace(s[k])
  }

  /** The meaning of `/^[^\s@]+@[^\s@]+\.[^\s@]+$/.test(email)`: some '@' and
      some later '.' cut the whole string into three such runs. */
  ghost predicate MatchesEmailPattern(email: string) {
    exists at, dot :: 0 <= at < dot < |email| && email[at] == '@' && email[dot] == '.'
      && IsAtom(email[..at]) && IsAtom(email[at + 1..dot]) && IsAtom(email[dot + 1..])
  }

  /** validateEmail: no whitespace, exactly one '@', not first, and a '.'
      with at least one character on each side somewhere after it. */
  function ValidateEmail(email: string): bool {
    && (forall k | 0 <= k < |email| :: !IsJsWhitespace(email[k]))
    && exists at | 0 < at < |email| ::
         && email[at] == '@'
         && (forall k | 0 <= k < |email| && k != at :: email[k] != '@')
         && exists dot | at + 1 < dot < |email| - 1 :: email[dot] == '.'
  }

  /** validateEmail accepts exactly the strings the regular expression matches. */
  lemma ValidateEmailMatchesPattern(email: string)
    ensures ValidateEmail(email) <==> MatchesEmailPattern(email)
  {
    if ValidateEmail(email) {
      AcceptedEmailMatches(email);
    }
    if MatchesEmailPattern(email) {
      var at, dot :| 0 <= at < dot < |email| && email[at] == '@' && email[dot] == '.'
        && IsAtom(email[..at]) && IsAtom(email[at + 1..dot]) && IsAtom(email[dot + 1..]);
      MatchedEmailAccepted(email, at, dot);
    }
  }

  lemma AcceptedEmailMatches(email: string)
    requires ValidateEmail(email)
    ensures MatchesEmailPattern(email)
  {
    var at :| 0 < at < |email| && email[at] == '@'
      && (forall k | 0 <= k < |email| && k != at :: email[k] != '@')
      && exists dot | at + 1 < dot < |email| - 1 :: email[dot] == '.';
    var dot :| at + 1 < dot < |email| - 1 && email[dot] == '.';
    assert IsAtom(email[..at]);
    assert IsAtom(email[at + 1..dot]);
    assert IsAtom(email[dot + 1..]);
  }

  lemma MatchedEmailAccepted(email: string, at: int, dot: int)
    requires 0 <= at < dot < |email| && email[at] == '@' && email[dot] == '.'
    requires IsAtom(email[..at]) && IsAtom(email[at + 1..dot]) && IsAtom(email[dot + 1..])
    ensures ValidateEmail(email)
  {
    forall k | 0 <= k < |email|
      ensures !IsJsWhitespace(email[k]) && (k != at ==> email[k] != '@')
    {
      if k < at {
        assert email[k] == email[..at][k];
      } else if at < k < dot {
        assert email[k] == email[at + 1..dot][k - at - 1];
      } else if dot < k {
        assert email[k] == email[dot + 1..][k - dot - 1];
      }
    }
    assert |email[dot + 1..]| > 0;
  }

  /** What validateField reads of an input element. */
  datatype Field = Field(inputType: string, isTextarea: bool, name: string, placeholder: string, value: string)

  /** validateField's decision: whether the field is valid and the feedback text. */
  datatype Verdict = Verdict(valid: bool, message: string)

  const MinMessageLength := 10
  const MaxMessageLength := 500

  /** validateField, without its class and text updates. */
  function ValidateField(field: Field): Verdict {
    var value := Trim(field.value);
    if field.inputType == "email" then
      if value == [] then Verdict(false, "Email is required")
      else if !ValidateEmail(value) then Verdict(false, "Please enter a valid email address")
      else Verdict(true, "Email looks good!")
    else if field.isTextarea then
      if value == [] then Verdict(false, "Message is required")
      else if |value| < MinMessageLength then Verdict(false, "Message must be at least 10 characters")
      else Verdict(true, "Message received!")
    else if field.name == "name" || field.name == "phone" then
      if value == [] then Verdict(false, field.placeholder + " is required")
      else Verdict(true, "Looks good!")
    else
      Verdict(true, "")
  }

  /** The rule a field breaks when validateField rejects it: an email field
      whose trimmed value the email pattern does not match (an empty value
      included), a message box whose trimmed value has fewer than 10
      characters, or a name or phone field holding only whitespace. */
  ghost predicate BreaksFieldRule(field: Field) {
    if field.inputType == "email" then !MatchesEmailPattern(Trim(field.value))
    else if field.isTextarea then |Trim(field.value)| < MinMessageLength
    else ((field.name == "name" || field.name == "phone")
          && forall k :: 0 <= k < |field.value| ==> IsJsWhitespace(field.value[k]))
  }

  /** A field is invalid exactly when it breaks the rule for its kind; every
      other field is valid. */
  lemma FieldInvalidExactly(field: Field)
    ensures !ValidateField(field).valid <==> BreaksFieldRule(field)
  {
    var value := Trim(field.value);
    if field.inputType == "email" {
      ValidateEmailMatchesPattern(value);
      assert !MatchesEmailPattern([]);
    } else if !field.isTextarea {
      TrimCharacterised(field.value);
    }
  }

  /** Every email, message, name or phone field gets feedback text; only fields
      of no known kind get none. */
  lemma FieldMessageEmptyExactly(field: Field)
    ensures ValidateField(field).message == "" <==>
      field.inputType != "email" && !field.isTextarea && field.name != "name" && field.name != "phone"
  {
    var v := ValidateField(field);
    if field.inputType == "email" {
      assert |v.message| > 0;
    } else if field.isTextarea {
      assert |v.message| > 0;
    } else if field.name == "name" || field.name == "phone" {
      assert |v.message| > 0;
    }
  }

  /** A valid email field holds, once trimmed, a string the email pattern matches. */
  lemma ValidEmailFieldMatches(field: Field)
    requires field.inputType == "email" && ValidateField(field).valid
    ensures MatchesEmailPattern(Trim(field.value))
  {
    ValidateEmailMatchesPattern(Trim(field.value));
  }

  /** The message box's input handler: with a character counter present, a
      value over 500 characters is cut back to its first 500. */
  function CapMessage(field: Field, hasCounter: bool): (f: Field)
    ensures f == field.(value := f.value)
    ensures f.value <= field.value
    ensures field.isTextarea && hasCounter ==> |f.value| <= MaxMessageLength
    ensures field.isTextarea && hasCounter && |field.value| > MaxMessageLength ==> |f.value| == MaxMessageLength
    ensures !field.isTextarea || !hasCounter || |field.value| <= MaxMessageLength ==> f == field
  {
    if field.isTextarea && hasCounter && |field.value| > MaxMessageLength then
      field.(value := field.value[..MaxMessageLength])
    else
      field
  }

  /** Capping twice is capping once. */
  lemma CapMessageIdempotent(field: Field, hasCounter: bool)
    ensures CapMessage(CapMessage(field, hasCounter), hasCounter) == CapMessage(field, hasCounter)
  {
  }

  /** The call to validateField in the submit handler. It returns the verdict
      that ValidateField decides; the rules themselves are in
      FieldInvalidExactly and FieldMessageEmptyExactly. It exists so that
      ValidateAll's loop sees one verdict per call rather than ValidateField's
      whole definition, which keeps that loop's proof small. */
  method CheckField(field: Field) returns (v: Verdict)
    ensures v == ValidateField(field)
  {
    v := ValidateField(field);
  }

  /** The submit handler's check: every field is validated (none is skipped
      after a failure, so each gets its feedback), and the form is sent only
      when all of them are valid. */
  method ValidateAll(fields: seq<Field>) returns (allValid: bool, verdicts: seq<Verdict>)
    ensures |verdicts| == |fields|
    ensures forall k :: 0 <= k < |fields| ==> verdicts[k] == ValidateField(fields[k])
    ensures allValid <==> forall k :: 0 <= k < |fields| ==> ValidateField(fields[k]).valid
  {
    allValid := true;
    verdicts := [];
    var i := 0;
    while i < |fields|
      invariant 0 <= i <= |fields|
      invariant |verdicts| == i
      invariant forall k :: 0 <= k < i ==> verdicts[k] == ValidateField(fields[k])
      invariant allValid <==> forall k :: 0 <= k < i ==> verdicts[k].valid
    {
      var v := CheckField(fields[i]);
      ValidAfterAppend(verdicts, v);
      VerdictsAfterAppend(fields, verdicts, v);
      verdicts := verdicts + [v];
      if !v.valid {
        allValid := false;
      }
      i := i + 1;
    }
  }

  /** Appending a verdict keeps the earlier ones, so all are valid exactly
      when the earlier ones and the new one are. */
  lemma ValidAfterAppend(verdicts: seq<Verdict>, v: Verdict)
    ensures (forall k :: 0 <= k < |verdicts + [v]| ==> (verdicts + [v])[k].valid)
        <==> (forall k :: 0 <= k < |verdicts| ==> verdicts[k].valid) && v.valid
  {
    assert (verdicts + [v])[|verdicts|] == v;
    assert forall k :: 0 <= k < |verdicts| ==> (verdicts + [v])[k] == verdicts[k];
  }

  /** Appending the next field's verdict keeps every verdict the one
      validateField gives its field. */
  lemma VerdictsAfterAppend(fields: seq<Field>, verdicts: seq<Verdict>, v: Verdict)
    requires |verdicts| < |fields| && v == ValidateField(fields[|verdicts|])
    requires forall k :: 0 <= k < |verdicts| ==> verdicts[k] == ValidateField(fields[k])
    ensures forall k :: 0 <= k < |verdicts| + 1 ==> (verdicts + [v])[k] == ValidateField(fields[k])
  {
    forall k | 0 <= k < |verdicts| + 1
      ensures (verdicts + [v])[k] == ValidateField(fields[k])
    {
      if k < |verdicts| {
        assert (verdicts + [v])[k] == verdicts[k];
      }
    }
  }

  /** All fields are valid exactly when none breaks the rule for its kind. */
  lemma NoFieldBreaksRule(fields: seq<Field>)
    ensures (forall k :: 0 <= k < |fields| ==> ValidateField(fields[k]).valid)
        <==> (forall k :: 0 <= k < |fields| ==> !BreaksFieldRule(fields[k]))
  {
    forall k | 0 <= k < |fields| ensures ValidateField(fields[k]).valid <==> !BreaksFieldRule(fields[k]) {
      FieldInvalidExactly(fields[k]);
    }
  }
}
