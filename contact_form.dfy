/** The contact form's submit handler (`initContactForm`): which notification a
    submission produces and whether the form is cleared. */
module ContactForm {
  import opened Email
  import opened Notifications

  /** The values of the form's four inputs that the submit handler receives, as it
      reads them through `.value`. */
  datatype Fields = Fields(name: string, email: string, subject: string, message: string)

  /** What `form.reset()` leaves in the inputs (their default values are empty). */
  const Cleared := Fields("", "", "", "")

  /** The outcome of one submission. */
  datatype Verdict = MissingField | InvalidEmail | Accepted

  const FillInAllFields := "Please fill in all fields"
  const EnterValidEmail := "Please enter a valid email address"
  const MessageSent := "Message sent successfully! I'll get back to you soon."

  /** Some input is the empty string (the handler tests `!value`, with no trim). */
  predicate SomeFieldEmpty(f: Fields) {
    f.name == "" || f.email == "" || f.subject == "" || f.message == ""
  }

  /** The handler's two checks, in its order: first the empty-field check, then the
      e-mail pattern, which is consulted only when every input is filled. */
  function Validate(f: Fields): (v: Verdict)
    ensures v == MissingField <==> SomeFieldEmpty(f)
    ensures v == InvalidEmail <==> !SomeFieldEmpty(f) && !IsValidEmail(f.email)
    ensures v == Accepted <==> !SomeFieldEmpty(f) && IsValidEmail(f.email)
  {
    if SomeFieldEmpty(f) then MissingField
    else if !IsValidEmail(f.email) then InvalidEmail
    else Accepted
  }

  /** The verdict in structural terms: missing exactly when an input is empty;
      otherwise accepted exactly when the e-mail is a well-formed address. */
  lemma ValidateMeaning(f: Fields)
    ensures Validate(f) == MissingField <==> SomeFieldEmpty(f)
    ensures Validate(f) == InvalidEmail <==> !SomeFieldEmpty(f) && !WellFormedAddress(f.email)
    ensures Validate(f) == Accepted <==> !SomeFieldEmpty(f) && WellFormedAddress(f.email)
  {
    ValidEmailIffWellFormed(f.email);
  }

  /** The text of the toast a verdict produces. The three texts differ, so the toast
      tells the verdict. */
  function FeedbackMessage(v: Verdict): (m: string)
    ensures m == FillInAllFields <==> v == MissingField
    ensures m == EnterValidEmail <==> v == InvalidEmail
    ensures m == MessageSent <==> v == Accepted
  {
    assert |FillInAllFields| == 25 && |EnterValidEmail| == 34 && |MessageSent| == 53;
    match v
    case MissingField => FillInAllFields
    case InvalidEmail => EnterValidEmail
    case Accepted => MessageSent
  }

  /** The kind of the toast a verdict produces. */
  function FeedbackKind(v: Verdict): (k: Kind)
    ensures k == Success <==> v == Accepted
  {
    if v == Accepted then Success else Error
  }

  /** The inputs after the submission: `form.reset()` runs only after both checks
      passed; either early return keeps what was typed. */
  function FieldsAfter(f: Fields): (g: Fields)
    ensures SomeFieldEmpty(f) ==> g == f
    ensures !IsValidEmail(f.email) ==> g == f
    ensures !SomeFieldEmpty(f) && IsValidEmail(f.email) ==> g == Cleared
  {
    if Validate(f) == Accepted then Cleared else f
  }

  /** Any empty input is reported as "Please fill in all fields", as an error, and the
      inputs are kept. */
  lemma EmptyFieldRejected(f: Fields)
    requires SomeFieldEmpty(f)
    ensures FeedbackMessage(Validate(f)) == FillInAllFields
    ensures FeedbackKind(Validate(f)) == Error
    ensures FieldsAfter(f) == f
  {
  }

  /** The empty-field check comes first: an empty e-mail never gets the invalid-address
      message, although the empty string is not an address. */
  lemma EmptyEmailNotReportedInvalid(f: Fields)
    requires f.email == ""
    ensures FeedbackMessage(Validate(f)) != EnterValidEmail
    ensures !IsValidEmail(f.email)
  {
    assert FillInAllFields != EnterValidEmail by {
      assert FillInAllFields[7] != EnterValidEmail[7];
    }
  }

  /** Once all four inputs are non-empty, the outcome depends on the e-mail only. */
  lemma OnlyEmailDecides(f: Fields, g: Fields)
    requires !SomeFieldEmpty(f) && !SomeFieldEmpty(g)
    requires f.email == g.email
    ensures Validate(f) == Validate(g)
  {
  }

  /** With all inputs filled: an invalid address is an error toast and keeps the inputs;
      a valid one is a success toast and clears them. */
  lemma FilledFormOutcome(f: Fields)
    requires !SomeFieldEmpty(f)
    ensures !IsValidEmail(f.email) ==>
      FeedbackMessage(Validate(f)) == EnterValidEmail && FeedbackKind(Validate(f)) == Error
      && FieldsAfter(f) == f
    ensures IsValidEmail(f.email) ==>
      FeedbackMessage(Validate(f)) == MessageSent && FeedbackKind(Validate(f)) == Success
      && FieldsAfter(f) == Cleared
  {
    ValidEmailIffWellFormed(f.email);
  }

  /** White space counts as filled in (nothing is trimmed): a name of blanks only, with
      the other inputs filled and an address the pattern accepts, is accepted. */
  lemma BlankFieldsAccepted(f: Fields)
    requires f.name != "" && forall k | 0 <= k < |f.name| :: IsSpace(f.name[k])
    requires f.subject != "" && f.message != ""
    requires IsValidEmail(f.email)
    ensures Validate(f) == Accepted
  {
  }

  /** A blank address is filled in but not an address. (The value is the one the
      handler receives; the browser's cleaning and checking of a `type="email"`
      input before the handler runs are not part of this model.) */
  lemma BlankEmailInvalid(f: Fields)
    requires f.name != "" && f.subject != "" && f.message != ""
    requires f.email != "" && forall k | 0 <= k < |f.email| :: IsSpace(f.email[k])
    ensures Validate(f) == InvalidEmail
  {
    assert IsSpace(f.email[0]);
  }

  /** The sample submission name "A", e-mail "a@b.co", subject "S", message "M" succeeds
      and clears the form. */
  lemma SampleSubmissionAccepted()
    ensures Validate(Fields("A", "a@b.co", "S", "M")) == Accepted
    ensures FieldsAfter(Fields("A", "a@b.co", "S", "M")) == Cleared
  {
    SampleAddressValid();
    ValidEmailIffWellFormed("a@b.co");
  }
}
