/**
 * The newsletter sign-up form: the e-mail check and the
 * idle -> submitting -> subscribed sequence of its submit handler.
 */
module Newsletter {
  import opened Text

  /** `!email || !email.includes('@')` rejects; everything else is accepted. */
  function AcceptsEmail(email: string): (ok: bool)
    ensures ok <==> '@' in email
  {
    IncludesChar(email, '@');
    !(email == "" || !Includes(email, "@"))
  }

  /** A lone "@" passes the check, and so does an ordinary address. */
  lemma AcceptsEmailExamples()
    ensures AcceptsEmail("@") && AcceptsEmail("reader@example.org")
  {
    assert "@"[0] == '@';
    assert "reader@example.org"[6] == '@';
  }

  /** No string without an "@", the empty one included, passes the check. */
  lemma RejectsEmailExamples()
    ensures !AcceptsEmail("") && !AcceptsEmail("reader.example")
  {
    var s := "reader.example";
    assert forall i :: 0 <= i < |s| ==> s[i] != '@';
  }

  /** Where the form is in its submit sequence. */
  datatype Phase = Idle | Submitting | Subscribed

  /** The section's state: the e-mail field and the two flags its handler sets. */
  class NewsletterForm {
    var email: string
    var isSubmitting: bool
    var isSubscribed: bool

    /** The two flags are never both set. */
    ghost predicate Valid()
      reads this
    {
      !(isSubmitting && isSubscribed)
    }

    constructor ()
      ensures Valid()
      ensures email == "" && !isSubmitting && !isSubscribed
    {
      email := "";
      isSubmitting := false;
      isSubscribed := false;
    }

    function CurrentPhase(): Phase
      reads this
    {
      if isSubscribed then Subscribed else if isSubmitting then Submitting else Idle
    }

    /** The form is rendered until the subscription is confirmed; then the confirmation replaces it. */
    predicate FormShown()
      reads this
    {
      !isSubscribed
    }

    /** The submit button is disabled while a submission is pending. */
    predicate SubmitEnabled()
      reads this
    {
      !isSubmitting
    }

    /** Typing in the e-mail field. */
    method SetEmail(value: string)
      requires Valid() && FormShown()
      modifies this
      ensures Valid()
      ensures email == value
      ensures isSubmitting == old(isSubmitting) && isSubscribed == old(isSubscribed)
    {
      email := value;
    }

    /**
     * The synchronous part of `handleSubmit`: a rejected address changes
     * nothing; an accepted one starts the submission.
     */
    method Submit() returns (accepted: bool)
      requires Valid() && FormShown() && SubmitEnabled()
      modifies this
      ensures Valid()
      ensures accepted == AcceptsEmail(email) && email == old(email)
      ensures !accepted ==> isSubmitting == old(isSubmitting) && isSubscribed == old(isSubscribed)
      ensures accepted ==> isSubmitting && !isSubscribed
      ensures CurrentPhase() == if accepted then Submitting else Idle
    {
      if email == "" || !Includes(email, "@") {
        accepted := false;
        return;
      }
      accepted := true;
      isSubmitting := true;
    }

    /** What runs once the simulated request resolves: the submission ends and the reader is subscribed. */
    method FinishSubmit()
      requires Valid() && isSubmitting
      modifies this
      ensures Valid()
      ensures old(CurrentPhase()) == Submitting && CurrentPhase() == Subscribed
      ensures !isSubmitting && isSubscribed && email == old(email)
      ensures !FormShown()
    {
      isSubmitting := false;
      isSubscribed := true;
    }
  }

  /** A sign-up: a rejected address leaves the form idle; an accepted one ends in the confirmation. */
  method SignUpWalkThrough()
  {
    var form := new NewsletterForm();
    form.SetEmail("reader.example");
    var ok := form.Submit();
    assert !ok by { RejectsEmailExamples(); }
    assert form.CurrentPhase() == Idle;
    form.SetEmail("reader@example.org");
    ok := form.Submit();
    assert ok by { AcceptsEmailExamples(); }
    assert !form.SubmitEnabled();
    form.FinishSubmit();
    assert form.CurrentPhase() == Subscribed && !form.FormShown();
  }
}
