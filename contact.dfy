/**
 * The contact form: its four fields, the required-field check and the
 * idle -> submitting -> sent sequence of its submit handler.
 */
module Contact {

  /** The form's fields, as the `formData` record holds them. */
  datatype FormData = FormData(name: string, email: string, reason: string, message: string)

  datatype Field = Name | Email | Reason | Message

  /** The values the reason select offers. */
  const ReasonOptions: seq<string> := ["general", "collaboration", "event", "publishing"]

  const InitialForm: FormData := FormData("", "", "general", "")

  /** The fields the submit handler insists on; the reason is not among them. */
  const RequiredFields: seq<Field> := [Name, Email, Message]

  function Get(fd: FormData, f: Field): string
  {
    match f
    case Name => fd.name
    case Email => fd.email
    case Reason => fd.reason
    case Message => fd.message
  }

  /** `{ ...formData, [field]: value }`: the edited field reads back as the new value. */
  function Set(fd: FormData, f: Field, value: string): (r: FormData)
    ensures Get(r, f) == value
  {
    match f
    case Name => fd.(name := value)
    case Email => fd.(email := value)
    case Reason => fd.(reason := value)
    case Message => fd.(message := value)
  }

  /** An edit replaces exactly one field and leaves the other three as they were. */
  lemma SetSpec(fd: FormData, f: Field, value: string)
    ensures Get(Set(fd, f, value), f) == value
    ensures forall g :: g != f ==> Get(Set(fd, f, value), g) == Get(fd, g)
  {
  }

  /** `!formData.name || !formData.email || !formData.message` rejects. */
  function Accepts(fd: FormData): (ok: bool)
    ensures ok <==> forall f :: f in RequiredFields ==> Get(fd, f) != ""
  {
    assert forall f :: f in RequiredFields <==> f != Reason;
    assert Get(fd, Name) == fd.name && Get(fd, Email) == fd.email && Get(fd, Message) == fd.message;
    !(fd.name == "" || fd.email == "" || fd.message == "")
  }

  /** The reason never affects the check, and the e-mail needs no "@". */
  lemma AcceptsIgnoresReasonAndEmailShape(fd: FormData, reason: string)
    ensures Accepts(Set(fd, Reason, reason)) == Accepts(fd)
    ensures Accepts(FormData("Ada", "ada", "", "Hello"))
    ensures !Accepts(InitialForm)
  {
  }

  datatype Phase = Idle | Submitting | Sent

  /** The section's state: the form record and the two flags its handler sets. */
  class ContactForm {
    var formData: FormData
    var isSubmitting: bool
    var isSent: bool

    /** The reason is one the select offers, and the two flags are never both set. */
    ghost predicate Valid()
      reads this
    {
      formData.reason in ReasonOptions && !(isSubmitting && isSent)
    }

    constructor ()
      ensures Valid()
      ensures formData == InitialForm && !isSubmitting && !isSent
    {
      formData := InitialForm;
      isSubmitting := false;
      isSent := false;
    }

    function CurrentPhase(): Phase
      reads this
    {
      if isSent then Sent else if isSubmitting then Submitting else Idle
    }

    /** The form is rendered until the message is sent; then the confirmation replaces it. */
    predicate FormShown()
      reads this
    {
      !isSent
    }

    predicate SubmitEnabled()
      reads this
    {
      !isSubmitting
    }

    /** One of the four `onChange` handlers; the select only yields its own option values. */
    method Edit(f: Field, value: string)
      requires Valid() && FormShown()
      requires f == Reason ==> value in ReasonOptions
      modifies this
      ensures Valid()
      ensures formData == Set(old(formData), f, value)
      ensures isSubmitting == old(isSubmitting) && isSent == old(isSent)
    {
      formData := Set(formData, f, value);
    }

    /** The synchronous part of `handleSubmit`. */
    method Submit() returns (accepted: bool)
      requires Valid() && FormShown() && SubmitEnabled()
      modifies this
      ensures Valid()
      ensures accepted == Accepts(formData) && formData == old(formData)
      ensures !accepted ==> isSubmitting == old(isSubmitting) && isSent == old(isSent)
      ensures accepted ==> isSubmitting && !isSent
      ensures CurrentPhase() == if accepted then Submitting else Idle
    {
      if formData.name == "" || formData.email == "" || formData.message == "" {
        accepted := false;
        return;
      }
      accepted := true;
      isSubmitting := true;
    }

    /** What runs once the simulated request resolves. */
    method FinishSubmit()
      requires Valid() && isSubmitting
      modifies this
      ensures Valid()
      ensures old(CurrentPhase()) == Submitting && CurrentPhase() == Sent
      ensures !isSubmitting && isSent && formData == old(formData)
      ensures !FormShown()
    {
      isSubmitting := false;
      isSent := true;
    }
  }

  /** A message: an incomplete form is refused; a complete one ends in the confirmation. */
  method MessageWalkThrough()
  {
    var form := new ContactForm();
    form.Edit(Name, "Ada");
    form.Edit(Reason, "event");
    var ok := form.Submit();
    assert !ok && form.CurrentPhase() == Idle;
    form.Edit(Email, "ada");
    form.Edit(Message, "Hello");
    assert form.formData == FormData("Ada", "ada", "event", "Hello");
    ok := form.Submit();
    assert ok;
    form.FinishSubmit();
    assert form.CurrentPhase() == Sent && !form.FormShown();
  }
}
