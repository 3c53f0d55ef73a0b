/** The contact page's enquiry form. Submission is simulated: the status
    goes to "submitting", and a timer later marks it sent and clears the
    form. There is no failure path. */
module Contact {

  datatype ContactForm = ContactForm(name: string, email: string, phone: string, subject: string, message: string)

  const EmptyForm: ContactForm := ContactForm("", "", "", "", "")

  /** The form inputs, by their `name` attribute. */
  datatype Field = Name | Email | Phone | Subject | Message

  function Get(f: ContactForm, field: Field): string {
    match field
    case Name => f.name
    case Email => f.email
    case Phone => f.phone
    case Subject => f.subject
    case Message => f.message
  }

  /** `handleChange`: the named field takes the input's value, the others
      keep theirs. */
  function HandleChange(f: ContactForm, field: Field, value: string): (r: ContactForm)
    ensures Get(r, field) == value
    ensures forall g: Field :: g != field ==> Get(r, g) == Get(f, g)
  {
    match field
    case Name => f.(name := value)
    case Email => f.(email := value)
    case Phone => f.(phone := value)
    case Subject => f.(subject := value)
    case Message => f.(message := value)
  }

  /** Two forms that agree on every field are the same form. */
  lemma FieldsDetermineForm(a: ContactForm, b: ContactForm)
    requires forall g: Field :: Get(a, g) == Get(b, g)
    ensures a == b
  {
    assert Get(a, Name) == Get(b, Name) && Get(a, Email) == Get(b, Email) && Get(a, Phone) == Get(b, Phone);
    assert Get(a, Subject) == Get(b, Subject) && Get(a, Message) == Get(b, Message);
  }

  /** Typing a value and then typing the old one back restores the form. */
  lemma ChangeBack(f: ContactForm, field: Field, value: string)
    ensures HandleChange(HandleChange(f, field, value), field, Get(f, field)) == f
  {
    var r := HandleChange(HandleChange(f, field, value), field, Get(f, field));
    FieldsDetermineForm(r, f);
  }

  datatype Status = Idle | Submitting | Success | Error

  /** The send button is disabled while submitting and after success. */
  predicate SubmitEnabled(st: Status) {
    st != Submitting && st != Success
  }

  /** The send button's label. */
  function ButtonLabel(st: Status): (r: string)
    ensures st == Submitting ==> r == "Sending..."
    ensures st == Success ==> r == "Message Sent!"
    ensures st == Idle || st == Error ==> r == "Send Message"
  {
    match st
    case Submitting => "Sending..."
    case Success => "Message Sent!"
    case _ => "Send Message"
  }

  /** The page: the form, the status, and how many simulated-send timers
      are still pending. */
  datatype ContactPage = ContactPage(form: ContactForm, status: Status, pending: nat)

  const Start: ContactPage := ContactPage(EmptyForm, Idle, 0)

  /** Typing in a field, pressing send, or a pending timer going off. */
  datatype ContactEvent = Change(field: Field, value: string) | Submit | TimerDone

  /** One event. A disabled button cannot submit the form. */
  function Step(pg: ContactPage, e: ContactEvent): (r: ContactPage)
    ensures e.Change? ==> r.status == pg.status && r.pending == pg.pending
    ensures e.Submit? && SubmitEnabled(pg.status) ==> r.status == Submitting && r.pending == pg.pending + 1 && r.form == pg.form
    ensures e.Submit? && !SubmitEnabled(pg.status) ==> r == pg
    ensures e.TimerDone? && pg.pending > 0 ==> r.status == Success && r.form == EmptyForm
  {
    match e
    case Change(field, value) => pg.(form := HandleChange(pg.form, field, value))
    case Submit =>
      if SubmitEnabled(pg.status) then pg.(status := Submitting, pending := pg.pending + 1) else pg
    case TimerDone =>
      if pg.pending > 0 then ContactPage(EmptyForm, Success, pg.pending - 1) else pg
  }

  function Run(pg: ContactPage, es: seq<ContactEvent>): ContactPage
    decreases |es|
  {
    if |es| == 0 then pg else Run(Step(pg, es[0]), es[1..])
  }

  /** What holds on every reachable page: never an error, at most one send
      in flight, and one in flight exactly while submitting. */
  predicate Reachable(pg: ContactPage) {
    pg.status != Error && pg.pending <= 1 && (pg.pending == 1 <==> pg.status == Submitting)
  }

  lemma StepReachable(pg: ContactPage, e: ContactEvent)
    requires Reachable(pg)
    ensures Reachable(Step(pg, e))
  {
  }

  /** From the initial page, whatever is typed and pressed, the error status
      is never reached and the form is never sent twice at once. */
  lemma {:induction false} RunReachable(pg: ContactPage, es: seq<ContactEvent>)
    requires Reachable(pg)
    ensures Reachable(Run(pg, es))
    decreases |es|
  {
    if |es| > 0 {
      StepReachable(pg, es[0]);
      RunReachable(Step(pg, es[0]), es[1..]);
    }
  }

  lemma NeverError(es: seq<ContactEvent>)
    ensures Run(Start, es).status != Error
  {
    RunReachable(Start, es);
  }

  /** Once sent, always sent: the page offers no way back. */
  lemma {:induction false} SuccessSticky(pg: ContactPage, es: seq<ContactEvent>)
    requires pg.status == Success
    ensures Run(pg, es).status == Success
    decreases |es|
  {
    if |es| > 0 {
      SuccessSticky(Step(pg, es[0]), es[1..]);
    }
  }

  /** Filling in the form, sending it and letting the timer run leaves a
      sent page with an empty form. */
  lemma SendScenario(name: string)
    ensures Run(Start, [Change(Name, name), Submit, TimerDone]) == ContactPage(EmptyForm, Success, 0)
  {
    var es := [Change(Name, name), Submit, TimerDone];
    assert es[1..] == [Submit, TimerDone] && es[1..][1..] == [TimerDone];
    var p1 := Step(Start, es[0]);
    assert p1.status == Idle && p1.pending == 0;
    var p2 := Step(p1, Submit);
    assert p2.pending == 1;
    assert Run(Start, es) == Run(p2, [TimerDone]);
  }
}
