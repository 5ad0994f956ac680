/** The page driven by a sequence of user actions and service answers. It
    tracks how many requests have been sent and how many are still
    unanswered, to state the one-request-in-flight discipline that the
    disabled submit button enforces. */
module Flow {
  import opened Optional
  import opened Admission
  import opened View

  /** What can happen to the page. `Responded` is the answer to the request in
      flight. The clear and copy buttons are not guarded here by whether they
      are rendered, so the traces below include every trace the page allows. */
  datatype Event =
    | Picked(pick: Option<File>)
    | ClearPressed
    | SubmitPressed
    | Responded(response: Response)
    | LinesToggled(on: bool)
    | Copied(unit: CopyUnit)
    | CopyTimerFired

  /** The page state, the number of unanswered requests and the number of
      requests sent so far. */
  datatype Session = Session(view: ViewState, inFlight: nat, sent: nat)

  const Start: Session := Session(Initial, 0, 0)

  /** The loading flag is on exactly while the one permitted request is
      unanswered, and the light page never shows inline error text. */
  predicate Inv(v: Variant, q: Session) {
    && q.inFlight <= 1
    && (q.inFlight == 1 <==> q.view.isLoading)
    && q.inFlight <= q.sent
    && Valid(v, q.view)
  }

  /** One event. A response can only arrive for a request that was sent. */
  function Step(v: Variant, q: Session, e: Event): (r: Session)
    ensures Inv(v, q) ==> Inv(v, r)
    ensures q.sent <= r.sent <= q.sent + 1
    ensures r.sent == q.sent + 1 <==> e.SubmitPressed? && SubmitEnabled(q.view)
  {
    match e
    case Picked(pick) => q.(view := FileChosen(v, q.view, pick))
    case ClearPressed => q.(view := Clear(v, q.view))
    case SubmitPressed =>
      var st := SubmitClicked(v, q.view);
      if st.request.Some? then Session(st.state, q.inFlight + 1, q.sent + 1) else q
    case Responded(resp) =>
      if q.inFlight == 0 then q
      else q.(view := Complete(v, q.view, resp), inFlight := q.inFlight - 1)
    case LinesToggled(on) => q.(view := ToggleLines(q.view, on))
    case Copied(u) => q.(view := CopyDone(q.view, u))
    case CopyTimerFired => q.(view := CopyExpired(q.view))
  }

  /** A whole trace of events, applied in order. */
  function Run(v: Variant, q: Session, events: seq<Event>): (r: Session)
    ensures Inv(v, q) ==> Inv(v, r)
    ensures q.sent <= r.sent <= q.sent + |events|
    decreases |events|
  {
    if events == [] then q else Run(v, Step(v, q, events[0]), events[1..])
  }

  /** From a fresh page, whatever happens, at most one request is unanswered
      and the page is loading exactly while it is. */
  lemma AtMostOneInFlight(v: Variant, events: seq<Event>)
    ensures var r := Run(v, Start, events);
      r.inFlight <= 1 && (r.inFlight == 1 <==> r.view.isLoading)
  {
  }

  /** Pressing submit twice in quick succession sends one request. */
  lemma DoubleSubmitSendsOnce(v: Variant, q: Session)
    requires Inv(v, q)
    ensures Step(v, Step(v, q, SubmitPressed), SubmitPressed).sent <= q.sent + 1
  {
  }

  /** Without a selected file, pressing submit sends nothing and changes
      nothing. */
  lemma NoFileNoRequest(v: Variant, q: Session)
    requires q.view.selectedFile.None?
    ensures Step(v, q, SubmitPressed) == q
  {
  }

  /** After the answer, success or failure, the page is idle again and can
      resubmit the file it still holds. */
  lemma AnswerReenablesSubmit(v: Variant, q: Session, resp: Response)
    requires Inv(v, q) && q.inFlight == 1
    ensures var r := Step(v, q, Responded(resp));
      r.inFlight == 0 && !r.view.isLoading
      && (SubmitEnabled(r.view) <==> q.view.selectedFile.Some?)
  {
  }
}
