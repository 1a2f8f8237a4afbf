/** The bookmark creation form: two text fields, a submitting flag, and a
    submit handler that inserts one row into the hosted table. */
module BookmarkForm {

  /** What the hosted table answers to the insert request. */
  datatype Outcome = Success | Error

  /** The one row an insert request carries. */
  datatype InsertRow = InsertRow(userId: string, url: string, title: string)

  datatype Option<T> = None | Some(value: T)

  /** The form's local state. */
  datatype FormState = FormState(url: string, title: string, loading: bool)

  /** The state the form is mounted with. */
  const Initial: FormState := FormState("", "", false)

  /** The handler's guard: both fields are non-empty (the empty string is the
      only falsy string). */
  predicate Ready(st: FormState)
    ensures Ready(st) <==> |st.url| > 0 && |st.title| > 0
    // the form as mounted, or as a successful submission leaves it, is never ready
    ensures Ready(st) ==> st.(loading := false) != Initial
  {
    st.url != "" && st.title != ""
  }

  /** The handler up to the request: the guard, the loading flag, and the
      request it sends. */
  function Begin(st: FormState, userId: string): (r: (FormState, Option<InsertRow>))
    ensures !Ready(st) ==> r == (st, None)
    ensures Ready(st) ==> r.0.loading && r.0.url == st.url && r.0.title == st.title
    ensures Ready(st) ==> r.1 == Some(InsertRow(userId, st.url, st.title))
  {
    if !Ready(st) then (st, None)
    else (st.(loading := true), Some(InsertRow(userId, st.url, st.title)))
  }

  /** The handler after the request has been answered. */
  function Finish(st: FormState, outcome: Outcome): (r: FormState)
    ensures !r.loading
    ensures outcome == Success ==> r.url == "" && r.title == ""
    ensures outcome == Error ==> r.url == st.url && r.title == st.title
  {
    match outcome
    case Success => FormState("", "", false)
    case Error => st.(loading := false)
  }

  /** One whole submission, when nothing else changes the fields while the
      request is in flight. */
  function Submitted(st: FormState, userId: string, outcome: Outcome): (r: (FormState, Option<InsertRow>))
    ensures r.1.Some? <==> Ready(st)
    ensures r.1.Some? ==> r.1.value == InsertRow(userId, st.url, st.title)
    ensures !Ready(st) ==> r.0 == st
    ensures Ready(st) ==> !r.0.loading
    ensures Ready(st) && outcome == Success ==> r.0 == Initial
    ensures Ready(st) && outcome == Error ==> r.0 == st.(loading := false)
  {
    var (mid, request) := Begin(st, userId);
    if request.None? then (st, None) else (Finish(mid, outcome), request)
  }

  /** The submit button is disabled exactly while a request is in flight. */
  predicate ButtonDisabled(st: FormState)
    ensures ButtonDisabled(st) <==> st.loading
    // a disabled button always says why
    ensures ButtonDisabled(st) <==> ButtonLabel(st) == "Adding..."
  {
    st.loading
  }

  /** The submit button's label: one of two texts, the busy one exactly while
      a request is in flight. */
  function ButtonLabel(st: FormState): (text: string)
    ensures text == "Adding..." || text == "Add Bookmark"
    ensures text == "Adding..." <==> st.loading
  {
    if st.loading then "Adding..." else "Add Bookmark"
  }

  /** The button is disabled while the request is in flight and enabled again
      once the handler has finished, whatever the outcome. */
  lemma ButtonDuringAndAfterSubmit(st: FormState, userId: string, outcome: Outcome)
    requires Ready(st)
    ensures ButtonDisabled(Begin(st, userId).0)
    ensures ButtonLabel(Begin(st, userId).0) == "Adding..."
    ensures !ButtonDisabled(Submitted(st, userId, outcome).0)
    ensures ButtonLabel(Submitted(st, userId, outcome).0) == "Add Bookmark"
  {
  }

  /** A successful submission leaves the form as it was mounted, so submitting
      again right away sends nothing. */
  lemma SuccessThenResubmit(st: FormState, userId: string, outcome: Outcome)
    requires Ready(st)
    ensures Submitted(Submitted(st, userId, Success).0, userId, outcome)
      == (Initial, None)
  {
  }

  /** A failed submission keeps the fields, so submitting again sends the same
      row again. */
  lemma ErrorThenResubmit(st: FormState, userId: string, outcome: Outcome)
    requires Ready(st)
    ensures Submitted(Submitted(st, userId, Error).0, userId, outcome).1
      == Submitted(st, userId, outcome).1
  {
  }

  /** The mounted form: its three pieces of state, the user it inserts for,
      and the insert requests it has sent. */
  class Form {
    const userId: string
    var url: string
    var title: string
    var loading: bool
    var sent: seq<InsertRow>

    function State(): FormState
      reads this
    {
      FormState(url, title, loading)
    }

    constructor (userId: string)
      ensures this.userId == userId
      ensures State() == Initial
      ensures sent == []
    {
      this.userId := userId;
      url, title, loading := "", "", false;
      sent := [];
    }

    /** The title field's change handler. */
    method SetTitle(value: string)
      modifies this`title
      ensures State() == old(State()).(title := value)
    {
      title := value;
    }

    /** The URL field's change handler. */
    method SetUrl(value: string)
      modifies this`url
      ensures State() == old(State()).(url := value)
    {
      url := value;
    }

    /** The submit handler up to its `await`: returns at once when a field is
      empty; otherwise sets the loading flag and sends exactly one insert. */
    method BeginSubmit() returns (request: Option<InsertRow>)
      modifies this`loading, this`sent
      ensures (State(), request) == Begin(old(State()), userId)
      ensures request.Some? ==> loading
      ensures sent == old(sent) + (if request.Some? then [request.value] else [])
    {
      if url == "" || title == "" {
        return None;
      }
      loading := true;
      request := Some(InsertRow(userId, url, title));
      sent := sent + [request.value];
    }

    /** The submit handler after its `await`: clears the fields on success,
        keeps them on error, and resets the loading flag either way. */
    method FinishSubmit(outcome: Outcome)
      modifies this`url, this`title, this`loading
      ensures State() == Finish(old(State()), outcome)
    {
      if outcome == Success {
        url := "";
        title := "";
      }
      loading := false;
    }

    /** The whole submit handler, with nothing typed into the fields while the
        request is in flight. */
    method Submit(outcome: Outcome) returns (request: Option<InsertRow>)
      modifies this`url, this`title, this`loading, this`sent
      ensures (State(), request) == Submitted(old(State()), userId, outcome)
      ensures sent == old(sent) + (if request.Some? then [request.value] else [])
    {
      request := BeginSubmit();
      if request.Some? {
        FinishSubmit(outcome);
      }
    }
  }
}
