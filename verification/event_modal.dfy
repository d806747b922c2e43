/**
 * The create/edit dialog (src/components/calendar/EventModal.tsx): how the
 * form is filled from the dialog state, what a submit sends to the store,
 * and the delete and close buttons.
 */
module EventModal {
  import opened Wrappers
  import opened Instants
  import opened DateText
  import opened EventsSlice
  import opened UiSlice

  /** The six form fields, as the inputs hold them. */
  datatype Form = Form(
    title: string,
    category: string,
    startDate: string,
    startTime: string,
    endDate: string,
    endTime: string)

  /** The form as it starts and as `resetForm` leaves it. */
  const EmptyForm: Form := Form("", "work", "", "", "", "")

  /** Why a submit sends nothing. */
  datatype Rejection = MissingField | EndNotAfterStart | UnparsableDateTime

  /** What a submit does: nothing, `createEvent` with a draft, or `updateEvent`. */
  datatype Submission = Rejected(reason: Rejection) | Create(draft: Event) | Update(event: Event)

  /** The dialog edits a stored event when it is in edit mode with a (truthy) event id. */
  predicate Editing(modal: EventModalState) {
    modal.mode == EditMode && Truthy(modal.eventId)
  }

  /** The four date and time fields of a start and an end instant. */
  function TimeFields(form: Form, start: Instant, end: Instant): (r: Form)
    ensures r.title == form.title && r.category == form.category
    ensures r.startDate == FormatDate(start) && r.startTime == FormatHourMinute(start)
    ensures r.endDate == FormatDate(end) && r.endTime == FormatHourMinute(end)
  {
    form.(startDate := FormatDate(start), startTime := FormatHourMinute(start),
          endDate := FormatDate(end), endTime := FormatHourMinute(end))
  }

  /**
   * The effect that fills the form when the dialog state changes: from the
   * stored event when editing (nothing changes when no event has the id),
   * otherwise from the truthy fields of the prefill data.
   */
  function Prefill(form: Form, modal: EventModalState, events: seq<Event>): (r: Form)
    ensures Editing(modal) && FindIndex(events, modal.eventId).Some? ==>
              var e := events[FindIndex(events, modal.eventId).value];
              r == TimeFields(form.(title := e.title, category := e.category), e.start, e.end)
    ensures Editing(modal) && FindIndex(events, modal.eventId).None? ==> r == form
    ensures !Editing(modal) && modal.initialData.None? ==> r == form
    ensures !Editing(modal) && modal.initialData.Some? ==>
              var d := modal.initialData.value;
              r.title == (if Truthy(d.title) then d.title.value else form.title)
              && r.category == (if Truthy(d.category) then d.category.value else form.category)
              && (d.start.None? ==> r.startDate == form.startDate && r.startTime == form.startTime)
              && (d.start.Some? ==> r.startDate == FormatDate(d.start.value)
                                    && r.startTime == FormatHourMinute(d.start.value))
              && (d.end.None? ==> r.endDate == form.endDate && r.endTime == form.endTime)
              && (d.end.Some? ==> r.endDate == FormatDate(d.end.value)
                                  && r.endTime == FormatHourMinute(d.end.value))
  {
    if Editing(modal) then
      match FindIndex(events, modal.eventId)
      case None => form
      case Some(i) =>
        var e := events[i];
        TimeFields(form.(title := e.title, category := e.category), e.start, e.end)
    else if modal.initialData.Some? then
      var d := modal.initialData.value;
      var titled := form.(title := if Truthy(d.title) then d.title.value else form.title,
                          category := if Truthy(d.category) then d.category.value else form.category);
      var started := if d.start.Some? then
                       titled.(startDate := FormatDate(d.start.value), startTime := FormatHourMinute(d.start.value))
                     else titled;
      if d.end.Some? then
        started.(endDate := FormatDate(d.end.value), endTime := FormatHourMinute(d.end.value))
      else started
    else form
  }

  predicate AllFilled(form: Form) {
    form.title != "" && form.category != "" && form.startDate != "" && form.startTime != ""
    && form.endDate != "" && form.endTime != ""
  }

  /**
   * The submit logic, given the task and goal links the draft carries:
   * every field must be filled, both composed date-times must name an
   * instant, and the end must come strictly after the start.
   */
  function SubmitWith(form: Form, modal: EventModalState, taskId: Option<string>, goalId: Option<string>): (r: Submission)
    ensures r == Rejected(MissingField) <==> !AllFilled(form)
    ensures r == Rejected(UnparsableDateTime) <==>
              (AllFilled(form)
               && (ParseDateTime(ComposeDateTime(form.startDate, form.startTime)).None?
                   || ParseDateTime(ComposeDateTime(form.endDate, form.endTime)).None?))
    ensures !r.Rejected? <==>
              (AllFilled(form)
               && ParseDateTime(ComposeDateTime(form.startDate, form.startTime)).Some?
               && ParseDateTime(ComposeDateTime(form.endDate, form.endTime)).Some?
               && ParseDateTime(ComposeDateTime(form.startDate, form.startTime)).value
                  < ParseDateTime(ComposeDateTime(form.endDate, form.endTime)).value)
    ensures !r.Rejected? ==>
              var e := if r.Create? then r.draft else r.event;
              e.title == form.title && e.category == form.category
              && Some(e.start) == ParseDateTime(ComposeDateTime(form.startDate, form.startTime))
              && Some(e.end) == ParseDateTime(ComposeDateTime(form.endDate, form.endTime))
              && e.taskId == taskId && e.goalId == goalId
    ensures r.Update? <==> !r.Rejected? && Editing(modal)
    ensures r.Update? ==> r.event.id == modal.eventId
    ensures r.Create? ==> r.draft.id.None?
  {
    if !AllFilled(form) then Rejected(MissingField)
    else
      match (ParseDateTime(ComposeDateTime(form.startDate, form.startTime)),
             ParseDateTime(ComposeDateTime(form.endDate, form.endTime)))
      case (Some(start), Some(end)) =>
        if end <= start then Rejected(EndNotAfterStart)
        else
          var draft := Event(None, form.title, form.category, start, end, taskId, goalId);
          if Editing(modal) then Update(draft.(id := modal.eventId)) else Create(draft)
      case _ => Rejected(UnparsableDateTime)
  }

  /** `eventModal.initialData?.taskId` and `?.goalId`. */
  function PrefillLinks(modal: EventModalState): (links: (Option<string>, Option<string>))
    ensures modal.initialData.None? ==> links == (None, None)
    ensures modal.initialData.Some? ==> links == (modal.initialData.value.taskId, modal.initialData.value.goalId)
  {
    match modal.initialData
    case None => (None, None)
    case Some(d) => (d.taskId, d.goalId)
  }

  /** `handleSubmit` as written: the links always come from the prefill data. */
  function HandleSubmit(form: Form, modal: EventModalState): (r: Submission)
    ensures !r.Rejected? ==>
              var e := if r.Create? then r.draft else r.event;
              (e.taskId, e.goalId) == PrefillLinks(modal)
  {
    SubmitWith(form, modal, PrefillLinks(modal).0, PrefillLinks(modal).1)
  }

  /**
   * The links an edit should keep: the prefill's when there is prefill data,
   * otherwise those of the event being edited.
   */
  function KeptLinks(modal: EventModalState, events: seq<Event>): (links: (Option<string>, Option<string>))
    ensures modal.initialData.Some? ==> links == PrefillLinks(modal)
    ensures modal.initialData.None? && Editing(modal) && FindIndex(events, modal.eventId).Some? ==>
              var e := events[FindIndex(events, modal.eventId).value];
              links == (e.taskId, e.goalId)
  {
    if modal.initialData.Some? || !Editing(modal) then PrefillLinks(modal)
    else match FindIndex(events, modal.eventId)
      case None => (None, None)
      case Some(i) => (events[i].taskId, events[i].goalId)
  }

  /** The submit with the links of the edited event kept. */
  function HandleSubmitKeepingLinks(form: Form, modal: EventModalState, events: seq<Event>): (r: Submission)
    ensures !r.Rejected? ==>
              var e := if r.Create? then r.draft else r.event;
              (e.taskId, e.goalId) == KeptLinks(modal, events)
    ensures !Editing(modal) || modal.initialData.Some? ==> r == HandleSubmit(form, modal)
  {
    SubmitWith(form, modal, KeptLinks(modal, events).0, KeptLinks(modal, events).1)
  }

  /** A submission with the task and goal links of its event replaced; a rejection is kept as it is. */
  function Relinked(s: Submission, taskId: Option<string>, goalId: Option<string>): Submission
  {
    match s
    case Rejected(_) => s
    case Create(d) => Create(d.(taskId := taskId, goalId := goalId))
    case Update(e) => Update(e.(taskId := taskId, goalId := goalId))
  }

  /**
   * The corrected submit differs from the source's only in the links: it
   * rejects exactly the forms the source rejects, for the same reason, and
   * otherwise creates or updates the same event with the kept links.
   */
  lemma KeepingLinksRelinksSource(form: Form, modal: EventModalState, events: seq<Event>)
    ensures HandleSubmitKeepingLinks(form, modal, events)
         == Relinked(HandleSubmit(form, modal), KeptLinks(modal, events).0, KeptLinks(modal, events).1)
  {
  }

  /** `handleDelete`: the id to send to `deleteEvent`, only when the dialog holds a truthy one. */
  function HandleDelete(modal: EventModalState): (id: Option<string>)
    ensures id.Some? <==> Truthy(modal.eventId)
    ensures id.Some? ==> modal.eventId == Some(id.value)
  {
    if Truthy(modal.eventId) then Some(modal.eventId.value) else None
  }

  /** `handleClose`: the dialog closes and the form is reset. */
  function HandleClose(ui: UiState): (r: (UiState, Form))
    ensures !r.0.eventModal.isOpen && r.0.eventModal.mode == CreateMode
    ensures r.0.eventModal.eventId.None? && r.0.eventModal.initialData.None?
    ensures r.0.(eventModal := ui.eventModal) == ui
    ensures r.1.title == "" && r.1.category == "work"
    ensures r.1.startDate == "" && r.1.startTime == "" && r.1.endDate == "" && r.1.endTime == ""
  {
    (UiSlice.Reduce(ui, CloseEventModal), EmptyForm)
  }

  /** After a close the closed dialog's effect leaves the reset form alone. */
  lemma CloseLeavesFormEmpty(ui: UiState, events: seq<Event>)
    ensures var (closed, form) := HandleClose(ui);
            Prefill(form, closed.eventModal, events) == EmptyForm
            && HandleSubmit(form, closed.eventModal) == Rejected(MissingField)
  {
  }

  /** A confirmed delete removes every event with the dialog's id, and only those. */
  lemma DeleteRemovesThatEvent(s: EventsState, modal: EventModalState)
    requires HandleDelete(modal).Some?
    ensures forall e :: e in EventsSlice.Reduce(s, DeleteFulfilled(HandleDelete(modal).value)).events
                    <==> e in s.events && e.id != modal.eventId
  {
  }

  /**
   * Opening a stored event for editing and saving it unchanged sends the
   * event back with its title, category, start and end, provided both ends
   * lie on whole minutes in four-digit years. With the links kept, and no
   * prefill data to override them, the event comes back exactly as stored.
   */
  lemma EditRoundTrip(form: Form, modal: EventModalState, events: seq<Event>, i: nat)
    requires Editing(modal)
    requires i < |events| && events[i].id == modal.eventId
    requires forall j :: 0 <= j < i ==> events[j].id != modal.eventId
    requires events[i].title != "" && events[i].category != ""
    requires events[i].start < events[i].end
    requires SecondOf(events[i].start) == 0 && MillisecondOf(events[i].start) == 0
    requires SecondOf(events[i].end) == 0 && MillisecondOf(events[i].end) == 0
    requires InFourDigitYears(DayOf(events[i].start)) && InFourDigitYears(DayOf(events[i].end))
    ensures var filled := Prefill(form, modal, events);
            HandleSubmit(filled, modal)
            == Update(events[i].(taskId := PrefillLinks(modal).0, goalId := PrefillLinks(modal).1))
            && (modal.initialData.None? ==> HandleSubmitKeepingLinks(filled, modal, events) == Update(events[i]))
  {
    var e := events[i];
    assert FindIndex(events, modal.eventId) == Some(i);
    var filled := Prefill(form, modal, events);
    assert filled == Form(e.title, e.category, FormatDate(e.start), FormatHourMinute(e.start),
                          FormatDate(e.end), FormatHourMinute(e.end));
    ComposeFormatted(e.start);
    ComposeFormatted(e.end);
    SubmitAccepted(filled, modal, PrefillLinks(modal).0, PrefillLinks(modal).1, e.start, e.end);
    SubmitAccepted(filled, modal, KeptLinks(modal, events).0, KeptLinks(modal, events).1, e.start, e.end);
  }

  /** A filled form whose two date-times parse in order is sent as an update when editing. */
  lemma SubmitAccepted(form: Form, modal: EventModalState, taskId: Option<string>, goalId: Option<string>,
                       start: Instant, end: Instant)
    requires AllFilled(form) && Editing(modal)
    requires ParseDateTime(ComposeDateTime(form.startDate, form.startTime)) == Some(start)
    requires ParseDateTime(ComposeDateTime(form.endDate, form.endTime)) == Some(end)
    requires start < end
    ensures SubmitWith(form, modal, taskId, goalId)
            == Update(Event(modal.eventId, form.title, form.category, start, end, taskId, goalId))
  {
  }

  /**
   * The dialog is always opened for editing without prefill data, so saving
   * an edit unchanged unlinks the event from its task and goal.
   */
  lemma EditDropsLinks(form: Form, events: seq<Event>, i: nat)
    requires i < |events| && Truthy(events[i].id)
    requires forall j :: 0 <= j < i ==> events[j].id != events[i].id
    requires events[i].title != "" && events[i].category != ""
    requires events[i].start < events[i].end
    requires SecondOf(events[i].start) == 0 && MillisecondOf(events[i].start) == 0
    requires SecondOf(events[i].end) == 0 && MillisecondOf(events[i].end) == 0
    requires InFourDigitYears(DayOf(events[i].start)) && InFourDigitYears(DayOf(events[i].end))
    ensures var modal := EventModalState(true, EditMode, events[i].id, None);
            HandleSubmit(Prefill(form, modal, events), modal)
            == Update(events[i].(taskId := None, goalId := None))
  {
    EditRoundTrip(form, EventModalState(true, EditMode, events[i].id, None), events, i);
  }
}
