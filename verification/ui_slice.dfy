/**
 * The ui slice (src/redux/slices/uiSlice.ts): the displayed view and date,
 * the displayed date range, and the create/edit event dialog.
 */
module UiSlice {
  import opened Wrappers
  import opened Calendar
  import opened Instants
  import opened DateText
  import opened DateUtils

  datatype View = DayView | WeekView | MonthView | YearView

  datatype Mode = CreateMode | EditMode

  /** Prefilled dialog fields; each one may be absent. */
  datatype InitialData = InitialData(
    title: Option<string>,
    category: Option<string>,
    start: Option<Instant>,
    end: Option<Instant>,
    taskId: Option<string>,
    goalId: Option<string>)

  datatype EventModalState = EventModalState(
    isOpen: bool,
    mode: Mode,
    eventId: Option<string>,
    initialData: Option<InitialData>)

  datatype DateRange = DateRange(start: Instant, end: Instant)

  /** `currentDate` is kept as 'yyyy-MM-dd' text. */
  datatype UiState = UiState(
    currentView: View,
    currentDate: string,
    dateRange: DateRange,
    eventModal: EventModalState)

  /** The payload of `openEventModal`; its own `isOpen` is always overridden. */
  datatype ModalRequest = ModalRequest(mode: Mode, eventId: Option<string>, initialData: Option<InitialData>)

  datatype Action =
    | SetCurrentView(view: View)
    | SetCurrentDate(date: string)
    | SetDateRange(range: DateRange)
    | OpenEventModal(request: ModalRequest)
    | CloseEventModal

  /** The dialog as closing leaves it: create mode, no event, no prefill. */
  const ClosedModal: EventModalState := EventModalState(false, CreateMode, None, None)

  /**
   * The state at start-up, with the wall clock `now` passed in: week view on
   * today, the range Monday 00:00 to the following Sunday 00:00, dialog closed.
   */
  function InitialState(now: Instant): (s: UiState)
    ensures s.currentView == WeekView && !s.eventModal.isOpen && s.eventModal.mode == CreateMode
    ensures InFourDigitYears(DayOf(now)) ==> ParseDay(s.currentDate) == Some(DayOf(now))
    ensures s.dateRange.start == StartOfDay(s.dateRange.start) && Weekday(DayOf(s.dateRange.start)) == 0
    ensures DayOf(s.dateRange.start) <= DayOf(now) < DayOf(s.dateRange.start) + 7
    ensures s.dateRange.end - s.dateRange.start == 6 * MsPerDay
  {
    var monday := GetWeekDays(now)[0];
    UiState(WeekView, FormatDate(now), DateRange(monday, monday + 6 * MsPerDay), ClosedModal)
  }

  function Reduce(s: UiState, a: Action): (r: UiState)
    ensures a.SetCurrentView? ==>
              (r.currentView == a.view && r.currentDate == s.currentDate
               && r.dateRange == s.dateRange && r.eventModal == s.eventModal)
    ensures a.SetCurrentDate? ==>
              (r.currentDate == a.date && r.currentView == s.currentView
               && r.dateRange == s.dateRange && r.eventModal == s.eventModal)
    ensures a.SetDateRange? ==>
              (r.dateRange == a.range && r.currentView == s.currentView
               && r.currentDate == s.currentDate && r.eventModal == s.eventModal)
    ensures a.OpenEventModal? ==>
              (r.eventModal.isOpen && r.eventModal.mode == a.request.mode
               && r.eventModal.eventId == a.request.eventId
               && r.eventModal.initialData == a.request.initialData)
    ensures a.CloseEventModal? ==>
              (!r.eventModal.isOpen && r.eventModal.mode == CreateMode
               && r.eventModal.eventId.None? && r.eventModal.initialData.None?)
    ensures a.OpenEventModal? || a.CloseEventModal? ==>
              (r.currentView == s.currentView && r.currentDate == s.currentDate && r.dateRange == s.dateRange)
  {
    match a
    case SetCurrentView(v) => s.(currentView := v)
    case SetCurrentDate(d) => s.(currentDate := d)
    case SetDateRange(range) => s.(dateRange := range)
    case OpenEventModal(req) => s.(eventModal := EventModalState(true, req.mode, req.eventId, req.initialData))
    case CloseEventModal => s.(eventModal := ClosedModal)
  }

  /** Closing forgets everything the dialog held, so closing twice is closing once. */
  lemma CloseIdempotent(s: UiState)
    ensures Reduce(Reduce(s, CloseEventModal), CloseEventModal) == Reduce(s, CloseEventModal)
  {
  }

  /** Whatever was opened, closing returns the dialog to the start-up state. */
  lemma CloseAfterOpen(now: Instant, s: UiState, req: ModalRequest)
    ensures Reduce(Reduce(s, OpenEventModal(req)), CloseEventModal).eventModal
            == InitialState(now).eventModal
  {
  }
}
