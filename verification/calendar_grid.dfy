/**
 * The week grid (src/components/calendar/CalendarGrid.tsx): moving an event
 * by drag and drop, opening the create dialog by a click, and sorting the
 * events into the seven day columns.
 */
module CalendarGrid {
  import opened Wrappers
  import opened Seqs
  import opened Arith
  import opened Strings
  import opened Calendar
  import opened Instants
  import opened DateText
  import opened DateUtils
  import opened EventsSlice
  import opened UiSlice

  /** What the drag-and-drop library reports when a drag ends. */
  datatype DropResult = DropResult(draggableId: string, source: string, destination: Option<string>)

  /** Height of the header row above the hour rows, in pixels. */
  const TimelineOffset: int := 60

  /** Length of the event the click-to-create dialog proposes, in minutes. */
  const DefaultDurationMinutes: int := 30

  /**
   * The droppable id of the column showing the day of `day`: `day-yyyy-MM-dd`,
   * from which the drop handler reads back the column's date text.
   */
  function DroppableId(day: Instant): (r: string)
    ensures StartsWith(r, "day-") && DroppableDay(r) == FormatDate(day)
  {
    var r := "day-" + FormatDate(day);
    DroppableDayRoundTrip(FormatDate(day));
    assert r[..4] == "day-";
    r
  }

  /**
   * `destinationId.split('-').slice(1).join('-')`: everything after the
   * first dash, and nothing when there is no dash.
   */
  function DroppableDay(id: string): (r: string)
    ensures '-' !in id ==> r == ""
    ensures '-' in id ==> id == Split(id, '-')[0] + "-" + r
  {
    var parts := Split(id, '-');
    var r := Join(parts[1..], '-');
    if |parts| >= 2 then
      JoinSplit(id, '-');
      assert parts == [parts[0]] + parts[1..];
      JoinCons(parts[0], parts[1..], '-');
      r
    else r
  }

  /** The date text is recovered from a droppable id whatever it holds, dashes included. */
  lemma DroppableDayRoundTrip(d: string)
    ensures DroppableDay("day-" + d) == d
  {
    assert "day-" + d == "day" + ['-'] + d;
    SplitAfterPiece("day", '-', d);
    assert Split("day-" + d, '-')[1..] == Split(d, '-');
    JoinSplit(d, '-');
  }

  /** The column of a day with a four-digit year is a `day-` id that names that day. */
  lemma ColumnIdNamesDay(day: Instant)
    requires InFourDigitYears(DayOf(day))
    ensures StartsWith(DroppableId(day), "day-")
    ensures ParseDay(DroppableDay(DroppableId(day))) == Some(DayOf(day))
  {
    DroppableDayRoundTrip(FormatDate(day));
    ParseFormatDay(DayOf(day));
    assert DroppableId(day)[..4] == "day-";
  }

  /**
   * The moved event: the destination day at the source's hour and minute
   * (seconds and milliseconds cleared), and the end shifted to keep the
   * duration. Everything else about the event is kept.
   */
  function MoveEvent(e: Event, destDay: int): (r: Event)
    ensures DayOf(r.start) == destDay
    ensures HourOf(r.start) == HourOf(e.start) && MinuteOf(r.start) == MinuteOf(e.start)
    ensures SecondOf(r.start) == 0 && MillisecondOf(r.start) == 0
    ensures r.end - r.start == e.end - e.start
    ensures r.(start := e.start, end := e.end) == e
  {
    Decompose(e.start);
    var newStart := SetHours(destDay * MsPerDay, HourOf(e.start), MinuteOf(e.start), 0, 0);
    FieldsOfClock(destDay, HourOf(e.start), MinuteOf(e.start), 0, 0);
    ClockIgnoresDays(0, destDay);
    e.(start := newStart, end := newStart + (e.end - e.start))
  }

  /**
   * `handleDragEnd`: the event to send to `updateEvent`, or None when the
   * drop has no destination, no event carries the dragged id, or the
   * destination id does not name a day (where the source's `toISOString`
   * throws before anything is dispatched).
   */
  function HandleDragEnd(events: seq<Event>, result: DropResult): (r: Option<Event>)
    ensures r.Some? <==>
              (result.destination.Some?
               && (exists i :: 0 <= i < |events| && events[i].id == Some(result.draggableId))
               && ParseDay(DroppableDay(result.destination.value)).Some?)
    ensures r.Some? ==>
              (r.value.id == Some(result.draggableId)
               && DayOf(r.value.start) == ParseDay(DroppableDay(result.destination.value)).value)
    ensures r.Some? ==>
              exists i :: 0 <= i < |events| && events[i].id == Some(result.draggableId)
                          && (forall j :: 0 <= j < i ==> events[j].id != Some(result.draggableId))
                          && r.value.(start := events[i].start, end := events[i].end) == events[i]
                          && r.value.end - r.value.start == events[i].end - events[i].start
  {
    if result.destination.None? then None
    else match FindIndex(events, Some(result.draggableId))
      case None => None
      case Some(i) =>
        match ParseDay(DroppableDay(result.destination.value))
        case None => None
        case Some(day) => Some(MoveEvent(events[i], day))
  }

  /**
   * Dropping an event on a day column moves the first event with that id
   * onto that day, whatever column it came from.
   */
  lemma DropOnColumn(events: seq<Event>, i: nat, source: string, day: Instant)
    requires i < |events| && events[i].id.Some?
    requires forall j :: 0 <= j < i ==> events[j].id != events[i].id
    requires InFourDigitYears(DayOf(day))
    ensures var r := HandleDragEnd(events, DropResult(events[i].id.value, source, Some(DroppableId(day))));
            r == Some(MoveEvent(events[i], DayOf(day)))
            && FormatDate(r.value.start) == FormatDate(day)
  {
    ColumnIdNamesDay(day);
    assert FindIndex(events, events[i].id) == Some(i);
  }

  /**
   * Applied to the store, a successful drop replaces exactly the dragged
   * event, in place; every other event and the fetch status stay.
   */
  lemma DropUpdatesOnlyThatEvent(s: EventsState, result: DropResult)
    requires HandleDragEnd(s.events, result).Some?
    ensures var moved := HandleDragEnd(s.events, result).value;
            var r := EventsSlice.Reduce(s, UpdateFulfilled(moved));
            |r.events| == |s.events| && r.status == s.status && r.error == s.error
            && exists i :: 0 <= i < |s.events| && r.events == s.events[i := moved]
                           && s.events[i].id == moved.id
  {
    var moved := HandleDragEnd(s.events, result).value;
    var i := FindIndex(s.events, Some(result.draggableId)).value;
    assert ReplaceFirst(s.events, moved) == s.events[i := moved];
    var r := EventsSlice.Reduce(s, UpdateFulfilled(moved));
    assert r.events == s.events[i := moved] && s.events[i].id == moved.id;
  }

  /** The 30-minute default end: `setMinutes(getMinutes() + 30)`. */
  function DefaultEnd(start: Instant): (e: Instant)
    ensures e == start + DefaultDurationMinutes * MsPerMinute
  {
    Decompose(start);
    SetMinutes(start, MinuteOf(start) + DefaultDurationMinutes)
  }

  /**
   * `handleGridClick` for a click at (x, y) pixels inside a grid `width`
   * pixels wide: below the header, in one of the seven columns, it asks for
   * the create dialog prefilled with a 30-minute slot at the nearest quarter
   * hour. A zero width makes the column index non-finite, so nothing opens.
   */
  function HandleGridClick(weekDays: seq<Instant>, x: int, y: int, width: nat): (r: Option<ModalRequest>)
    requires |weekDays| == 7
    ensures r.Some? <==> width > 0 && 0 <= x < width && y > TimelineOffset
    ensures r.Some? ==>
              r.value.mode == CreateMode && r.value.eventId.None? && r.value.initialData.Some?
              && r.value.initialData.value == InitialData(None, None, r.value.initialData.value.start,
                                                          r.value.initialData.value.end, None, None)
  {
    if width == 0 || x < 0 || x >= width || y <= TimelineOffset then None
    else
      var column := (7 * x) / width;
      ColumnInRange(x, width);
      var start := RoundToNearestQuarter(TimeAtOffset(y - TimelineOffset, weekDays[column]));
      Some(ModalRequest(CreateMode, None, Some(InitialData(None, None, Some(start), Some(DefaultEnd(start)), None, None))))
  }

  lemma ColumnInRange(x: int, width: nat)
    requires width > 0 && 0 <= x < width
    ensures 0 <= (7 * x) / width < 7
  {
    DivMod(7 * x, width);
    if (7 * x) / width >= 7 {
      MulMonotone(7, (7 * x) / width, width);
    }
  }

  /**
   * Which column a click hits: the k-th of seven equal bands across the
   * grid, the one with k * width <= 7 * x < (k + 1) * width.
   */
  lemma ClickColumn(x: int, width: nat, k: int)
    requires width > 0 && 0 <= x < width
    requires k * width <= 7 * x < (k + 1) * width
    ensures (7 * x) / width == k && 0 <= k < 7
  {
    DivModUnique(7 * x, width, k, 7 * x - k * width);
    if k < 0 {
      MulMonotone(k + 1, 0, width);
    }
    if k >= 7 {
      MulMonotone(7, k, width);
    }
  }

  /**
   * The slot a click proposes: on the clicked column's day, at the quarter
   * hour nearest to the clock time `y - 60` minutes after 07:00, and 30
   * minutes long. The click handler only passes positive offsets, where the
   * window-position lookup as written agrees with the corrected one.
   */
  lemma ClickProposesSlot(weekDays: seq<Instant>, x: int, y: int, width: nat, k: int)
    requires |weekDays| == 7 && width > 0 && 0 <= x < width && y > TimelineOffset
    requires 0 <= k < 7 && k * width <= 7 * x < (k + 1) * width
    ensures var data := HandleGridClick(weekDays, x, y, width).value.initialData.value;
            var clicked := AtClock(DayOf(weekDays[k]), WindowStartHour, y - TimelineOffset, 0, 0);
            data.start.Some? && data.end.Some?
            && MinuteOf(data.start.value) % 15 == 0
            && SecondOf(data.start.value) == 0 && MillisecondOf(data.start.value) == 0
            && -7 * MsPerMinute <= data.start.value - clicked <= 7 * MsPerMinute
            && data.end.value - data.start.value == DefaultDurationMinutes * MsPerMinute
            && GetTimeFromPosition(y - TimelineOffset, weekDays[k]) == clicked
  {
    ClickColumn(x, width, k);
    var p := y - TimelineOffset;
    var clicked := AtClock(DayOf(weekDays[k]), WindowStartHour, p, 0, 0);
    assert clicked == (DayOf(weekDays[k]) * 1440 + WindowStartHour * 60 + p) * MsPerMinute;
    WholeMinuteFields(DayOf(weekDays[k]) * 1440 + WindowStartHour * 60 + p);
    var start := RoundToNearestQuarter(TimeAtOffset(p, weekDays[k]));
    assert TimeAtOffset(p, weekDays[k]) == clicked;
    assert HandleGridClick(weekDays, x, y, width)
        == Some(ModalRequest(CreateMode, None, Some(InitialData(None, None, Some(start), Some(DefaultEnd(start)), None, None))));
  }

  /** The events drawn in the column of `day`: those whose start formats to the same date. */
  function EventsOnDay(events: seq<Event>, day: Instant): (r: seq<Event>)
    ensures |r| <= |events|
    ensures forall e :: e in r <==> e in events && FormatDate(e.start) == FormatDate(day)
  {
    if |events| == 0 then []
    else if FormatDate(events[0].start) == FormatDate(day) then [events[0]] + EventsOnDay(events[1..], day)
    else EventsOnDay(events[1..], day)
  }

  /**
   * A column keeps the order and the repeats of the event list: the filter
   * distributes over concatenation.
   */
  lemma {:induction false} EventsOnDayConcat(a: seq<Event>, b: seq<Event>, day: Instant)
    ensures EventsOnDay(a + b, day) == EventsOnDay(a, day) + EventsOnDay(b, day)
  {
    if |a| == 0 {
      EmptyConcat(a, b);
    } else {
      EventsOnDayConcat(a[1..], b, day);
      TailOfConcat(a, b);
      var x := a[0];
      if FormatDate(x.start) == FormatDate(day) {
        ConcatAssoc([x], EventsOnDay(a[1..], day), EventsOnDay(b, day));
      }
    }
  }

  /** A single event is drawn in a column exactly when its start has the column's date text. */
  lemma EventsOnDaySingle(e: Event, day: Instant)
    ensures EventsOnDay([e], day) == if FormatDate(e.start) == FormatDate(day) then [e] else []
  {
    assert [e][1..] == [];
  }

  /** For four-digit years, two instants share a date text exactly when they share a day. */
  lemma SameDateTextIffSameDay(a: Instant, b: Instant)
    requires InFourDigitYears(DayOf(a)) && InFourDigitYears(DayOf(b))
    ensures FormatDate(a) == FormatDate(b) <==> DayOf(a) == DayOf(b)
  {
    ParseFormatDay(DayOf(a));
    ParseFormatDay(DayOf(b));
  }

  /**
   * An event is drawn in a column exactly when it starts on that column's
   * day, so within one week it is drawn in at most one column.
   */
  lemma EventInItsDayColumn(events: seq<Event>, t: Instant, e: Event, i: int)
    requires e in events && 0 <= i < 7
    requires InFourDigitYears(DayOf(e.start)) && InFourDigitYears(DayOf(GetWeekDays(t)[i]))
    ensures e in EventsOnDay(events, GetWeekDays(t)[i]) <==> DayOf(e.start) == DayOf(GetWeekDays(t)[i])
    ensures e in EventsOnDay(events, GetWeekDays(t)[i]) ==>
              forall j :: 0 <= j < 7 && j != i ==> DayOf(e.start) != DayOf(GetWeekDays(t)[j])
  {
    SameDateTextIffSameDay(e.start, GetWeekDays(t)[i]);
  }

  /** The 06:00-06:30 mock event sits one hour above the 07:00 top of the window. */
  lemma MockWakeUpAboveWindow()
    ensures GetEventPosition(MockEvents[0].start, MockEvents[0].end) == Position(-60, 30)
  {
    var day := DaysFromCivil(Date(2025, 4, 8));
    FieldsOfClock(day, 6, 0, 0, 0);
    FieldsOfClock(day, 6, 30, 0, 0);
  }

  /**
   * Dragging the 09:00-10:00 kickoff of 2025-04-08 onto the column of
   * 2025-04-10 moves it to 09:00-10:00 on 2025-04-10.
   */
  lemma DragKickoffToThursday(source: string)
    ensures HandleDragEnd(MockEvents, DropResult("2", source, Some(DroppableId(LocalDateTime(2025, 4, 10, 0, 0)))))
            == Some(MockEvents[1].(start := LocalDateTime(2025, 4, 10, 9, 0), end := LocalDateTime(2025, 4, 10, 10, 0)))
  {
    var thursday := DaysFromCivil(Date(2025, 4, 10));
    var tuesday := DaysFromCivil(Date(2025, 4, 8));
    var midnight := LocalDateTime(2025, 4, 10, 0, 0);
    LocalDateTimeFields(2025, 4, 10, 0, 0);
    DropOnColumn(MockEvents, 1, source, midnight);
    MoveKeepsClock(MockEvents[1], tuesday, 9, 0, 10, 0, thursday);
  }

  /** Moving an event that starts and ends on whole minutes keeps both clock readings. */
  lemma MoveKeepsClock(e: Event, day: int, h: int, m: int, h2: int, m2: int, dest: int)
    requires 0 <= h < 24 && 0 <= m < 60
    requires e.start == AtClock(day, h, m, 0, 0) && e.end == AtClock(day, h2, m2, 0, 0)
    ensures MoveEvent(e, dest) == e.(start := AtClock(dest, h, m, 0, 0), end := AtClock(dest, h2, m2, 0, 0))
  {
    FieldsOfClock(day, h, m, 0, 0);
    FieldsOfClock(dest, 0, 0, 0, 0);
  }

  /** A click 180 pixels down, in the third column, proposes 09:00-09:30 on that column's day. */
  lemma ClickAtNine(weekDays: seq<Instant>, x: int, width: nat)
    requires |weekDays| == 7 && width > 0 && 0 <= x < width
    requires 2 * width <= 7 * x < 3 * width
    ensures var data := HandleGridClick(weekDays, x, 180, width).value.initialData.value;
            data.start == Some(AtClock(DayOf(weekDays[2]), 9, 0, 0, 0))
            && data.end == Some(AtClock(DayOf(weekDays[2]), 9, 30, 0, 0))
  {
    var nine := AtClock(DayOf(weekDays[2]), 9, 0, 0, 0);
    ClickColumn(x, width, 2);
    FieldsOfClock(DayOf(weekDays[2]), 9, 0, 0, 0);
    assert TimeAtOffset(120, weekDays[2]) == nine;
    NearestQuarterIsUnique(nine, nine);
  }
}
