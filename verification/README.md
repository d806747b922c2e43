# Assignment Calendar — a Dafny model of its scheduling core

The application is a week-view calendar written in TypeScript with React and Redux.

- **Slices.** Redux slices hold the events, goals, tasks and UI state.
- **Utilities.** Date utilities lay events out on an hourly grid starting at 07:00. Colour utilities map categories and goals to CSS classes.
- **Components.** Four components turn gestures into state changes:
  - the header's week navigation;
  - the grid's click-to-create and drag-to-move;
  - the sidebar's drop handler for a task dragged onto a day column (modelled as written, though the assembled page never reaches it with a destination; see "Left out");
  - the event dialog's prefill, submit and delete.

This project restates that logic as pure Dafny functions over immutable datatypes and proves what it promises.

**Time.** An instant is an integer number of milliseconds in one local time zone without daylight saving. Instant 0 is 1970-01-01T00:00 local. The calendar date of a day number comes from a proleptic Gregorian conversion (`Calendar`). It is proved to be a bijection on valid dates.

**Text.** Dates travel between components as `yyyy-MM-dd` text, inside droppable ids `day-yyyy-MM-dd` and in the dialog's form fields. `DateText` formats and parses that text. It proves the round trips for years 1 to 9999.

**Semantics.** JavaScript behaviour is written out explicitly:
- `%` truncates toward zero (`JsRem`);
- `new Date(y, m, d)` reads the years 0..99 as 1900..1999 and carries a day past the month's end (`DateUtils.IsSameDay`);
- `setHours` and `setMinutes` normalise out-of-range fields;
- `Math.round` rounds halves up;
- `||` treats the empty string as missing (`Wrappers.OrElse`).

**Effects.** Operations that dispatch an action return the action, or the request that would open the dialog, as data. The reducers are modelled separately, so a gesture followed by its reducer is a composition of two functions.

Modules follow the source files:

| module | file | source |
|---|---|---|
| `Calendar`, `Instants`, `Strings`, `DateText` | calendar.dfy, instants.dfy, strings.dfy, date_text.dfy | the parts of `date-fns` and `Date` the core relies on |
| `DateUtils` | date_utils.dfy | src/utils/dateUtils.ts |
| `ColorUtils` | color_utils.dfy | src/utils/colorUtils.ts |
| `EventsSlice`, `GoalsSlice`, `TasksSlice`, `UiSlice` | events_slice.dfy, goals_slice.dfy, tasks_slice.dfy, ui_slice.dfy | src/redux/slices/*.ts |
| `CalendarHeader` | calendar_header.dfy | src/components/calendar/CalendarHeader.tsx |
| `CalendarGrid` | calendar_grid.dfy | src/components/calendar/CalendarGrid.tsx |
| `Sidebar` | sidebar.dfy | src/components/sidebar/Sidebar.tsx |
| `EventModal` | event_modal.dfy | src/components/calendar/EventModal.tsx |
| `Wrappers`, `FetchStatus`, `Arith`, `Seqs` | wrappers.dfy, fetch_status.dfy, arith.dfy, seqs.dfy | shared option type, request status, arithmetic and sequence facts |

## Model

| member | source | states |
|---|---|---|
| Calendar.DaysInMonth | src/utils/dateUtils.ts:36-41 | a month has 28 to 31 days, and 29 exactly for February of a leap year |
| Calendar.CivilFromDays | src/utils/dateUtils.ts:43-51 | every day number has a valid calendar date that maps back to that day number |
| Calendar.DateRoundTrip | src/utils/dateUtils.ts:43-51 | every valid date survives the trip to a day number and back, so calendar dates and day numbers are in one-to-one correspondence |
| Calendar.FourDigitYearDays | src/components/calendar/CalendarGrid.tsx:124 | the dates with four-digit years 1 to 9999 are exactly the days from 0001-01-01 to 9999-12-31 |
| Calendar.SplitDayOfEra | src/utils/dateUtils.ts:43-51 | a day within a 400-year era splits into a year of the era and a day of that year; day 365 only in a leap year |
| Calendar.SplitDayOfEraInverse | src/utils/dateUtils.ts:43-51 | splitting the first day of a year plus an offset gives back that year and offset |
| Calendar.SplitDayOfYear | src/utils/dateUtils.ts:43-51 | a day of a March-based year splits into a month and a day within that month's length |
| Calendar.SplitDayOfYearInverse | src/utils/dateUtils.ts:43-51 | every month and in-range day of a March-based year is recovered from its day offset |
| Strings.Split | src/components/calendar/CalendarGrid.tsx:38 | `split` returns at least one piece, no piece holds the separator, and there is one piece exactly when the separator is absent |
| Strings.JoinSplit | src/components/calendar/CalendarGrid.tsx:38 | joining the pieces of a split with the same separator rebuilds the string |
| Strings.SplitJoin | src/components/calendar/CalendarGrid.tsx:38 | splitting a join of separator-free pieces gives the pieces back |
| Strings.SplitAfterPiece | src/components/sidebar/Sidebar.tsx:19-20 | splitting a separator-free piece, a separator and a rest gives the piece followed by the split of the rest |
| Strings.Decimal | src/components/calendar/CalendarGrid.tsx:124 | zero-padded decimal text is all digits and at least as long as the requested width |
| Strings.DecimalRoundTrip | src/components/calendar/CalendarGrid.tsx:124 | the value of a padded decimal rendering is the number rendered |
| Strings.DecimalWidth | src/components/calendar/CalendarGrid.tsx:124 | a number below 10^w renders in exactly w digits |
| Strings.DigitsRoundTrip | src/components/calendar/CalendarGrid.tsx:39 | a digit string is the padded rendering of its own value at its own width |
| Strings.DigitsValueBound | src/components/calendar/CalendarGrid.tsx:39 | a digit string of length k has a value below 10^k |
| Instants.Decompose | src/utils/dateUtils.ts:84-95 | every instant is its day's midnight plus in-range hour, minute, second and millisecond fields |
| Instants.FieldsOfClock | src/utils/dateUtils.ts:84-95 | the getters read back in-range fields given to `setHours` |
| Instants.WholeMinuteFields | src/utils/dateUtils.ts:97-103 | an instant on a whole minute has zero seconds and milliseconds |
| Instants.StartOfDay | src/utils/dateUtils.ts:55 | `startOfDay` gives the midnight of the instant's own day, at or before it and less than a day earlier |
| Instants.SetHours | src/utils/dateUtils.ts:91-92 | `setHours` keeps the day, and in-range hour, minute, second and millisecond are read back by the getters |
| Instants.SetMinutes | src/utils/dateUtils.ts:100-101 | `setMinutes` with an in-range minute keeps the day, hour, second and millisecond and sets the minute |
| DateText.ParseDay | src/components/calendar/CalendarGrid.tsx:38-39 | a day parsed from `yyyy-MM-dd` text lies between 0000-01-01 and 9999-12-31, and only text with a dash parses |
| DateText.ParseClock | src/components/calendar/EventModal.tsx:87-88 | a parsed `HH:mm:ss` clock has hour below 24 and minute and second below 60 |
| DateText.ParseDateTime | src/components/calendar/EventModal.tsx:87-90 | a parsed `yyyy-MM-ddTHH:mm:ss` instant has no milliseconds |
| DateText.ParseFormatDay | src/components/calendar/CalendarGrid.tsx:124-135 | parsing the `yyyy-MM-dd` text of a day in years 1 to 9999 gives that day back |
| DateText.FormatParsedDay | src/components/calendar/CalendarGrid.tsx:38-39 | text that parses as a day from year 1 on is exactly the text the formatter writes for that day |
| DateText.ComposeFormatted | src/components/calendar/EventModal.tsx:35-41 | a whole-minute instant formatted into the dialog's date and time fields and composed at submit parses back to that instant |
| DateText.ParseFormattedClock | src/components/calendar/EventModal.tsx:87-88 | an `HH:mm` time with `:00` appended parses to that hour and minute |
| DateText.DateHasNoT | src/components/calendar/EventModal.tsx:87-88 | the date text holds no `T`, so the composed text splits at the separator the dialog inserted |
| DateText.LocalDateTimeFields | src/redux/slices/eventsSlice.ts:38-67 | a local date-time literal lies on its date's day number and has the given hour and minute |
| DateText.FormatDay | src/components/calendar/CalendarGrid.tsx:124 | `yyyy-MM-dd` text is a year of at least four digits, a dash, two month digits, a dash and two day digits; ten characters for years 1 to 9999 |
| DateText.FormatDate | src/utils/dateUtils.ts:15-18 | the `yyyy-MM-dd` text of an instant with a four-digit year parses back to its day |
| DateText.FormatHourMinute | src/components/calendar/EventModal.tsx:39 | `HH:mm` text is two digits reading the hour, a colon and two digits reading the minute |
| DateText.ComposeDateTime | src/components/calendar/EventModal.tsx:87-88 | the submitted date-time text splits at its `T` into the date field and the time field with `:00` appended, when neither field holds a `T` |
| DateUtils.MondayOf | src/utils/dateUtils.ts:36-41 | the start of a Monday-first week is a Monday no later than the day and less than a week before it |
| DateUtils.GetWeekDays | src/utils/dateUtils.ts:36-41 | seven consecutive midnights from Monday to Sunday, and the day given sits at its weekday's index |
| DateUtils.IsSameDay | src/utils/dateUtils.ts:43-51 | instants on the same day always compare equal; outside the years 0..99, which the `Date` constructor reads as 1900..1999, they compare equal exactly when their day numbers agree |
| DateUtils.TwoDigitYearMeetsItsNamesake | src/utils/dateUtils.ts:47-50 | a date of a year y in 0..99 and the same date of year 1900 + y are different days that `isSameDay` equates |
| DateUtils.NamesakesMeet | src/utils/dateUtils.ts:47-50 | any two instants dated y-m-d and (1900 + y)-m-d, y in 0..99, compare as the same day |
| DateUtils.GenerateTimeSlots | src/utils/dateUtils.ts:53-62 | one slot per hour from 07:00 to 23:00 on the given day, each on the whole hour, one hour apart |
| DateUtils.GetEventPosition | src/utils/dateUtils.ts:64-82 | the top offset lies within the day measured from 07:00 and is negative exactly for events starting before 07:00; the height is under a day in magnitude |
| DateUtils.PositionIgnoresDates | src/utils/dateUtils.ts:64-82 | position and height depend only on clock times, not on the dates of start and end |
| DateUtils.HeightIsDuration | src/utils/dateUtils.ts:64-82 | for a same-day event on whole minutes the height in pixels is its duration in minutes |
| DateUtils.JsRem | src/utils/dateUtils.ts:89 | JavaScript's remainder is below the divisor in magnitude; it is the floor remainder for non-negative operands, and for negative ones zero when the divisor divides and the floor remainder minus the divisor otherwise |
| DateUtils.GetTimeFromPosition | src/utils/dateUtils.ts:84-95 | the instant read off a pixel offset: 07:00 plus the offset for offsets at or below the top of the grid and for whole hours above it, one hour less for negative offsets that are not whole hours |
| DateUtils.TimeAtOffset | src/utils/dateUtils.ts:84-95 | the corrected reading is 07:00 plus the offset on the given day, and stays on that day exactly when the offset is within the day |
| DateUtils.OffsetStaysOnDay | src/utils/dateUtils.ts:84-95 | a clock offset from 07:00 stays on its day exactly when it lies between -420 and 1019 minutes |
| DateUtils.PositionRoundTrip | src/utils/dateUtils.ts:64-95 | reading back the top offset of any whole-minute event gives its start |
| DateUtils.PositionRoundTripInWindow | src/utils/dateUtils.ts:64-95 | the source's reading gives back the start of every whole-minute event from 07:00 on |
| DateUtils.NegativeOffsetLandsHourEarly | src/utils/dateUtils.ts:88-92 | for a negative offset that is not a whole hour the source's reading is one hour before the intended instant |
| DateUtils.PositionRoundTripFailsBeforeWindow | src/utils/dateUtils.ts:64-95 | for an event before 07:00 that is not on the hour, the source's reading of its top is one hour before its start |
| DateUtils.QuarterOf | src/utils/dateUtils.ts:97-103 | rounding minutes to quarters picks the quarter within 7.5 minutes, halves going up |
| DateUtils.RoundToNearestQuarter | src/utils/dateUtils.ts:97-103 | the rounded instant is on a quarter hour, keeps seconds and milliseconds, and is within seven minutes of the input |
| DateUtils.SetMinutesFields | src/utils/dateUtils.ts:101 | `setMinutes` with 0 to 60 moves the instant by the minute difference, carrying 60 into the next hour |
| DateUtils.NearestQuarterIsUnique | src/utils/dateUtils.ts:97-103 | any quarter-hour instant with the same seconds within seven minutes is the rounded one |
| DateUtils.RoundToNearestQuarterIdempotent | src/utils/dateUtils.ts:97-103 | rounding twice equals rounding once |
| EventsSlice.CreateEvent | src/redux/slices/eventsSlice.ts:70-83 | the created event is the draft with a fresh id and nothing else changed |
| EventsSlice.FindIndex | src/redux/slices/eventsSlice.ts:129-134 | `findIndex` gives the first event with that id, or nothing when no event has it |
| EventsSlice.ReplaceFirst | src/redux/slices/eventsSlice.ts:129-134 | an update replaces only the first event with the same id and leaves the list unchanged when none has it |
| EventsSlice.RemoveAll | src/redux/slices/eventsSlice.ts:135-137 | a delete keeps exactly the events whose id differs |
| EventsSlice.Reduce | src/redux/slices/eventsSlice.ts:113-138 | each fetch case sets the status, fulfilment replaces the list and rejection records the message or the default; create appends; update replaces the first event with the same id, or nothing; delete keeps exactly the events with another id; create, update and delete leave status and error alone |
| EventsSlice.RemoveAllConcat | src/redux/slices/eventsSlice.ts:135-137 | deleting from two lists joined is joining the two deletions |
| EventsSlice.RemoveAbsent | src/redux/slices/eventsSlice.ts:135-137 | deleting an id no event has changes nothing |
| EventsSlice.DeleteIdempotent | src/redux/slices/eventsSlice.ts:135-137 | deleting the same id twice equals deleting it once |
| EventsSlice.CreateThenUpdate | src/redux/slices/eventsSlice.ts:126-134 | updating a just-created event with a fresh id replaces the appended event and nothing else |
| EventsSlice.UpdateAbsentIsNoOp | src/redux/slices/eventsSlice.ts:129-134 | an update whose id no event carries leaves the whole state unchanged |
| GoalsSlice.Reduce | src/redux/slices/goalsSlice.ts:41-62 | selecting and clearing touch only the selection; the fetch cases set the status, the list or the error and keep the selection |
| GoalsSlice.FetchesKeepSelection | src/redux/slices/goalsSlice.ts:49-62 | no sequence of fetch actions changes the selected goal |
| GoalsSlice.ReduceAll | src/redux/slices/goalsSlice.ts:41-62 | a run of selection actions alone leaves the goal list, the status and the error unchanged |
| TasksSlice.TasksForGoal | src/redux/slices/tasksSlice.ts:36-69 | the tasks listed for a goal all belong to it and have distinct ids; an unknown goal has none |
| TasksSlice.Reduce | src/redux/slices/tasksSlice.ts:75-92 | each fetch case sets the status and the list, or records the message or the default |
| TasksSlice.ByGoalLoadsOnlyThatGoal | src/redux/slices/tasksSlice.ts:36-92 | after fetching by goal, the state holds only that goal's tasks, with distinct ids |
| UiSlice.InitialState | src/redux/slices/uiSlice.ts:31-46 | the initial state shows the week of today in week view; the date text parses back to today and the range runs Monday midnight to six days later |
| UiSlice.Reduce | src/redux/slices/uiSlice.ts:51-73 | each setter changes only its field; opening forces the dialog open with the given request; closing resets it to an empty create dialog |
| UiSlice.CloseIdempotent | src/redux/slices/uiSlice.ts:67-72 | closing twice equals closing once |
| UiSlice.CloseAfterOpen | src/redux/slices/uiSlice.ts:61-72 | opening and then closing leaves the dialog as in the initial state |
| ColorUtils.GetTextColorForCategory | src/utils/colorUtils.ts:40-49 | white text exactly for exercise, work and family; dark grey otherwise |
| ColorUtils.GetGoalTextColor | src/utils/colorUtils.ts:66-74 | white text exactly for goals 2 and 3; dark grey otherwise |
| ColorUtils.GetCategoryColor | src/utils/colorUtils.ts:2-19 | the grey fallback class is returned exactly for strings that are not one of the six categories |
| ColorUtils.GetCategoryBorderColor | src/utils/colorUtils.ts:21-38 | the grey fallback border is returned exactly for strings that are not one of the six categories |
| ColorUtils.GetGoalColor | src/utils/colorUtils.ts:51-64 | a goal colour is a `bg-` class, the grey fallback exactly for ids other than 1 to 4 |
| ColorUtils.WhiteTextOnDarkCategories | src/utils/colorUtils.ts:2-49 | white text appears exactly on the exercise, work and family backgrounds, never on another category or the fallback |
| ColorUtils.WhiteTextOnDarkGoals | src/utils/colorUtils.ts:51-74 | white goal text appears exactly on the academics and learning backgrounds |
| ColorUtils.BorderIsBackgroundRenamed | src/utils/colorUtils.ts:2-38 | for every input, the fallback included, the border class is the background class with `bg-` replaced by `border-` |
| ColorUtils.CategoryColorNamesCategory | src/utils/colorUtils.ts:2-19 | each category's background class is named after it, and every other string gets the grey fallback |
| ColorUtils.CategoryColorInjective | src/utils/colorUtils.ts:2-19 | distinct categories get distinct background classes, none of them the fallback |
| ColorUtils.GoalColorsDistinct | src/utils/colorUtils.ts:51-64 | goals 1 to 4 get four distinct classes, none of them the fallback |
| ColorUtils.MockGoalColorsAgree | src/redux/slices/goalsSlice.ts:28-36 | each mock goal's stored colour is the class the goal lookup gives its id |
| CalendarHeader.ShiftDays | src/components/calendar/CalendarHeader.tsx:17-25 | moving the current date succeeds exactly when it parses as a day |
| CalendarHeader.PrevWeek | src/components/calendar/CalendarHeader.tsx:17-20 | the previous-week button succeeds exactly when the current date parses |
| CalendarHeader.NextWeek | src/components/calendar/CalendarHeader.tsx:22-25 | the next-week button succeeds exactly when the current date parses |
| CalendarHeader.PrevThenNext | src/components/calendar/CalendarHeader.tsx:17-25 | going back a week and then forward a week restores the date text |
| CalendarHeader.NextThenPrev | src/components/calendar/CalendarHeader.tsx:17-25 | going forward a week and then back a week restores the date text |
| CalendarHeader.WeekStepsMoveSevenDays | src/components/calendar/CalendarHeader.tsx:17-25 | the buttons move the current day by exactly seven days |
| CalendarHeader.NextWeekKeepsWeekday | src/components/calendar/CalendarHeader.tsx:22-25 | a week later is the same weekday, in the next Monday-first week |
| CalendarHeader.HandleToday | src/components/calendar/CalendarHeader.tsx:27-30 | today's date text parses back to today's day |
| CalendarHeader.MonthNamesDistinct | src/components/calendar/CalendarHeader.tsx:32-37 | two months have the same name exactly when they are the same month |
| CalendarHeader.MonthDisplay | src/components/calendar/CalendarHeader.tsx:32-37 | the header shows one month name when the week's first and last days share a month name, and "first - last" otherwise |
| CalendarHeader.SingleMonthIffSameMonth | src/components/calendar/CalendarHeader.tsx:32-37 | for a displayed week, one month name appears exactly when Monday and Sunday are in the same month |
| CalendarHeader.HeaderTitle | src/components/calendar/CalendarHeader.tsx:55 | the title is the month display and a space followed by the year of the week's first day; for a four-digit year its last four characters read that year |
| CalendarGrid.DroppableDayRoundTrip | src/components/calendar/CalendarGrid.tsx:38 | dropping the `day-` prefix with split, slice and join gives back the date text, dashes included |
| CalendarGrid.DroppableId | src/components/calendar/CalendarGrid.tsx:124-135 | a column's droppable id starts with `day-` and the drop handler reads the column's date text back from it |
| CalendarGrid.DroppableDay | src/components/calendar/CalendarGrid.tsx:38 | the day text of a droppable id is everything after its first dash, and empty when the id has no dash |
| CalendarGrid.ColumnIdNamesDay | src/components/calendar/CalendarGrid.tsx:124-135 | a column's droppable id starts with `day-` and the date parsed from it is the column's day |
| CalendarGrid.MoveEvent | src/components/calendar/CalendarGrid.tsx:41-59 | the moved event starts on the destination day at the old hour and minute, on a whole minute, keeps its duration and changes nothing else |
| CalendarGrid.HandleDragEnd | src/components/calendar/CalendarGrid.tsx:25-59 | a drop yields an update exactly when there is a destination, some event has the dragged id and the destination parses; the update is the first such event moved to that day |
| CalendarGrid.DropOnColumn | src/components/calendar/CalendarGrid.tsx:25-59 | dropping an event on a day column moves it to that column's date |
| CalendarGrid.DropUpdatesOnlyThatEvent | src/components/calendar/CalendarGrid.tsx:55-59 | the update a drop dispatches replaces exactly one event, the dragged one, in the events slice |
| CalendarGrid.HandleGridClick | src/components/calendar/CalendarGrid.tsx:69-108 | a click opens a create dialog exactly when it is inside a day column and below the 60-pixel header, with only start and end filled in |
| CalendarGrid.ClickColumn | src/components/calendar/CalendarGrid.tsx:78-83 | the column index of a click is the k with k/7 of the width at or before the click and (k+1)/7 after it |
| CalendarGrid.ClickProposesSlot | src/components/calendar/CalendarGrid.tsx:69-104 | a click proposes a 30-minute slot on the clicked column's day, starting on a quarter hour within seven minutes of the clicked time |
| CalendarGrid.DefaultEnd | src/components/calendar/CalendarGrid.tsx:94-96 | the proposed end is 30 minutes after the start |
| CalendarGrid.EventsOnDay | src/components/calendar/CalendarGrid.tsx:127-130 | a column shows exactly the events whose start has the column's date text |
| CalendarGrid.EventsOnDayConcat | src/components/calendar/CalendarGrid.tsx:127-130 | the column filter keeps the events' order and repeats: it distributes over concatenation |
| CalendarGrid.EventsOnDaySingle | src/components/calendar/CalendarGrid.tsx:127-130 | one event is kept exactly when its start formats to the column's date |
| CalendarGrid.SameDateTextIffSameDay | src/components/calendar/CalendarGrid.tsx:127-130 | two instants have the same `yyyy-MM-dd` text exactly when they are on the same day |
| CalendarGrid.EventInItsDayColumn | src/components/calendar/CalendarGrid.tsx:123-130 | an event is shown in a week column exactly when it starts on that day, and then in no other column |
| CalendarGrid.MockWakeUpAboveWindow | src/redux/slices/eventsSlice.ts:38-46 | the first mock event, 06:00 to 06:30, sits 60 pixels above the grid and is 30 pixels tall |
| CalendarGrid.DragKickoffToThursday | src/redux/slices/eventsSlice.ts:45-53 | dragging the second mock event to Thursday 2025-04-10 keeps its 09:00 to 10:00 times on the new day |
| CalendarGrid.MoveKeepsClock | src/components/calendar/CalendarGrid.tsx:41-52 | moving an event that starts on a whole minute keeps both its start and end clock readings |
| CalendarGrid.ClickAtNine | src/components/calendar/CalendarGrid.tsx:69-104 | a click 180 pixels down in the third column proposes 09:00 to 09:30 on that day |
| Sidebar.ParseTaskId | src/components/sidebar/Sidebar.tsx:19 | a task id is found exactly when the draggable id has a dash, and then it holds no dash |
| Sidebar.TaskDraggableId | src/components/sidebar/TasksList.tsx:46 | the task id read back from a task's draggable id is the part of the id before its first dash, the whole id when it has none |
| Sidebar.TaskIdRoundTrip | src/components/sidebar/TasksList.tsx:46 | the task id read off `task-<id>` is the id, for ids without a dash |
| Sidebar.TaskIdWithDashIsCut | src/components/sidebar/Sidebar.tsx:19 | for an id with a dash only the part before its first dash is read back |
| Sidebar.DefaultHour | src/components/sidebar/Sidebar.tsx:28-31 | the current hour is kept within working hours 9 to 17, and noon is used otherwise |
| Sidebar.OnDragEnd | src/components/sidebar/Sidebar.tsx:12-49 | a drop opens a create dialog exactly when it comes from the task list onto a `day-` column whose date parses; the draft is the task name or "New Task", category work, 30 minutes at the default hour on that day, and the parsed task id |
| Sidebar.DraftStartIsOnQuarter | src/components/sidebar/Sidebar.tsx:27-34 | the draft starts on the whole hour, which quarter rounding leaves unchanged |
| Sidebar.DropTaskOnColumn | src/components/sidebar/Sidebar.tsx:12-49 | dropping a task on a day column opens a dialog for that task on that column's day |
| Sidebar.DropTaskOnDayId | src/components/sidebar/Sidebar.tsx:16-47 | dropping a task on any `day-` id whose date parses opens a dialog for that task on the parsed day |
| Sidebar.MorningRunAtTwo | src/redux/slices/tasksSlice.ts:44 | dropping "Morning run" on 2025-04-09 at 14:20 proposes 14:00 to 14:30 that day, linked to task 5 |
| EventModal.TimeFields | src/components/calendar/EventModal.tsx:35-41 | the form shows the start and end as `yyyy-MM-dd` and `HH:mm` and keeps title and category |
| EventModal.Prefill | src/components/calendar/EventModal.tsx:27-65 | editing a known event copies its title, category and times; a create request copies only its truthy title and category and the times given; otherwise the form is left alone |
| EventModal.SubmitWith | src/components/calendar/EventModal.tsx:81-125 | submit rejects a form with an empty field or with an end not after its start; otherwise it updates the edited event or creates a draft from exactly the form's fields |
| EventModal.PrefillLinks | src/components/calendar/EventModal.tsx:100-101 | the links are the prefill data's `taskId` and `goalId`, and are absent without prefill data |
| EventModal.HandleSubmit | src/components/calendar/EventModal.tsx:81-125 | an accepted submission carries the task and goal links of the request's prefill data only |
| EventModal.KeptLinks | src/components/calendar/EventModal.tsx:100-101 | the corrected links: the prefill data's when present, otherwise the edited event's own |
| EventModal.HandleSubmitKeepingLinks | src/components/calendar/EventModal.tsx:81-125 | the corrected submit keeps the edited event's links, and is the source's submit wherever there is no edited event to take them from |
| EventModal.KeepingLinksRelinksSource | src/components/calendar/EventModal.tsx:81-125 | for every form and dialog, the corrected submit rejects exactly when the source's submit does, with the same reason, and otherwise gives the source's update or create with only the two links replaced |
| EventModal.EditRoundTrip | src/components/calendar/EventModal.tsx:27-125 | opening a whole-minute event for edit and saving unchanged gives back that event with the request's links; the corrected submit gives back exactly the event |
| EventModal.EditDropsLinks | src/components/calendar/EventCard.tsx:37-40 | saving an edit opened from an event card, without changes, erases the event's task and goal links |
| EventModal.SubmitAccepted | src/components/calendar/EventModal.tsx:81-105 | a complete form whose start and end parse in order is saved as an update of the edited id with exactly those fields |
| EventModal.HandleDelete | src/components/calendar/EventModal.tsx:127-139 | delete dispatches exactly when the dialog has a non-empty event id, and with that id |
| EventModal.DeleteRemovesThatEvent | src/components/calendar/EventModal.tsx:127-139 | after a delete from the dialog, the events are exactly the previous ones without that id |
| EventModal.HandleClose | src/components/calendar/EventModal.tsx:67-79 | closing resets the dialog to an empty create dialog, changes no other UI state, and empties the form with category work |
| EventModal.CloseLeavesFormEmpty | src/components/calendar/EventModal.tsx:67-85 | after closing, prefill leaves the form empty and submit rejects it for a missing field |
| Wrappers.OrElse | src/redux/slices/eventsSlice.ts:122-125 | `a \|\| b` on optional text gives the text when it is non-empty and the fallback otherwise |

## Left out

- Network calls, `axios`, `src/services/api.ts`, the Supabase types and the async thunk machinery are not modelled. Each thunk's pending, fulfilled and rejected outcome is an action given to the reducer.
- Toasts, React state hooks, the JSX layout, the weekday headers and the view buttons (`setCurrentView` is modelled only as a reducer case) are left out. None of them affects data.
- `createEvent` draws its id from `Math.random()` and the clock. `EventsSlice.CreateEvent` takes the fresh id as a parameter instead.
- `new Date()` becomes a `now` parameter wherever it is read: `UiSlice.InitialState`, `CalendarHeader.HandleToday`, `DateUtils.GenerateTimeSlots` (dateUtils.ts:55) and `Sidebar.OnDragEnd`.
- Time zones and daylight saving are not modelled; all instants are local.
  - `new Date("yyyy-MM-dd")` reads date-only text as UTC midnight (Sidebar.tsx:27, CalendarHeader.tsx:18). The model takes the local midnight of that date, which is what both sites evidently mean.
  - The same applies to the UTC text of `toISOString` (CalendarGrid.tsx:57, 101-102; Sidebar.tsx:43-44).
- Event start and end are kept as instants rather than ISO text. The only text the model stores is `yyyy-MM-dd`, and the dialog's `yyyy-MM-ddTHH:mm:ss`.
- `parseISO` is modelled for exactly those two formats. Other ISO shapes are parsed as invalid, and the proved round trips cover years 1 to 9999.
- `formatTime`, `formatDateTime` and `formatShortDate` (dateUtils.ts:16-34, `h:mm a` and `MMM d`) only feed displayed text and are not modelled. `formatDate` is modelled as `DateText.FormatDate`.
- Pixel geometry is integral.
  - `getBoundingClientRect`, fractional client coordinates and the floating-point division in the grid click are reduced to an integer offset and width.
  - A zero width, which makes the source divide by zero, produces no dialog.
- The sidebar's drop handler is modelled as written (`Sidebar.OnDragEnd`, Sidebar.tsx:12-49), but in the assembled page it never sees a destination. The sidebar's `DragDropContext` (Sidebar.tsx:52) holds only the task and goal lists, and its one droppable, `tasks-list`, has drops disabled (TasksList.tsx:38). The `day-` columns belong to the grid's separate `DragDropContext` (CalendarGrid.tsx:121), and a drag resolves only against droppables of its own context. So `result.destination` is always null and the handler returns at Sidebar.tsx:13. Which drag context receives a drag is React rendering, not modelled; the lemmas about a task drop state what the handler would do if it were reached.
- The sidebar reads the task name from the DOM with `querySelector`. In the model the trimmed name is an input (`taskName`).
- An Invalid Date makes the source throw before anything is dispatched, and the model returns `None` there. `CalendarHeader.PrevWeek` and `CalendarHeader.NextWeek` model the throw of `format(newDate, 'yyyy-MM-dd')` (CalendarHeader.tsx:19, 24). `CalendarGrid.HandleDragEnd` models the throw of `newStart.toISOString()` (CalendarGrid.tsx:57-58). `Sidebar.OnDragEnd` models the throw of `roundedStartTime.toISOString()` (Sidebar.tsx:43-44).
- EventModal.HandleSubmit: on a date or time field that does not parse, the source compares two Invalid Dates (the comparison is false) and dispatches an event with unparsable times. The model rejects such a form with `UnparsableDateTime` instead.
- Events without an `_id` are represented (`id: Option<string>`), but creation always assigns one.
- Fetched goals, tasks and events are taken as given. The mock payloads are constants, so their shape is only checked by the example lemmas.

## Findings

| source | as written | input that shows it | evidently intended | confidence | as-written member | corrected member |
|---|---|---|---|---|---|---|
| src/utils/dateUtils.ts:88-92 | hours are `Math.floor(p / 60)` but minutes are the truncating `p % 60`, so for negative offsets the two disagree | offset -30 (half an hour above the 07:00 grid top) gives hour 7 + floor(-0.5) = 6 and minute -30, that is 05:30 | 07:00 plus the offset, 06:30, which is what `getEventPosition` encodes for an event starting 06:30 | high; not executed | DateUtils.GetTimeFromPosition (shown by DateUtils.NegativeOffsetLandsHourEarly and DateUtils.PositionRoundTripFailsBeforeWindow) | DateUtils.TimeAtOffset (DateUtils.PositionRoundTrip) |
| src/components/calendar/EventModal.tsx:100-101 | on edit, `goalId` and `taskId` are taken from the request's `initialData`, but the event card opens the edit dialog with only a mode and an event id (EventCard.tsx:26-29, 37-40) | an event loaded from the events API with task link "5" and goal link "2", opened from its card and saved without changes, is updated with both links removed | saving an unchanged edit keeps the event's own task and goal links | medium; not executed | EventModal.HandleSubmit (shown by EventModal.EditDropsLinks) | EventModal.HandleSubmitKeepingLinks (EventModal.EditRoundTrip) |
