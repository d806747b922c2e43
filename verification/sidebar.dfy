/**
 * The sidebar's drop handler (src/components/sidebar/Sidebar.tsx): a task
 * dragged from the task list onto a day column opens the create dialog with
 * a 30-minute draft event for that task. The handler is modelled as written;
 * the page renders the sidebar and the grid in separate drag contexts, so a
 * drop from the task list never reaches a `day-` column there.
 */
module Sidebar {
  import opened Wrappers
  import opened Strings
  import opened Calendar
  import opened Instants
  import opened DateText
  import opened DateUtils
  import opened UiSlice
  import opened CalendarGrid

  /** The droppable id of the task list. */
  const TasksListId: string := "tasks-list"

  const NewTaskTitle: string := "New Task"

  /**
   * The draggable id the task list gives a task: `task-${_id}`
   * (src/components/sidebar/TasksList.tsx). The drop handler reads back the
   * id's part before its first dash, so the whole id when it has none.
   */
  function TaskDraggableId(id: string): (r: string)
    ensures ParseTaskId(r) == Some(Split(id, '-')[0])
  {
    var r := "task-" + id;
    assert r == "task" + ['-'] + id;
    SplitAfterPiece("task", '-', id);
    r
  }

  /** `draggableId.split('-')[1]`: the second dash-separated segment, undefined without a dash. */
  function ParseTaskId(draggableId: string): (r: Option<string>)
    ensures r.Some? <==> '-' in draggableId
    ensures r.Some? ==> '-' !in r.value
  {
    var parts := Split(draggableId, '-');
    if |parts| >= 2 then Some(parts[1]) else None
  }

  /** A task id without a dash is recovered from its draggable id. */
  lemma TaskIdRoundTrip(id: string)
    requires '-' !in id
    ensures ParseTaskId(TaskDraggableId(id)) == Some(id)
  {
    assert TaskDraggableId(id) == "task" + ['-'] + id;
    SplitAfterPiece("task", '-', id);
    SplitNoSeparator(id, '-');
  }

  /** A task id with a dash is cut at its first dash. */
  lemma TaskIdWithDashIsCut(head: string, tail: string)
    requires '-' !in head
    ensures ParseTaskId(TaskDraggableId(head + "-" + tail)) == Some(head)
  {
    assert TaskDraggableId(head + "-" + tail) == "task" + ['-'] + (head + ['-'] + tail);
    SplitAfterPiece("task", '-', head + ['-'] + tail);
    SplitAfterPiece(head, '-', tail);
  }

  /** The hour of the draft: the current hour during working hours 9..17, both included, else noon. */
  function DefaultHour(currentHour: int): (h: int)
    ensures 9 <= h <= 17
    ensures h == currentHour <==> 9 <= currentHour <= 17
    ensures !(9 <= currentHour <= 17) ==> h == 12
  {
    if 9 <= currentHour && currentHour <= 17 then currentHour else 12
  }

  /**
   * `onDragEnd` with the wall clock `now` and the task name read from the
   * dragged element passed in. It acts only on a drop from the task list
   * onto a `day-` column; a destination that names no day makes the
   * source's `toISOString` throw before anything is dispatched.
   */
  function OnDragEnd(result: DropResult, taskName: Option<string>, now: Instant): (r: Option<ModalRequest>)
    ensures r.Some? <==>
              (result.destination.Some? && result.source == TasksListId
               && StartsWith(result.destination.value, "day-")
               && ParseDay(DroppableDay(result.destination.value)).Some?)
    ensures r.Some? ==>
              var day := ParseDay(DroppableDay(result.destination.value)).value;
              var start := AtClock(day, DefaultHour(HourOf(now)), 0, 0, 0);
              r.value == ModalRequest(CreateMode, None, Some(InitialData(
                           Some(OrElse(taskName, NewTaskTitle)), Some("work"),
                           Some(start), Some(start + DefaultDurationMinutes * MsPerMinute),
                           ParseTaskId(result.draggableId), None)))
  {
    if result.destination.None? then None
    else if result.source == TasksListId && StartsWith(result.destination.value, "day-") then
      match ParseDay(DroppableDay(result.destination.value))
      case None => None
      case Some(day) =>
        var dropped := SetHours(day * MsPerDay, DefaultHour(HourOf(now)), 0, 0, 0);
        DraftStartIsOnQuarter(day, DefaultHour(HourOf(now)));
        var start := RoundToNearestQuarter(dropped);
        Some(ModalRequest(CreateMode, None, Some(InitialData(
          Some(OrElse(taskName, NewTaskTitle)), Some("work"),
          Some(start), Some(DefaultEnd(start)),
          ParseTaskId(result.draggableId), None))))
    else None
  }

  /** A full hour on a day is already on a quarter hour, so rounding keeps it. */
  lemma DraftStartIsOnQuarter(day: int, h: int)
    requires 0 <= h < 24
    ensures SetHours(day * MsPerDay, h, 0, 0, 0) == AtClock(day, h, 0, 0, 0)
    ensures RoundToNearestQuarter(AtClock(day, h, 0, 0, 0)) == AtClock(day, h, 0, 0, 0)
  {
    FieldsOfClock(day, 0, 0, 0, 0);
    FieldsOfClock(day, h, 0, 0, 0);
    NearestQuarterIsUnique(AtClock(day, h, 0, 0, 0), AtClock(day, h, 0, 0, 0));
  }

  /**
   * Dropping a task on the column of a day proposes the default hour of
   * that day, whatever the column held before.
   */
  lemma DropTaskOnColumn(id: string, name: string, day: Instant, now: Instant)
    requires '-' !in id && name != ""
    requires InFourDigitYears(DayOf(day))
    ensures OnDragEnd(DropResult(TaskDraggableId(id), TasksListId, Some(DroppableId(day))), Some(name), now)
            == Some(TaskDraft(id, name, DayOf(day), now))
  {
    var dest := DroppableId(day);
    assert StartsWith(dest, "day-") && ParseDay(DroppableDay(dest)) == Some(DayOf(day)) by {
      ColumnIdNamesDay(day);
    }
    DropTaskOnDayId(id, name, dest, DayOf(day), now);
  }

  /**
   * The dialog a task drop opens: a create request for the task, titled by
   * its name, from the default hour of `day` for the default duration.
   */
  function TaskDraft(id: string, name: string, day: int, now: Instant): ModalRequest {
    var start := AtClock(day, DefaultHour(HourOf(now)), 0, 0, 0);
    ModalRequest(CreateMode, None, Some(InitialData(
      Some(name), Some("work"), Some(start), Some(start + DefaultDurationMinutes * MsPerMinute),
      Some(id), None)))
  }

  /** The same drop onto any `day-` id that names a day. */
  lemma DropTaskOnDayId(id: string, name: string, dest: string, day: int, now: Instant)
    requires '-' !in id && name != ""
    requires StartsWith(dest, "day-") && ParseDay(DroppableDay(dest)) == Some(day)
    ensures OnDragEnd(DropResult(TaskDraggableId(id), TasksListId, Some(dest)), Some(name), now)
            == Some(TaskDraft(id, name, day, now))
  {
    TaskIdRoundTrip(id);
    assert OrElse(Some(name), NewTaskTitle) == name;
    assert OnDragEnd(DropResult(TaskDraggableId(id), TasksListId, Some(dest)), Some(name), now).Some?;
  }

  /**
   * Dropping the 'Morning run' task (id 5) on the column of 2025-04-09 at
   * 14:20 proposes 14:00-14:30 that day, category work, linked to task 5.
   */
  lemma MorningRunAtTwo()
    ensures var start := LocalDateTime(2025, 4, 9, 14, 0);
            OnDragEnd(DropResult(TaskDraggableId("5"), TasksListId, Some(DroppableId(LocalDateTime(2025, 4, 9, 0, 0)))),
                      Some("Morning run"), LocalDateTime(2025, 4, 9, 14, 20))
            == Some(ModalRequest(CreateMode, None, Some(InitialData(
                 Some("Morning run"), Some("work"), Some(start), Some(start + 30 * MsPerMinute),
                 Some("5"), None))))
  {
    LocalDateTimeFields(2025, 4, 9, 0, 0);
    LocalDateTimeFields(2025, 4, 9, 14, 20);
    DropTaskOnColumn("5", "Morning run", LocalDateTime(2025, 4, 9, 0, 0), LocalDateTime(2025, 4, 9, 14, 20));
  }
}
