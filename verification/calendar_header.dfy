/**
 * The header above the grid (src/components/calendar/CalendarHeader.tsx):
 * week navigation on the displayed date, the Today button, and the month
 * and year title of the displayed week.
 */
module CalendarHeader {
  import opened Wrappers
  import opened Arith
  import opened Strings
  import opened Calendar
  import opened Instants
  import opened DateText
  import opened DateUtils

  /** `format(d, 'MMMM')` for months 1..12. */
  const MonthNames: seq<string> := [
    "January", "February", "March", "April", "May", "June",
    "July", "August", "September", "October", "November", "December"
  ]

  /**
   * The displayed date moved by `days` days, or None when the displayed date
   * names no day (where `format` throws on an Invalid Date before anything
   * is dispatched).
   */
  function ShiftDays(currentDate: string, days: int): (r: Option<string>)
    ensures r.Some? <==> ParseDay(currentDate).Some?
  {
    match ParseDay(currentDate)
    case None => None
    case Some(day) => Some(FormatDay(day + days))
  }

  /** `handlePrevWeek`: the displayed date seven days earlier. */
  function PrevWeek(currentDate: string): (r: Option<string>)
    ensures r.Some? <==> ParseDay(currentDate).Some?
  {
    ShiftDays(currentDate, -7)
  }

  /** `handleNextWeek`: the displayed date seven days later. */
  function NextWeek(currentDate: string): (r: Option<string>)
    ensures r.Some? <==> ParseDay(currentDate).Some?
  {
    ShiftDays(currentDate, 7)
  }

  /** `handleToday`, with the wall clock `now` passed in. */
  function HandleToday(now: Instant): (r: string)
    ensures InFourDigitYears(DayOf(now)) ==> ParseDay(r) == Some(DayOf(now))
  {
    FormatDate(now)
  }

  /** Going back a week and forward again returns to the same date text. */
  lemma PrevThenNext(day: int)
    requires InFourDigitYears(day) && InFourDigitYears(day - 7)
    ensures PrevWeek(FormatDay(day)).Some?
    ensures NextWeek(PrevWeek(FormatDay(day)).value) == Some(FormatDay(day))
  {
    ParseFormatDay(day);
    ShiftOf(FormatDay(day), day, -7);
    ParseFormatDay(day - 7);
    ShiftOf(FormatDay(day - 7), day - 7, 7);
    assert day - 7 + 7 == day;
  }

  /** Going forward a week and back again returns to the same date text. */
  lemma NextThenPrev(day: int)
    requires InFourDigitYears(day) && InFourDigitYears(day + 7)
    ensures NextWeek(FormatDay(day)).Some?
    ensures PrevWeek(NextWeek(FormatDay(day)).value) == Some(FormatDay(day))
  {
    ParseFormatDay(day);
    ShiftOf(FormatDay(day), day, 7);
    ParseFormatDay(day + 7);
    ShiftOf(FormatDay(day + 7), day + 7, -7);
    assert day + 7 - 7 == day;
  }

  /** A shift of a text that names a day formats the shifted day. */
  lemma ShiftOf(s: string, day: int, days: int)
    requires ParseDay(s) == Some(day)
    ensures ShiftDays(s, days) == Some(FormatDay(day + days))
  {
    assert ParseDay(s).value == day;
  }

  /**
   * The week buttons move the displayed date by exactly seven days: the new
   * text reads back as the day a week away.
   */
  lemma WeekStepsMoveSevenDays(day: int)
    requires InFourDigitYears(day - 7) && InFourDigitYears(day) && InFourDigitYears(day + 7)
    ensures PrevWeek(FormatDay(day)).Some? && NextWeek(FormatDay(day)).Some?
    ensures ParseDay(PrevWeek(FormatDay(day)).value) == Some(day - 7)
    ensures ParseDay(NextWeek(FormatDay(day)).value) == Some(day + 7)
  {
    ParseFormatDay(day);
    ShiftOf(FormatDay(day), day, -7);
    ShiftOf(FormatDay(day), day, 7);
    ParseFormatDay(day - 7);
    ParseFormatDay(day + 7);
  }

  /** A week step keeps the weekday, so the grid shows the neighbouring week. */
  lemma NextWeekKeepsWeekday(day: int)
    ensures Weekday(day + 7) == Weekday(day)
    ensures MondayOf(day + 7) == MondayOf(day) + 7
  {
    DivModUnique(day + 7 + 3, 7, (day + 3) / 7 + 1, (day + 3) % 7);
    var m := MondayOf(day);
    var n := MondayOf(day + 7);
    DivMod(m + 3, 7);
    DivMod(n + 3, 7);
  }

  /** `format(date, 'MMMM')`: the full English name of a month 1..12. */
  function MonthName(month: int): string
    requires 1 <= month <= 12
  {
    MonthNames[month - 1]
  }

  /** `monthDisplay`: one month name, or 'start - end' when the week spans two months. */
  function MonthDisplay(weekDays: seq<Instant>): (r: string)
    requires |weekDays| == 7
    ensures var first, last := DateOf(weekDays[0]).month, DateOf(weekDays[6]).month;
            (r == MonthName(first) <==> MonthName(first) == MonthName(last))
            && (MonthName(first) != MonthName(last) ==> r == MonthName(first) + " - " + MonthName(last))
  {
    var first, last := MonthName(DateOf(weekDays[0]).month), MonthName(DateOf(weekDays[6]).month);
    if first == last then first else first + " - " + last
  }

  /** The month names are pairwise distinct, so one name shows exactly when both ends share a month. */
  lemma MonthNamesDistinct(a: int, b: int)
    requires 1 <= a <= 12 && 1 <= b <= 12
    ensures MonthName(a) == MonthName(b) <==> a == b
  {
  }

  /**
   * The title next to the buttons: the month display, a space and the year
   * of the week's first day, not of its last. For a four-digit year the last
   * four characters are that year's digits.
   */
  function HeaderTitle(weekDays: seq<Instant>): (r: string)
    requires |weekDays| == 7
    ensures StartsWith(r, MonthDisplay(weekDays) + " ") && |r| >= |MonthDisplay(weekDays)| + 5
    ensures InFourDigitYears(DayOf(weekDays[0])) ==>
              AllDigits(r[|r| - 4..]) && DigitsValue(r[|r| - 4..]) == DateOf(weekDays[0]).year
  {
    var year := DateOf(weekDays[0]).year;
    var head := MonthDisplay(weekDays) + " ";
    FourDigitYearDays(DayOf(weekDays[0]));
    if InFourDigitYears(DayOf(weekDays[0])) then
      YearAfterHead(head, year);
      head + Decimal(EraYear(year), 4)
    else
      assert (head + Decimal(EraYear(year), 4))[..|head|] == head;
      head + Decimal(EraYear(year), 4)
  }

  /** A four-digit year printed after a head is read back from the last four characters. */
  lemma YearAfterHead(head: string, year: int)
    requires 1 <= year <= 9999
    ensures var r := head + Decimal(EraYear(year), 4);
            StartsWith(r, head) && |r| == |head| + 4
            && AllDigits(r[|r| - 4..]) && DigitsValue(r[|r| - 4..]) == year
  {
    var r := head + Decimal(year, 4);
    Pow10Values();
    DecimalWidth(year, 4);
    DecimalRoundTrip(year, 4);
    assert r[|r| - 4..] == Decimal(year, 4);
    assert r[..|head|] == head;
  }

  /** The title shows a single month exactly when the week starts and ends in the same month. */
  lemma SingleMonthIffSameMonth(t: Instant)
    ensures var w := GetWeekDays(t);
            MonthDisplay(w) == MonthName(DateOf(w[0]).month)
            <==> DateOf(w[0]).month == DateOf(w[6]).month
  {
    var w := GetWeekDays(t);
    MonthNamesDistinct(DateOf(w[0]).month, DateOf(w[6]).month);
  }
}
