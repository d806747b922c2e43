/**
 * The grid's temporal geometry (src/utils/dateUtils.ts): the Monday-first
 * week, the hour rows, and the mapping between clock times and vertical
 * offsets in minutes below the 07:00 top of the visible window.
 */
module DateUtils {
  import opened Arith
  import opened Calendar
  import opened Instants

  /** The visible window starts at 07:00; its hour rows run to 23:00. */
  const WindowStartHour: int := 7
  const WindowEndHour: int := 23

  /** `startOfWeek(t, { weekStartsOn: 1 })` as a day number: the Monday of t's week. */
  function MondayOf(day: int): (m: int)
    ensures Weekday(m) == 0
    ensures m <= day < m + 7
  {
    var w := Weekday(day);
    DivMod(day + 3, 7);
    DivModUnique(day - w + 3, 7, (day + 3) / 7, 0);
    day - w
  }

  /**
   * `getWeekDays`: local midnights of the seven days Monday..Sunday of the
   * week that contains `t`.
   */
  function GetWeekDays(t: Instant): (days: seq<Instant>)
    ensures |days| == 7
    ensures forall i :: 0 <= i < 7 ==> days[i] == StartOfDay(days[i])
    ensures forall i :: 0 <= i < 7 ==> DayOf(days[i]) == DayOf(days[0]) + i
    ensures Weekday(DayOf(days[0])) == 0 && Weekday(DayOf(days[6])) == 6
    ensures DayOf(days[Weekday(DayOf(t))]) == DayOf(t)
  {
    var monday := MondayOf(DayOf(t));
    var days := seq(7, i requires 0 <= i < 7 => (monday + i) * MsPerDay);
    MidnightsOfDays(monday, days);
    DivModUnique(monday + 6 + 3, 7, (monday + 3) / 7, 6);
    days
  }

  lemma MidnightsOfDays(first: int, days: seq<Instant>)
    requires |days| == 7 && forall i :: 0 <= i < 7 ==> days[i] == (first + i) * MsPerDay
    ensures forall i :: 0 <= i < 7 ==> DayOf(days[i]) == first + i
  {
    forall i | 0 <= i < 7
      ensures DayOf(days[i]) == first + i
    {
      FieldsOfClock(first + i, 0, 0, 0, 0);
    }
  }

  /**
   * The year `new Date(y, m, d)` builds: JavaScript reads the years 0..99
   * as 1900..1999.
   */
  function ConstructorYear(y: int): int {
    if 0 <= y <= 99 then y + 1900 else y
  }

  /**
   * The day number of `new Date(d.year, d.month - 1, d.day)`: the year goes
   * through `ConstructorYear`, and a day past the end of the month carries
   * into the next one (29 February of year 0 becomes 1 March 1900, which is
   * not a leap year).
   */
  function ConstructedDay(d: Date): int {
    DaysFromCivil(Date(ConstructorYear(d.year), d.month, 1)) + d.day - 1
  }

  /**
   * `isSameDay`: rebuilds both instants from their local year, month and day
   * with the `Date` constructor and compares the results. Instants on the
   * same day always agree; outside the years 0..99 agreement means exactly
   * the same day number, but a day of year y in 0..99 also agrees with the
   * same date of year 1900 + y.
   */
  function IsSameDay(a: Instant, b: Instant): (r: bool)
    ensures DayOf(a) == DayOf(b) ==> r
    ensures !(0 <= DateOf(a).year <= 99) && !(0 <= DateOf(b).year <= 99) ==>
              (r <==> DayOf(a) == DayOf(b))
  {
    var da, db := DateOf(a), DateOf(b);
    ConstructedDayOfDate(da);
    ConstructedDayOfDate(db);
    ConstructedDay(da) == ConstructedDay(db)
  }

  /** Outside the years 0..99 the constructor rebuilds exactly the given date. */
  lemma ConstructedDayOfDate(d: Date)
    ensures !(0 <= d.year <= 99) ==> ConstructedDay(d) == DaysFromCivil(d)
  {
  }

  /**
   * Every date of a year y in 0..99 has a namesake in year 1900 + y (all but
   * 29 February of year 0): a different day that `isSameDay` equates with
   * it, 0050-04-08 and 1950-04-08 for instance.
   */
  lemma TwoDigitYearMeetsItsNamesake(d: Date)
    requires ValidDate(d) && 0 <= d.year <= 99
    requires ValidDate(Date(d.year + 1900, d.month, d.day))
    ensures var e := Date(d.year + 1900, d.month, d.day);
            DaysFromCivil(d) != DaysFromCivil(e)
            && IsSameDay(DaysFromCivil(d) * MsPerDay, DaysFromCivil(e) * MsPerDay)
  {
    var e := Date(d.year + 1900, d.month, d.day);
    var a, b := DaysFromCivil(d), DaysFromCivil(e);
    assert a != b by {
      DateRoundTrip(d);
      DateRoundTrip(e);
    }
    DateOfMidnight(a, d);
    DateOfMidnight(b, e);
    NamesakesMeet(a * MsPerDay, b * MsPerDay);
  }

  /** The instant form: dates y-m-d and (1900 + y)-m-d rebuild to the same day. */
  lemma NamesakesMeet(a: Instant, b: Instant)
    requires 0 <= DateOf(a).year <= 99
    requires DateOf(b) == Date(DateOf(a).year + 1900, DateOf(a).month, DateOf(a).day)
    ensures IsSameDay(a, b)
  {
    NamesakeDates(DateOf(a), DateOf(b));
    SameConstructedDay(a, b);
  }

  lemma NamesakeDates(d: Date, e: Date)
    requires 0 <= d.year <= 99 && e == Date(d.year + 1900, d.month, d.day)
    ensures ConstructedDay(d) == ConstructedDay(e)
  {
    ConstructedDayOfDate(e);
    DayOfMonthOffset(e);
  }

  lemma DateOfMidnight(day: int, d: Date)
    requires ValidDate(d) && day == DaysFromCivil(d)
    ensures DateOf(day * MsPerDay) == d
  {
    FieldsOfClock(day, 0, 0, 0, 0);
    DateRoundTrip(d);
  }

  lemma SameConstructedDay(a: Instant, b: Instant)
    requires ConstructedDay(DateOf(a)) == ConstructedDay(DateOf(b))
    ensures IsSameDay(a, b)
  {
  }

  lemma DayOfMonthOffset(d: Date)
    ensures DaysFromCivil(d) == DaysFromCivil(Date(d.year, d.month, 1)) + d.day - 1
  {
  }

  /**
   * `generateTimeSlots`: the hour rows of the grid, today at 07:00, 08:00,
   * ..., 23:00.
   */
  method GenerateTimeSlots(now: Instant) returns (slots: seq<Instant>)
    ensures |slots| == WindowEndHour - WindowStartHour + 1
    ensures forall i :: 0 <= i < |slots| ==>
      DayOf(slots[i]) == DayOf(now) && HourOf(slots[i]) == WindowStartHour + i
      && MinuteOf(slots[i]) == 0 && SecondOf(slots[i]) == 0 && MillisecondOf(slots[i]) == 0
    ensures forall i :: 0 < i < |slots| ==> slots[i] == slots[i - 1] + MsPerHour
  {
    slots := [];
    var today := StartOfDay(now);
    var hour := WindowStartHour;
    while hour <= WindowEndHour
      invariant WindowStartHour <= hour <= WindowEndHour + 1
      invariant |slots| == hour - WindowStartHour
      invariant forall i :: 0 <= i < |slots| ==> slots[i] == AtClock(DayOf(now), WindowStartHour + i, 0, 0, 0)
    {
      slots := slots + [today + hour * 60 * MsPerMinute];
      hour := hour + 1;
    }
    forall i | 0 <= i < |slots|
      ensures DayOf(slots[i]) == DayOf(now) && HourOf(slots[i]) == WindowStartHour + i
      ensures MinuteOf(slots[i]) == 0 && SecondOf(slots[i]) == 0 && MillisecondOf(slots[i]) == 0
    {
      FieldsOfClock(DayOf(now), WindowStartHour + i, 0, 0, 0);
    }
  }

  /** The top offset and height of an event box, in minutes (one minute is one pixel). */
  datatype Position = Position(top: int, height: int)

  /** Minutes from the window's 07:00 top to the clock time of `t`; seconds are ignored. */
  function OffsetOf(t: Instant): int {
    (HourOf(t) - WindowStartHour) * 60 + MinuteOf(t)
  }

  /**
   * `getEventPosition`: uses only the clock times of start and end, never
   * their dates, so the top is negative before 07:00 and the height is the
   * duration only when both ends fall on the same day.
   */
  function GetEventPosition(start: Instant, end: Instant): (p: Position)
    ensures -WindowStartHour * 60 <= p.top < (24 - WindowStartHour) * 60
    ensures -(24 * 60 - 1) <= p.height <= 24 * 60 - 1
    ensures p.top < 0 <==> HourOf(start) < WindowStartHour
  {
    Decompose(start);
    Decompose(end);
    Position(OffsetOf(start), OffsetOf(end) - OffsetOf(start))
  }

  /** JavaScript's `a % b` for b > 0: the remainder takes the sign of `a`. */
  function JsRem(a: int, b: int): (r: int)
    requires b > 0
    ensures -b < r < b
    ensures a >= 0 ==> r == a % b
    ensures a < 0 ==> r == (if a % b == 0 then 0 else a % b - b)
  {
    if a >= 0 then a % b
    else
      var q, r := (-a) / b, (-a) % b;
      DivMod(-a, b);
      if r != 0 then
        DivModUnique(a, b, -q - 1, b - r);
        -r
      else
        DivModUnique(a, b, -q, 0);
        -r
  }

  /**
   * `getTimeFromPosition` as written: hours `Math.floor(p / 60) + 7`,
   * minutes `p % 60` (truncating), seconds and milliseconds zero, on the day
   * of `date`, with `setHours` carrying out-of-range fields.
   */
  function GetTimeFromPosition(p: int, date: Instant): (t: Instant)
    ensures p >= 0 ==> t == AtClock(DayOf(date), WindowStartHour, p, 0, 0)
    ensures p % 60 == 0 ==> t == AtClock(DayOf(date), WindowStartHour, p, 0, 0)
    ensures p < 0 && p % 60 != 0 ==> t == AtClock(DayOf(date), WindowStartHour - 1, p, 0, 0)
  {
    SetHours(date, p / 60 + WindowStartHour, JsRem(p, 60), 0, 0)
  }

  /**
   * The evident intent of `getTimeFromPosition`: the clock time `p` minutes
   * after 07:00 on the day of `date`, for every offset, negative ones included.
   */
  function TimeAtOffset(p: int, date: Instant): (t: Instant)
    ensures t == AtClock(DayOf(date), WindowStartHour, p, 0, 0)
    ensures DayOf(t) == DayOf(date) <==> -WindowStartHour * 60 <= p < (24 - WindowStartHour) * 60
  {
    OffsetStaysOnDay(DayOf(date), p);
    SetHours(date, p / 60 + WindowStartHour, p % 60, 0, 0)
  }

  /** An offset lands on the same day exactly when it lies between 00:00 and 23:59. */
  lemma OffsetStaysOnDay(day: int, p: int)
    ensures DayOf(AtClock(day, WindowStartHour, p, 0, 0)) == day
        <==> -WindowStartHour * 60 <= p < (24 - WindowStartHour) * 60
  {
    var t := AtClock(day, WindowStartHour, p, 0, 0);
    var tod := WindowStartHour * MsPerHour + p * MsPerMinute;
    assert t == day * MsPerDay + tod;
    DivMod(t, MsPerDay);
    if 0 <= tod < MsPerDay {
      DivModUnique(t, MsPerDay, day, tod);
    } else if tod < 0 {
      if DayOf(t) >= day {
        MulMonotone(day, DayOf(t), MsPerDay);
      }
    } else {
      if DayOf(t) <= day {
        MulMonotone(DayOf(t), day, MsPerDay);
      }
    }
  }

  /** Shifting an instant by whole days leaves its clock fields alone. */
  lemma ClockIgnoresDays(t: Instant, k: int)
    ensures HourOf(t + k * MsPerDay) == HourOf(t) && MinuteOf(t + k * MsPerDay) == MinuteOf(t)
    ensures DayOf(t + k * MsPerDay) == DayOf(t) + k
  {
    DivMod(t, MsPerDay);
    DivModUnique(t + k * MsPerDay, MsPerDay, DayOf(t) + k, TimeOfDay(t));
  }

  /** The position depends on the clock times only: moving either end by whole days changes nothing. */
  lemma PositionIgnoresDates(start: Instant, end: Instant, j: int, k: int)
    ensures GetEventPosition(start + j * MsPerDay, end + k * MsPerDay) == GetEventPosition(start, end)
  {
    ClockIgnoresDays(start, j);
    ClockIgnoresDays(end, k);
  }

  /** When both ends lie on one day on whole minutes, the height is the duration in minutes. */
  lemma HeightIsDuration(start: Instant, end: Instant)
    requires DayOf(start) == DayOf(end)
    requires SecondOf(start) == 0 && MillisecondOf(start) == 0
    requires SecondOf(end) == 0 && MillisecondOf(end) == 0
    ensures GetEventPosition(start, end).height * MsPerMinute == end - start
  {
    Decompose(start);
    Decompose(end);
  }

  /** An instant on a whole minute is the clock time its offset names, on its own day. */
  lemma OffsetRoundTrip(s: Instant)
    requires SecondOf(s) == 0 && MillisecondOf(s) == 0
    ensures s == AtClock(DayOf(s), WindowStartHour, OffsetOf(s), 0, 0)
  {
    Decompose(s);
  }

  /**
   * The intended round trip holds for every start on a whole minute, before
   * 07:00 included: the top offset maps back to the start itself.
   */
  lemma PositionRoundTrip(s: Instant, e: Instant)
    requires SecondOf(s) == 0 && MillisecondOf(s) == 0
    ensures TimeAtOffset(GetEventPosition(s, e).top, s) == s
  {
    OffsetRoundTrip(s);
  }

  /** As written, the round trip holds for starts at or after 07:00 on a whole minute. */
  lemma PositionRoundTripInWindow(s: Instant, e: Instant)
    requires HourOf(s) >= WindowStartHour
    requires SecondOf(s) == 0 && MillisecondOf(s) == 0
    ensures GetTimeFromPosition(GetEventPosition(s, e).top, s) == s
  {
    OffsetRoundTrip(s);
  }

  /**
   * As written, a negative offset that is not a whole number of hours lands
   * one hour early: `Math.floor` already borrowed the hour that the
   * truncating `%` borrows again.
   */
  lemma NegativeOffsetLandsHourEarly(p: int, date: Instant)
    requires p < 0 && p % 60 != 0
    ensures GetTimeFromPosition(p, date) == TimeAtOffset(p, date) - MsPerHour
  {
  }

  /**
   * So the as-written round trip fails for every start before 07:00 that is
   * not on the hour: the 06:30 start maps back to 05:30.
   */
  lemma PositionRoundTripFailsBeforeWindow(s: Instant, e: Instant)
    requires HourOf(s) < WindowStartHour && MinuteOf(s) != 0
    requires SecondOf(s) == 0 && MillisecondOf(s) == 0
    ensures GetTimeFromPosition(GetEventPosition(s, e).top, s) == s - MsPerHour
  {
    var top := GetEventPosition(s, e).top;
    OffsetRoundTrip(s);
    Decompose(s);
    DivModUnique(top, 60, HourOf(s) - WindowStartHour, MinuteOf(s));
  }

  /** `Math.round(minutes / 15)`: the nearest quarter count, halves rounding up. */
  function QuarterOf(minutes: int): (q: int)
    ensures -15 < 2 * (15 * q - minutes) <= 15
  {
    (2 * minutes + 15) / 30
  }

  /**
   * `roundToNearestQuarter`: the minute field is rounded to a multiple of 15
   * with `setMinutes`, so a rounded 60 carries into the next hour; seconds
   * and milliseconds are kept.
   */
  function RoundToNearestQuarter(t: Instant): (r: Instant)
    ensures MinuteOf(r) % 15 == 0
    ensures SecondOf(r) == SecondOf(t) && MillisecondOf(r) == MillisecondOf(t)
    ensures -7 * MsPerMinute <= r - t <= 7 * MsPerMinute
  {
    var r := SetMinutes(t, QuarterOf(MinuteOf(t)) * 15);
    QuarterRounding(t, r);
    r
  }

  lemma QuarterRounding(t: Instant, r: Instant)
    requires r == SetMinutes(t, QuarterOf(MinuteOf(t)) * 15)
    ensures MinuteOf(r) % 15 == 0
    ensures SecondOf(r) == SecondOf(t) && MillisecondOf(r) == MillisecondOf(t)
    ensures -7 * MsPerMinute <= r - t <= 7 * MsPerMinute
  {
    var rounded := QuarterOf(MinuteOf(t)) * 15;
    Decompose(t);
    assert 0 <= rounded <= 60 && -7 <= rounded - MinuteOf(t) <= 7;
    SetMinutesFields(t, rounded);
    QuarterMinute(QuarterOf(MinuteOf(t)));
    MulMonotone(-7, rounded - MinuteOf(t), MsPerMinute);
    MulMonotone(rounded - MinuteOf(t), 7, MsPerMinute);
  }

  /** A quarter count of an hour gives a minute field on a quarter, 60 wrapping to 0. */
  lemma QuarterMinute(q: int)
    requires 0 <= q <= 4
    ensures q * 15 % 60 % 15 == 0
  {
    assert q == 0 || q == 1 || q == 2 || q == 3 || q == 4;
  }

  /** The fields after setting a minute in 0..60, with 60 carried into the hour. */
  lemma SetMinutesFields(t: Instant, m: int)
    requires 0 <= m <= 60
    ensures SetMinutes(t, m) == t + (m - MinuteOf(t)) * MsPerMinute
    ensures MinuteOf(SetMinutes(t, m)) == m % 60
    ensures SecondOf(SetMinutes(t, m)) == SecondOf(t)
    ensures MillisecondOf(SetMinutes(t, m)) == MillisecondOf(t)
  {
    Decompose(t);
    var d, h, s, ms := DayOf(t), HourOf(t), SecondOf(t), MillisecondOf(t);
    if m < 60 {
      FieldsOfClock(d, h, m, s, ms);
    } else if h < 23 {
      assert AtClock(d, h, m, s, ms) == AtClock(d, h + 1, 0, s, ms);
      FieldsOfClock(d, h + 1, 0, s, ms);
    } else {
      assert AtClock(d, h, m, s, ms) == AtClock(d + 1, 0, 0, s, ms);
      FieldsOfClock(d + 1, 0, 0, s, ms);
    }
  }

  /** Whole minutes since day 0: the instant without its seconds and milliseconds. */
  function MinuteCount(t: Instant): int {
    DayOf(t) * 1440 + HourOf(t) * 60 + MinuteOf(t)
  }

  lemma MinuteCountFacts(t: Instant)
    ensures t == MinuteCount(t) * MsPerMinute + SecondOf(t) * MsPerSecond + MillisecondOf(t)
    ensures MinuteOf(t) % 15 == 0 ==> MinuteCount(t) % 15 == 0
  {
    Decompose(t);
    if MinuteOf(t) % 15 == 0 {
      DivModUnique(MinuteCount(t), 15, DayOf(t) * 96 + HourOf(t) * 4 + MinuteOf(t) / 15, 0);
    }
  }

  /**
   * The rounded instant is the only one on a quarter hour, with the same
   * seconds and milliseconds, within 7 minutes of the input.
   */
  lemma NearestQuarterIsUnique(t: Instant, u: Instant)
    requires MinuteOf(u) % 15 == 0
    requires SecondOf(u) == SecondOf(t) && MillisecondOf(u) == MillisecondOf(t)
    requires -7 * MsPerMinute <= u - t <= 7 * MsPerMinute
    ensures u == RoundToNearestQuarter(t)
  {
    var r := RoundToNearestQuarter(t);
    MinuteCountFacts(u);
    MinuteCountFacts(r);
    var k := MinuteCount(u) - MinuteCount(r);
    assert u - r == k * MsPerMinute;
    DivMod(MinuteCount(u), 15);
    DivMod(MinuteCount(r), 15);
    var j := MinuteCount(u) / 15 - MinuteCount(r) / 15;
    assert k == 15 * j;
    if j > 0 {
      MulMonotone(15, k, MsPerMinute);
    } else if j < 0 {
      MulMonotone(k, -15, MsPerMinute);
    }
  }

  /** Rounding an already rounded instant changes nothing. */
  lemma RoundToNearestQuarterIdempotent(t: Instant)
    ensures RoundToNearestQuarter(RoundToNearestQuarter(t)) == RoundToNearestQuarter(t)
  {
    var r := RoundToNearestQuarter(t);
    NearestQuarterIsUnique(r, r);
  }
}
