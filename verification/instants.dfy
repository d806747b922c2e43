/**
 * Instants as integer milliseconds in one local time zone with no daylight
 * saving: instant 0 is 1970-01-01T00:00:00.000 local. JavaScript's `Date`
 * getters (`getHours`, `getMinutes`, ...) and its normalising setters
 * (`setHours`, `setMinutes`) are stated here over that number.
 */
module Instants {
  import opened Arith
  import opened Calendar

  type Instant = int

  const MsPerSecond: int := 1000
  const MsPerMinute: int := 60 * MsPerSecond
  const MsPerHour: int := 60 * MsPerMinute
  const MsPerDay: int := 24 * MsPerHour

  /** The local day number of an instant (floor division, also before 1970). */
  function DayOf(t: Instant): int {
    t / MsPerDay
  }

  /** `startOfDay(t)`: local midnight of the instant's day, the last midnight at or before it. */
  function StartOfDay(t: Instant): (r: Instant)
    ensures DayOf(r) == DayOf(t) && TimeOfDay(r) == 0
    ensures r <= t < r + MsPerDay
  {
    DivMod(t, MsPerDay);
    DivModUnique(DayOf(t) * MsPerDay, MsPerDay, DayOf(t), 0);
    DayOf(t) * MsPerDay
  }

  function TimeOfDay(t: Instant): (ms: int)
    ensures 0 <= ms < MsPerDay
  {
    t % MsPerDay
  }

  /** `getHours()`. */
  function HourOf(t: Instant): int {
    TimeOfDay(t) / MsPerHour
  }

  /** `getMinutes()`. */
  function MinuteOf(t: Instant): int {
    TimeOfDay(t) % MsPerHour / MsPerMinute
  }

  /** `getSeconds()`. */
  function SecondOf(t: Instant): int {
    TimeOfDay(t) % MsPerHour % MsPerMinute / MsPerSecond
  }

  /** `getMilliseconds()`. */
  function MillisecondOf(t: Instant): int {
    TimeOfDay(t) % MsPerHour % MsPerMinute % MsPerSecond
  }

  /** `getFullYear()`, `getMonth() + 1` and `getDate()` together. */
  function DateOf(t: Instant): Date {
    CivilFromDays(DayOf(t))
  }

  /**
   * The instant at the given clock reading on day `day`. Out-of-range fields
   * carry as in JavaScript's `setHours`: minute 60 is the next hour, hour 24
   * the next day, and negative values borrow from the larger unit.
   */
  function AtClock(day: int, h: int, m: int, s: int, ms: int): Instant {
    day * MsPerDay + h * MsPerHour + m * MsPerMinute + s * MsPerSecond + ms
  }

  /** The local instant of a calendar date and clock time, on a whole minute. */
  function LocalDateTime(year: int, month: int, day: int, h: int, m: int): Instant {
    AtClock(DaysFromCivil(Date(year, month, day)), h, m, 0, 0)
  }

  /**
   * `new Date(t).setHours(h, m, s, ms)`: the day is kept, the clock replaced;
   * in-range fields are read back unchanged.
   */
  function SetHours(t: Instant, h: int, m: int, s: int, ms: int): (r: Instant)
    ensures 0 <= h < 24 && 0 <= m < 60 && 0 <= s < 60 && 0 <= ms < 1000 ==>
              DayOf(r) == DayOf(t) && HourOf(r) == h && MinuteOf(r) == m
              && SecondOf(r) == s && MillisecondOf(r) == ms
  {
    var r := AtClock(DayOf(t), h, m, s, ms);
    if 0 <= h < 24 && 0 <= m < 60 && 0 <= s < 60 && 0 <= ms < 1000 then
      FieldsOfClock(DayOf(t), h, m, s, ms);
      r
    else r
  }

  /**
   * `new Date(t).setMinutes(m)`: hours, seconds and milliseconds are kept,
   * and an in-range minute is read back.
   */
  function SetMinutes(t: Instant, m: int): (r: Instant)
    ensures 0 <= m < 60 ==>
              DayOf(r) == DayOf(t) && HourOf(r) == HourOf(t) && MinuteOf(r) == m
              && SecondOf(r) == SecondOf(t) && MillisecondOf(r) == MillisecondOf(t)
  {
    Decompose(t);
    SetHours(t, HourOf(t), m, SecondOf(t), MillisecondOf(t))
  }

  /** Every instant is its day's midnight plus its clock fields, each in range. */
  lemma Decompose(t: Instant)
    ensures 0 <= HourOf(t) < 24 && 0 <= MinuteOf(t) < 60
    ensures 0 <= SecondOf(t) < 60 && 0 <= MillisecondOf(t) < 1000
    ensures t == AtClock(DayOf(t), HourOf(t), MinuteOf(t), SecondOf(t), MillisecondOf(t))
  {
    var tod := TimeOfDay(t);
    DivMod(t, MsPerDay);
    DivMod(tod, MsPerHour);
    var rh := tod % MsPerHour;
    DivMod(rh, MsPerMinute);
    var rm := rh % MsPerMinute;
    DivMod(rm, MsPerSecond);
    assert HourOf(t) < 24 by {
      if HourOf(t) >= 24 {
        MulMonotone(24, HourOf(t), MsPerHour);
      }
    }
    assert MinuteOf(t) < 60 by {
      if MinuteOf(t) >= 60 {
        MulMonotone(60, MinuteOf(t), MsPerMinute);
      }
    }
    assert SecondOf(t) < 60 by {
      if SecondOf(t) >= 60 {
        MulMonotone(60, SecondOf(t), MsPerSecond);
      }
    }
  }

  /** Reading the fields of an in-range clock reading gives them back. */
  lemma FieldsOfClock(day: int, h: int, m: int, s: int, ms: int)
    requires 0 <= h < 24 && 0 <= m < 60 && 0 <= s < 60 && 0 <= ms < 1000
    ensures DayOf(AtClock(day, h, m, s, ms)) == day
    ensures HourOf(AtClock(day, h, m, s, ms)) == h
    ensures MinuteOf(AtClock(day, h, m, s, ms)) == m
    ensures SecondOf(AtClock(day, h, m, s, ms)) == s
    ensures MillisecondOf(AtClock(day, h, m, s, ms)) == ms
  {
    var t := AtClock(day, h, m, s, ms);
    var rm := s * MsPerSecond + ms;
    var rh := m * MsPerMinute + rm;
    var tod := h * MsPerHour + rh;
    DivModUnique(t, MsPerDay, day, tod);
    DivModUnique(tod, MsPerHour, h, rh);
    DivModUnique(rh, MsPerMinute, m, rm);
    DivModUnique(rm, MsPerSecond, s, ms);
  }

  /** An instant on a whole minute since day 0 has zero seconds and milliseconds. */
  lemma WholeMinuteFields(n: int)
    ensures SecondOf(n * MsPerMinute) == 0 && MillisecondOf(n * MsPerMinute) == 0
  {
    var t := n * MsPerMinute;
    DivMod(n, 1440);
    var a, b := n / 1440, n % 1440;
    MulMonotone(b, 1439, MsPerMinute);
    assert t == a * MsPerDay + b * MsPerMinute;
    DivModUnique(t, MsPerDay, a, b * MsPerMinute);
    DivMod(b, 60);
    var c, e := b / 60, b % 60;
    MulMonotone(e, 59, MsPerMinute);
    assert b * MsPerMinute == c * MsPerHour + e * MsPerMinute;
    DivModUnique(b * MsPerMinute, MsPerHour, c, e * MsPerMinute);
    DivModUnique(e * MsPerMinute, MsPerMinute, e, 0);
  }
}
