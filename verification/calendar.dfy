/**
 * The proleptic Gregorian calendar over day numbers: day 0 is 1970-01-01,
 * a Thursday. This is the arithmetic date-fns relies on when it reads the
 * year, month and day of a local date, and when it builds a date from them.
 *
 * Years are counted from 1 March, so that the leap day is the last day of
 * its year; 400 Gregorian years (an era) hold exactly 146097 days, and
 * 1970-01-01 is day 719468 counted from 0000-03-01.
 */
module Calendar {
  import opened Arith

  /** A calendar date; `month` is 1-based (January is 1), as in `yyyy-MM-dd`. */
  datatype Date = Date(year: int, month: int, day: int)

  predicate IsLeapYear(y: int) {
    y % 4 == 0 && (y % 100 != 0 || y % 400 == 0)
  }

  function DaysInMonth(y: int, m: int): (n: int)
    requires 1 <= m <= 12
    ensures 28 <= n <= 31
    ensures n == 29 <==> m == 2 && IsLeapYear(y)
  {
    if m == 2 then (if IsLeapYear(y) then 29 else 28)
    else if m == 4 || m == 6 || m == 9 || m == 11 then 30
    else 31
  }

  predicate ValidDate(d: Date) {
    1 <= d.month <= 12 && 1 <= d.day <= DaysInMonth(d.year, d.month)
  }

  /** Day of the week, Monday first: 0 is Monday, 6 is Sunday (day 0 was a Thursday). */
  function Weekday(day: int): (w: int)
    ensures 0 <= w < 7
  {
    (day + 3) % 7
  }

  /** Days from 1 March to the first of the month `mp` months later. */
  function DaysBeforeMarchMonth(mp: int): int {
    (153 * mp + 2) / 5
  }

  /**
   * Days from the start of the era to 1 March of year `yoe` of the era:
   * a leap day every fourth year, except at the first three century ends.
   */
  function DaysBeforeYearOfEra(yoe: int): int {
    yoe * 365 + yoe / 4 - yoe / 100
  }

  /** The year of the era is one that ends on a 29 February. */
  predicate LongYearOfEra(yoe: int) {
    (yoe + 1) % 4 == 0 && ((yoe + 1) % 100 != 0 || yoe == 399)
  }

  /** The day number of a date. */
  function DaysFromCivil(d: Date): int {
    var y := if d.month <= 2 then d.year - 1 else d.year;
    var mp := if d.month > 2 then d.month - 3 else d.month + 9;
    var doy := DaysBeforeMarchMonth(mp) + d.day - 1;
    (y / 400) * 146097 + DaysBeforeYearOfEra(y % 400) + doy - 719468
  }

  /**
   * Splits a day of the era into the year of the era and the day of that
   * (March-based) year: a century (the last of the four holds the extra leap
   * day), a 4-year block in it, a year in the block (the last holds the leap day).
   */
  function SplitDayOfEra(doe: int): (r: (int, int))
    requires 0 <= doe < 146097
    ensures 0 <= r.0 <= 399 && 0 <= r.1 <= 365
    ensures DaysBeforeYearOfEra(r.0) + r.1 == doe
    ensures r.1 == 365 ==> LongYearOfEra(r.0)
  {
    var c := if doe / 36524 < 3 then doe / 36524 else 3;
    var doc := doe - 36524 * c;
    var q := doc / 1461;
    var doq := doc % 1461;
    var yr := if doq / 365 < 3 then doq / 365 else 3;
    var yoe := 100 * c + 4 * q + yr;
    SplitYearOfEraFacts(c, q, yr, yoe);
    (yoe, doq - 365 * yr)
  }

  lemma SplitYearOfEraFacts(c: int, q: int, yr: int, yoe: int)
    requires 0 <= c <= 3 && 0 <= q <= 24 && 0 <= yr <= 3 && yoe == 100 * c + 4 * q + yr
    ensures yoe / 4 == 25 * c + q && yoe / 100 == c
    ensures yr == 3 ==> (yoe + 1) % 4 == 0
    ensures yr == 3 && q < 24 ==> (yoe + 1) % 100 != 0
  {
    DivModUnique(yoe, 4, 25 * c + q, yr);
    DivModUnique(yoe, 100, c, 4 * q + yr);
    if yr == 3 {
      DivModUnique(yoe + 1, 4, 25 * c + q + 1, 0);
      if q < 24 {
        DivModUnique(yoe + 1, 100, c, 4 * q + 4);
      }
    }
  }

  /** Splits a day of the March-based year into months since March and day of month. */
  function SplitDayOfYear(doy: int): (r: (int, int))
    requires 0 <= doy <= 365
    ensures 0 <= r.0 <= 11 && 1 <= r.1
    ensures r.1 <= MarchMonthLength(r.0)
    ensures r.0 == 11 && r.1 == 29 ==> doy == 365
    ensures DaysBeforeMarchMonth(r.0) + r.1 - 1 == doy
  {
    var mp := (5 * doy + 2) / 153;
    (mp, doy - DaysBeforeMarchMonth(mp) + 1)
  }

  /** Month lengths counted from March; February is given its leap length. */
  function MarchMonthLength(mp: int): int {
    if mp == 11 then 29 else if mp == 1 || mp == 3 || mp == 6 || mp == 8 then 30 else 31
  }

  /** The calendar date of a day number. */
  function CivilFromDays(z: int): (d: Date)
    ensures ValidDate(d)
    ensures DaysFromCivil(d) == z
  {
    var zz := z + 719468;
    var era := zz / 146097;
    var yd := SplitDayOfEra(zz % 146097);
    var md := SplitDayOfYear(yd.1);
    var m := if md.0 < 10 then md.0 + 3 else md.0 - 9;
    var d := Date(era * 400 + yd.0 + (if m <= 2 then 1 else 0), m, md.1);
    AssembledDate(z, era, yd.0, yd.1, md.0, md.1, d);
    d
  }

  /** The date `CivilFromDays` assembles from its pieces is valid and has the day number it came from. */
  lemma AssembledDate(z: int, era: int, yoe: int, doy: int, mp: int, dd: int, d: Date)
    requires era == (z + 719468) / 146097
    requires 0 <= yoe <= 399 && 0 <= doy <= 365
    requires DaysBeforeYearOfEra(yoe) + doy == (z + 719468) % 146097
    requires doy == 365 ==> LongYearOfEra(yoe)
    requires 0 <= mp <= 11 && 1 <= dd <= MarchMonthLength(mp)
    requires DaysBeforeMarchMonth(mp) + dd - 1 == doy
    requires mp == 11 && dd == 29 ==> doy == 365
    requires var m := if mp < 10 then mp + 3 else mp - 9;
             d == Date(era * 400 + yoe + (if m <= 2 then 1 else 0), m, dd)
    ensures ValidDate(d) && DaysFromCivil(d) == z
  {
    var m := if mp < 10 then mp + 3 else mp - 9;
    var year := era * 400 + yoe + (if m <= 2 then 1 else 0);
    YearOfEraRecovered(era, yoe, m, year);
    LongYearIsLeap(era, yoe, era * 400 + yoe + 1);
    DivMod(z + 719468, 146097);
    MarchMonthBack(m, mp);
  }

  lemma YearOfEraRecovered(era: int, yoe: int, m: int, year: int)
    requires 0 <= yoe < 400
    requires year == era * 400 + yoe + (if m <= 2 then 1 else 0)
    ensures (if m <= 2 then year - 1 else year) / 400 == era
    ensures (if m <= 2 then year - 1 else year) % 400 == yoe
  {
    DivModUnique(if m <= 2 then year - 1 else year, 400, era, yoe);
  }

  lemma LongYearIsLeap(era: int, yoe: int, year: int)
    requires 0 <= yoe < 400
    requires year == era * 400 + yoe + 1
    ensures LongYearOfEra(yoe) ==> IsLeapYear(year)
  {
    if !LongYearOfEra(yoe) { return; }
    var k := (yoe + 1) / 4;
    DivModUnique(year, 4, 100 * era + k, 0);
    if yoe == 399 {
      DivModUnique(year, 400, era + 1, 0);
    } else {
      DivModUnique(year, 100, 4 * era + (yoe + 1) / 100, (yoe + 1) % 100);
    }
  }

  /** Every valid date is the date of its own day number. */
  lemma DateRoundTrip(d: Date)
    requires ValidDate(d)
    ensures CivilFromDays(DaysFromCivil(d)) == d
  {
    var y := if d.month <= 2 then d.year - 1 else d.year;
    var era, yoe := y / 400, y % 400;
    DivMod(y, 400);
    var mp := if d.month > 2 then d.month - 3 else d.month + 9;
    var doy := DaysBeforeMarchMonth(mp) + d.day - 1;
    SplitDayOfYearInverse(mp, d.day);
    if doy == 365 {
      LeapYearIsLong(era, yoe, d.year);
    }
    SplitDayOfEraInverse(yoe, doy);
    MarchMonthBack(d.month, mp);
    DaysFromCivilSplit(d, era, yoe, mp, doy);
    CivilFromPieces(DaysFromCivil(d), era, DaysBeforeYearOfEra(yoe) + doy, yoe, doy, mp, d.day, d);
  }

  /** The day number of a date, in terms of its era, year of the era and March-based day of the year. */
  lemma DaysFromCivilSplit(d: Date, era: int, yoe: int, mp: int, doy: int)
    requires era == (if d.month <= 2 then d.year - 1 else d.year) / 400
    requires yoe == (if d.month <= 2 then d.year - 1 else d.year) % 400
    requires mp == if d.month > 2 then d.month - 3 else d.month + 9
    requires doy == DaysBeforeMarchMonth(mp) + d.day - 1
    ensures DaysFromCivil(d) + 719468 == era * 146097 + DaysBeforeYearOfEra(yoe) + doy
  {
  }

  /** Counting months from March and back again gives the month. */
  lemma MarchMonthBack(month: int, mp: int)
    requires 1 <= month <= 12
    requires mp == if month > 2 then month - 3 else month + 9
    ensures month == (if mp < 10 then mp + 3 else mp - 9)
  {
  }

  /** What `CivilFromDays` assembles once its pieces are known. */
  lemma CivilFromPieces(z: int, era: int, doe: int, yoe: int, doy: int, mp: int, dd: int, d: Date)
    requires 0 <= doe < 146097 && z + 719468 == era * 146097 + doe
    requires 0 <= doy <= 365
    requires SplitDayOfEra(doe) == (yoe, doy)
    requires SplitDayOfYear(doy) == (mp, dd)
    requires var m := if mp < 10 then mp + 3 else mp - 9;
             d == Date(era * 400 + yoe + (if m <= 2 then 1 else 0), m, dd)
    ensures CivilFromDays(z) == d
  {
    DivModUnique(z + 719468, 146097, era, doe);
    var yd := SplitDayOfEra((z + 719468) % 146097);
    assert yd.0 == yoe && yd.1 == doy;
    var md := SplitDayOfYear(yd.1);
    assert md.0 == mp && md.1 == dd;
  }

  lemma SplitDayOfYearInverse(mp: int, dd: int)
    requires 0 <= mp <= 11 && 1 <= dd <= MarchMonthLength(mp)
    ensures 0 <= DaysBeforeMarchMonth(mp) + dd - 1 <= 365
    ensures SplitDayOfYear(DaysBeforeMarchMonth(mp) + dd - 1) == (mp, dd)
    ensures DaysBeforeMarchMonth(mp) + dd - 1 == 365 ==> mp == 11 && dd == 29
  {
    match mp
    case 0 => DayInMarchMonth(0, 0, dd);
    case 1 => DayInMarchMonth(1, 31, dd);
    case 2 => DayInMarchMonth(2, 61, dd);
    case 3 => DayInMarchMonth(3, 92, dd);
    case 4 => DayInMarchMonth(4, 122, dd);
    case 5 => DayInMarchMonth(5, 153, dd);
    case 6 => DayInMarchMonth(6, 184, dd);
    case 7 => DayInMarchMonth(7, 214, dd);
    case 8 => DayInMarchMonth(8, 245, dd);
    case 9 => DayInMarchMonth(9, 275, dd);
    case 10 => DayInMarchMonth(10, 306, dd);
    case 11 => DayInMarchMonth(11, 337, dd);
  }

  /** Day `dd` of the month `mp` months after March, which starts on day `start` of the year. */
  lemma DayInMarchMonth(mp: int, start: int, dd: int)
    requires 0 <= mp <= 11 && start == DaysBeforeMarchMonth(mp)
    requires 0 <= 5 * (start + dd - 1) + 2 - 153 * mp < 153
    requires 0 <= start + dd - 1 <= 365
    ensures SplitDayOfYear(start + dd - 1) == (mp, dd)
  {
    DivModUnique(5 * (start + dd - 1) + 2, 153, mp, 5 * (start + dd - 1) + 2 - 153 * mp);
  }

  lemma SplitDayOfEraInverse(yoe: int, doy: int)
    requires 0 <= yoe < 400 && 0 <= doy <= 365
    requires doy == 365 ==> LongYearOfEra(yoe)
    ensures 0 <= DaysBeforeYearOfEra(yoe) + doy < 146097
    ensures SplitDayOfEra(DaysBeforeYearOfEra(yoe) + doy) == (yoe, doy)
  {
    var c, q, yr := yoe / 100, yoe % 100 / 4, yoe % 4;
    DivModUnique(yoe % 100, 4, q, yr);
    SplitYearOfEraFacts(c, q, yr, yoe);
    if doy == 365 {
      LongYearPieces(yoe, c, q, yr);
    }
    SplitDayOfEraFromPieces(c, q, yr, doy, DaysBeforeYearOfEra(yoe) + doy, yoe);
  }

  /** A year of the era that ends on 29 February is the last of its 4-year block, and of its era if it ends a century. */
  lemma LongYearPieces(yoe: int, c: int, q: int, yr: int)
    requires 0 <= c <= 3 && 0 <= q <= 24 && 0 <= yr <= 3 && yoe == 100 * c + 4 * q + yr
    requires LongYearOfEra(yoe)
    ensures yr == 3 && (q == 24 ==> c == 3)
  {
    if yr < 3 {
      DivModUnique(yoe + 1, 4, 25 * c + q, yr + 1);
    }
    if q == 24 && c < 3 {
      DivModUnique(yoe + 1, 100, c + 1, 0);
    }
  }

  lemma SplitDayOfEraFromPieces(c: int, q: int, yr: int, doy: int, doe: int, yoe: int)
    requires 0 <= c <= 3 && 0 <= q <= 24 && 0 <= yr <= 3 && 0 <= doy <= 365
    requires doy == 365 ==> yr == 3 && (q == 24 ==> c == 3)
    requires doe == 36524 * c + 1461 * q + 365 * yr + doy && yoe == 100 * c + 4 * q + yr
    ensures 0 <= doe < 146097
    ensures SplitDayOfEra(doe) == (yoe, doy)
  {
    if c < 3 {
      DivModUnique(doe, 36524, c, 1461 * q + 365 * yr + doy);
    }
    DivModUnique(doe - 36524 * c, 1461, q, 365 * yr + doy);
    if yr < 3 {
      DivModUnique(365 * yr + doy, 365, yr, doy);
    }
  }

  lemma LeapYearIsLong(era: int, yoe: int, year: int)
    requires 0 <= yoe < 400
    requires year == era * 400 + yoe + 1
    requires IsLeapYear(year)
    ensures LongYearOfEra(yoe)
  {
    DivModUnique(year, 4, 100 * era + (yoe + 1) / 4, (yoe + 1) % 4);
    DivModUnique(year, 100, 4 * era + (yoe + 1) / 100, (yoe + 1) % 100);
    if (yoe + 1) % 100 == 0 {
      DivModUnique(year, 400, era + (yoe + 1) / 400, (yoe + 1) % 400);
    }
  }

  /** Day numbers of 0001-01-01 and of 9999-12-31. */
  const FirstFourDigitDay: int := -719162
  const LastFourDigitDay: int := 2932896

  /** The dates with years 1 to 9999 are exactly the days from 0001-01-01 to 9999-12-31. */
  lemma FourDigitYearDays(z: int)
    ensures 1 <= CivilFromDays(z).year <= 9999 <==> FirstFourDigitDay <= z <= LastFourDigitDay
  {
    var zz := z + 719468;
    DivMod(zz, 146097);
    var era, doe := zz / 146097, zz % 146097;
    var yd := SplitDayOfEra(doe);
    var md := SplitDayOfYear(yd.1);
    JanuaryOrFebruary(md.0, md.1, yd.1);
    YearOfEraBounds(yd.0, yd.1, doe);
    var m := if md.0 < 10 then md.0 + 3 else md.0 - 9;
    var d := Date(era * 400 + yd.0 + (if m <= 2 then 1 else 0), m, md.1);
    CivilFromPieces(z, era, doe, yd.0, yd.1, md.0, md.1, d);
    FourDigitYearPieces(z, era, doe, yd.0, yd.1, md.0, d.year);
  }

  /** The year range of `FourDigitYearDays`, stated over the pieces `CivilFromDays` computes. */
  lemma FourDigitYearPieces(z: int, era: int, doe: int, yoe: int, doy: int, mp: int, year: int)
    requires z + 719468 == era * 146097 + doe && 0 <= doe < 146097
    requires 0 <= yoe <= 399 && 0 <= doy <= 365
    requires yoe == 0 ==> doe == doy
    requires yoe >= 1 ==> doe >= 365
    requires yoe <= 398 ==> doe <= 145734
    requires yoe == 399 ==> doe == 145731 + doy
    requires mp >= 10 <==> doy >= 306
    requires year == era * 400 + yoe + (if mp >= 10 then 1 else 0)
    ensures 1 <= year <= 9999 <==> FirstFourDigitDay <= z <= LastFourDigitDay
  {
  }

  /** January and February close the March-based year: they hold its days from 306 on. */
  lemma JanuaryOrFebruary(mp: int, dd: int, doy: int)
    requires 0 <= mp <= 11 && 1 <= dd <= MarchMonthLength(mp)
    requires DaysBeforeMarchMonth(mp) + dd - 1 == doy
    ensures mp >= 10 <==> doy >= 306
  {
    if mp == 0 {
    } else if mp == 1 {
    } else if mp == 2 {
    } else if mp == 3 {
    } else if mp == 4 {
    } else if mp == 5 {
    } else if mp == 6 {
    } else if mp == 7 {
    } else if mp == 8 {
    } else if mp == 9 {
    } else if mp == 10 {
    } else {
    }
  }

  /** Where the years of an era start: year 1 after its first 365 days, year 399 on day 145731. */
  lemma YearOfEraBounds(yoe: int, doy: int, doe: int)
    requires 0 <= yoe <= 399 && 0 <= doy <= 365
    requires DaysBeforeYearOfEra(yoe) + doy == doe
    ensures yoe == 0 ==> doe == doy
    ensures yoe >= 1 ==> doe >= 365
    ensures yoe <= 398 ==> doe <= 145734
    ensures yoe == 399 ==> doe == 145731 + doy
  {
    DivMod(yoe, 4);
    DivMod(yoe, 100);
  }

  /** The year 0 (1 BC, a leap year) runs from day -719528 to the day before 0001-01-01. */
  lemma YearZeroDays(d: Date)
    requires ValidDate(d) && d.year == 0
    ensures FirstFourDigitDay - 366 <= DaysFromCivil(d) < FirstFourDigitDay
  {
    var mp := if d.month > 2 then d.month - 3 else d.month + 9;
    var doy := DaysBeforeMarchMonth(mp) + d.day - 1;
    SplitDayOfYearInverse(mp, d.day);
    JanuaryOrFebruary(mp, d.day, doy);
    assert DaysFromCivil(d) == if mp >= 10 then doy - 719834 else doy - 719468;
  }
}
