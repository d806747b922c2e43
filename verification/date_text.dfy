/**
 * The date strings the calendar passes around: date-fns `format` with the
 * patterns 'yyyy-MM-dd' and 'HH:mm', and the parsing of 'yyyy-MM-dd' and
 * 'yyyy-MM-ddTHH:mm:ss' back into local instants (`parseISO`, `new Date`).
 */
module DateText {
  import opened Wrappers
  import opened Strings
  import opened Calendar
  import opened Instants

  /** The fields of a local date-time on a valid date with a four-digit year. */
  lemma LocalDateTimeFields(year: int, month: int, day: int, h: int, m: int)
    requires 1 <= year <= 9999 && ValidDate(Date(year, month, day))
    requires 0 <= h < 24 && 0 <= m < 60
    ensures DayOf(LocalDateTime(year, month, day, h, m)) == DaysFromCivil(Date(year, month, day))
    ensures HourOf(LocalDateTime(year, month, day, h, m)) == h
    ensures MinuteOf(LocalDateTime(year, month, day, h, m)) == m
    ensures InFourDigitYears(DaysFromCivil(Date(year, month, day)))
  {
    FieldsOfClock(DaysFromCivil(Date(year, month, day)), h, m, 0, 0);
    DateRoundTrip(Date(year, month, day));
    FourDigitYearDays(DaysFromCivil(Date(year, month, day)));
  }

  /**
   * The 'yyyy' field: the year of the era, so year 0 (1 BC) prints as 0001,
   * zero-padded to four digits.
   */
  function EraYear(y: int): nat {
    if y > 0 then y else 1 - y
  }

  /**
   * `format(day, 'yyyy-MM-dd')` of the local day `day`: a year of at least
   * four digits, then a dash, two month digits, a dash and two day digits;
   * ten characters in all for the years 1 to 9999.
   */
  function FormatDay(day: int): (r: string)
    ensures |r| >= 10 && r[|r| - 6] == '-' && r[|r| - 3] == '-'
    ensures AllDigits(r[..|r| - 6]) && AllDigits(r[|r| - 5..|r| - 3]) && AllDigits(r[|r| - 2..])
    ensures InFourDigitYears(day) ==> |r| == 10
  {
    var d := CivilFromDays(day);
    var y, m, dd := Decimal(EraYear(d.year), 4), Decimal(d.month, 2), Decimal(d.day, 2);
    Pow10Values();
    DecimalWidth(d.month, 2);
    DecimalWidth(d.day, 2);
    FourDigitYearDays(day);
    if InFourDigitYears(day) then
      DecimalWidth(d.year, 4);
      DayTextShape(y, m, dd)
    else
      DayTextShape(y, m, dd)
  }

  /** The `yyyy-MM-dd` layout of three printed fields. */
  function DayTextShape(y: string, m: string, dd: string): (r: string)
    requires |y| >= 4 && AllDigits(y) && |m| == 2 && AllDigits(m) && |dd| == 2 && AllDigits(dd)
    ensures |r| == |y| + 6 && r[|r| - 6] == '-' && r[|r| - 3] == '-'
    ensures r[..|r| - 6] == y && r[|r| - 5..|r| - 3] == m && r[|r| - 2..] == dd
  {
    var r := y + "-" + m + "-" + dd;
    assert r[..|r| - 6] == y;
    assert r[|r| - 5..|r| - 3] == m;
    assert r[|r| - 2..] == dd;
    r
  }

  /**
   * `format(t, 'yyyy-MM-dd')`: for a day with a four-digit year, the text
   * that parses back to the instant's day.
   */
  function FormatDate(t: Instant): (r: string)
    ensures InFourDigitYears(DayOf(t)) ==> ParseDay(r) == Some(DayOf(t))
  {
    if InFourDigitYears(DayOf(t)) then
      ParseFormatDay(DayOf(t));
      FormatDay(DayOf(t))
    else
      FormatDay(DayOf(t))
  }

  /**
   * `format(t, 'HH:mm')`: two digits reading the hour, a colon and two
   * digits reading the minute.
   */
  function FormatHourMinute(t: Instant): (r: string)
    ensures |r| == 5 && r[2] == ':' && AllDigits(r[..2]) && AllDigits(r[3..])
    ensures DigitsValue(r[..2]) == HourOf(t) && DigitsValue(r[3..]) == MinuteOf(t)
  {
    var hh, mm := Decimal(HourOf(t), 2), Decimal(MinuteOf(t), 2);
    Decompose(t);
    Pow10Values();
    DecimalWidth(HourOf(t), 2);
    DecimalWidth(MinuteOf(t), 2);
    DecimalRoundTrip(HourOf(t), 2);
    DecimalRoundTrip(MinuteOf(t), 2);
    var r := hh + ":" + mm;
    assert r[..2] == hh && r[3..] == mm;
    r
  }

  predicate TwoDigits(s: string) {
    |s| == 2 && AllDigits(s)
  }

  /**
   * The days whose years the four-digit `yyyy` field can carry back and
   * forth: 0001-01-01 to 9999-12-31, which are the days with years 1 to 9999
   * (`FourDigitYearDays`).
   */
  predicate InFourDigitYears(day: int) {
    FirstFourDigitDay <= day <= LastFourDigitDay
  }

  /**
   * The local day named by a 'yyyy-MM-dd' string, or None for an Invalid
   * Date: wrong shape, a month outside 1..12, or a day past the month's end.
   */
  function ParseDay(s: string): (r: Option<int>)
    ensures r.Some? ==> FirstFourDigitDay - 366 <= r.value <= LastFourDigitDay
    ensures r.Some? ==> '-' in s
  {
    var parts := Split(s, '-');
    if |parts| == 3 && |parts[0]| == 4 && AllDigits(parts[0])
       && TwoDigits(parts[1]) && TwoDigits(parts[2])
    then
      var d := Date(DigitsValue(parts[0]), DigitsValue(parts[1]), DigitsValue(parts[2]));
      if ValidDate(d) then
        DigitsValueBound(parts[0]);
        Pow10Values();
        ParsedYearDays(d);
        Some(DaysFromCivil(d))
      else None
    else None
  }

  /** A valid date with a year of at most four digits lies between 0000-01-01 and 9999-12-31. */
  lemma ParsedYearDays(d: Date)
    requires ValidDate(d) && 0 <= d.year <= 9999
    ensures FirstFourDigitDay - 366 <= DaysFromCivil(d) <= LastFourDigitDay
  {
    if d.year >= 1 {
      DateRoundTrip(d);
      FourDigitYearDays(DaysFromCivil(d));
    } else {
      YearZeroDays(d);
    }
  }

  /** The clock reading of an 'HH:mm:ss' string as (hours, minutes, seconds). */
  function ParseClock(s: string): (r: Option<(int, int, int)>)
    ensures r.Some? ==> 0 <= r.value.0 < 24 && 0 <= r.value.1 < 60 && 0 <= r.value.2 < 60
  {
    var hms := Split(s, ':');
    if |hms| == 3 && TwoDigits(hms[0]) && TwoDigits(hms[1]) && TwoDigits(hms[2]) then
      var h, m, sec := DigitsValue(hms[0]), DigitsValue(hms[1]), DigitsValue(hms[2]);
      if h < 24 && m < 60 && sec < 60 then Some((h, m, sec)) else None
    else None
  }

  /**
   * The local instant named by 'yyyy-MM-ddTHH:mm:ss', or None for an
   * Invalid Date.
   */
  function ParseDateTime(s: string): (r: Option<Instant>)
    ensures r.Some? ==> MillisecondOf(r.value) == 0
  {
    var parts := Split(s, 'T');
    if |parts| != 2 then None
    else
      match (ParseDay(parts[0]), ParseClock(parts[1]))
      case (Some(day), Some(c)) =>
        FieldsOfClock(day, c.0, c.1, c.2, 0);
        Some(AtClock(day, c.0, c.1, c.2, 0))
      case _ => None
  }

  /**
   * `${date}T${time}:00`: a date and an 'HH:mm' time as one local date-time
   * string, which splits at its `T` into the date and the time with seconds.
   */
  function ComposeDateTime(date: string, time: string): (r: string)
    ensures 'T' !in date && 'T' !in time ==> Split(r, 'T') == [date, time + ":00"]
  {
    var r := date + "T" + time + ":00";
    if 'T' !in date && 'T' !in time then
      assert 'T' !in time + ":00";
      SplitJoin([date, time + ":00"], 'T');
      assert Join([date, time + ":00"], 'T') == r;
      r
    else r
  }

  /** A formatted day reads back as the same day (four-digit years of the common era). */
  lemma ParseFormatDay(day: int)
    requires InFourDigitYears(day)
    ensures ParseDay(FormatDay(day)) == Some(day)
  {
    var d := CivilFromDays(day);
    FourDigitYearDays(day);
    var y, m, dd := Decimal(d.year, 4), Decimal(d.month, 2), Decimal(d.day, 2);
    Pow10Values();
    DecimalWidth(d.year, 4);
    DecimalWidth(d.month, 2);
    DecimalWidth(d.day, 2);
    DecimalRoundTrip(d.year, 4);
    DecimalRoundTrip(d.month, 2);
    DecimalRoundTrip(d.day, 2);
    SplitThree(y, m, dd, '-');
  }

  /** Splitting three separator-free pieces joined by the separator gives them back. */
  lemma SplitThree(a: string, b: string, c: string, sep: char)
    requires sep !in a && sep !in b && sep !in c
    ensures Split(a + [sep] + b + [sep] + c, sep) == [a, b, c]
  {
    SplitJoin([a, b, c], sep);
    assert Join([a, b, c], sep) == a + [sep] + Join([b, c], sep);
    assert Join([b, c], sep) == b + [sep] + Join([c], sep);
    assert a + [sep] + b + [sep] + c == a + [sep] + (b + [sep] + c);
  }

  /**
   * The parser accepts exactly the formatted strings: whatever it reads as a
   * day of the common era formats back to the very same text.
   */
  lemma FormatParsedDay(s: string)
    requires ParseDay(s).Some?
    ensures CivilFromDays(ParseDay(s).value).year >= 1 ==> FormatDay(ParseDay(s).value) == s
  {
    var parts := Split(s, '-');
    var d := Date(DigitsValue(parts[0]), DigitsValue(parts[1]), DigitsValue(parts[2]));
    DateRoundTrip(d);
    DigitsValueBound(parts[0]);
    Pow10Values();
    if d.year >= 1 {
      DigitsRoundTrip(parts[0]);
      DigitsRoundTrip(parts[1]);
      DigitsRoundTrip(parts[2]);
      JoinSplit(s, '-');
      assert Join(parts, '-') == parts[0] + "-" + Join(parts[1..], '-');
      assert Join(parts[1..], '-') == parts[1] + "-" + parts[2];
    }
  }

  /**
   * A local instant on a whole minute, split into its 'yyyy-MM-dd' date and
   * 'HH:mm' time and recomposed as `${date}T${time}:00`, parses back to itself.
   */
  lemma ComposeFormatted(t: Instant)
    requires SecondOf(t) == 0 && MillisecondOf(t) == 0
    requires InFourDigitYears(DayOf(t))
    ensures ParseDateTime(ComposeDateTime(FormatDate(t), FormatHourMinute(t))) == Some(t)
  {
    var date, hm := FormatDate(t), FormatHourMinute(t);
    var time := hm + ":00";
    var h, m := HourOf(t), MinuteOf(t);
    assert ComposeDateTime(date, hm) == date + "T" + time;
    ParseFormatDay(DayOf(t));
    Decompose(t);
    ParseFormattedClock(h, m);
    assert 'T' !in date by {
      DateHasNoT(DayOf(t));
    }
    SplitJoin([date, time], 'T');
    assert Join([date, time], 'T') == date + "T" + time;
    var parts := Split(date + "T" + time, 'T');
    assert parts == [date, time];
    assert ParseDay(parts[0]) == Some(DayOf(t));
    assert ParseClock(parts[1]) == Some((h, m, 0));
    assert t == AtClock(DayOf(t), h, m, 0, 0);
  }

  lemma DateHasNoT(day: int)
    ensures 'T' !in FormatDay(day)
  {
    var d := CivilFromDays(day);
    var y, m, dd := Decimal(EraYear(d.year), 4), Decimal(d.month, 2), Decimal(d.day, 2);
    assert 'T' !in y && 'T' !in m && 'T' !in dd;
  }

  lemma ParseFormattedClock(h: int, m: int)
    requires 0 <= h < 24 && 0 <= m < 60
    ensures ParseClock(Decimal(h, 2) + ":" + Decimal(m, 2) + ":00") == Some((h, m, 0))
    ensures 'T' !in Decimal(h, 2) + ":" + Decimal(m, 2) + ":00"
  {
    var hh, mm := Decimal(h, 2), Decimal(m, 2);
    Pow10Values();
    DecimalWidth(h, 2);
    DecimalWidth(m, 2);
    DecimalRoundTrip(h, 2);
    DecimalRoundTrip(m, 2);
    assert DigitsValue("00") == 0;
    SplitThree(hh, mm, "00", ':');
    assert hh + ":" + mm + ":00" == hh + [':'] + mm + [':'] + "00";
  }
}
