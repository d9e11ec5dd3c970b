/**
 * The calendar arithmetic the app gets from `Date`: time values in
 * milliseconds, day numbers counted from 1970-01-01, the proleptic Gregorian
 * calendar as ECMAScript defines it (DayFromYear, MonthFromTime, DateFromTime,
 * WeekDay, MakeDay, MakeTime), the extended ISO 8601 date format
 * "YYYY-MM-DD" and the 24-hour time format "HH:mm".
 */
module Calendar {
  import opened Types

  /** Milliseconds in a day, ECMAScript's msPerDay. */
  const MsPerDay: int := 86400000

  /** A minute of the day, 00:00 through 23:59. */
  type MinuteOfDay = m: int | 0 <= m < 1440

  /** Day(t): the day number of a time value, rounding down. */
  function Day(t: int): int { t / 86400000 }

  /** TimeWithinDay(t): the milliseconds since that day's midnight. */
  function TimeWithinDay(t: int): (ms: int)
    ensures 0 <= ms < MsPerDay
  {
    t % 86400000
  }

  /** MakeTime(hour, min, sec, ms): h hours, m minutes, s seconds and ms milliseconds, in milliseconds. */
  function MakeTime(h: int, m: int, s: int, ms: int): int {
    ms + 1000 * (s + 60 * (m + 60 * h))
  }

  /** MakeDate(day, time). */
  function MakeDate(day: int, time: int): int { day * 86400000 + time }

  lemma DayOfMakeDate(day: int, time: int)
    requires 0 <= time < MsPerDay
    ensures Day(MakeDate(day, time)) == day && TimeWithinDay(MakeDate(day, time)) == time
  {
  }

  /** WeekDay(t) on a day number: 0 is Sunday, 1 is Monday; 1970-01-01 was a Thursday. */
  function WeekDay(day: int): (w: int)
    ensures 0 <= w < 7
  {
    (day + 4) % 7
  }

  /** The weekday moves on by one each day and comes back after seven. */
  lemma WeekDayNext(day: int)
    ensures WeekDay(day + 1) == if WeekDay(day) == 6 then 0 else WeekDay(day) + 1
    ensures WeekDay(day + 7) == WeekDay(day)
  {
  }

  predicate IsLeapYear(y: int) {
    y % 4 == 0 && (y % 100 != 0 || y % 400 == 0)
  }

  function DaysInYear(y: int): int {
    if IsLeapYear(y) then 366 else 365
  }

  /** DayFromYear(y): the day number of January 1st of year y. */
  function DayFromYear(y: int): int {
    365 * (y - 1970) + (y - 1969) / 4 - (y - 1901) / 100 + (y - 1601) / 400
  }

  lemma FloorStep4(a: int)
    ensures (a + 1) / 4 - a / 4 == if (a + 1) % 4 == 0 then 1 else 0
  {
  }

  lemma FloorStep100(a: int)
    ensures (a + 1) / 100 - a / 100 == if (a + 1) % 100 == 0 then 1 else 0
  {
  }

  lemma FloorStep400(a: int)
    ensures (a + 1) / 400 - a / 400 == if (a + 1) % 400 == 0 then 1 else 0
  {
  }

  /** The fourth-year term of DayFromYear grows by one exactly into a year divisible by 4. */
  lemma LeapStep4(y: int)
    ensures (y - 1968) / 4 - (y - 1969) / 4 == if y % 4 == 0 then 1 else 0
  {
    FloorStep4(y - 1969);
    assert (y - 1968) % 4 == y % 4;
  }

  lemma LeapStep100(y: int)
    ensures (y - 1900) / 100 - (y - 1901) / 100 == if y % 100 == 0 then 1 else 0
  {
    FloorStep100(y - 1901);
    assert (y - 1900) % 100 == y % 100;
  }

  lemma LeapStep400(y: int)
    ensures (y - 1600) / 400 - (y - 1601) / 400 == if y % 400 == 0 then 1 else 0
  {
    FloorStep400(y - 1601);
    assert (y - 1600) % 400 == y % 400;
  }

  /** Consecutive years start DaysInYear apart. */
  lemma DayFromYearStep(y: int)
    ensures DayFromYear(y + 1) == DayFromYear(y) + DaysInYear(y)
  {
    LeapCount(y);
  }

  /** The three leap-year terms of DayFromYear grow by one in total exactly into a leap year. */
  lemma LeapCount(y: int)
    ensures ((y - 1968) / 4 - (y - 1969) / 4) - ((y - 1900) / 100 - (y - 1901) / 100) +
            ((y - 1600) / 400 - (y - 1601) / 400) == if IsLeapYear(y) then 1 else 0
  {
    LeapStep4(y);
    LeapStep100(y);
    LeapStep400(y);
    if y % 400 == 0 {
      assert y % 100 == 0 && y % 4 == 0;
    } else if y % 100 == 0 {
      assert y % 4 == 0;
    }
  }

  /** Years start in increasing order. */
  lemma {:induction false} DayFromYearMonotone(a: int, b: int)
    requires a < b
    ensures DayFromYear(a + 1) <= DayFromYear(b)
    decreases b - a
  {
    if a + 1 < b {
      DayFromYearMonotone(a + 1, b);
      DayFromYearStep(a + 1);
    }
  }

  /** Only one year can contain a given day. */
  lemma YearUnique(day: int, y1: int, y2: int)
    requires DayFromYear(y1) <= day < DayFromYear(y1 + 1)
    requires DayFromYear(y2) <= day < DayFromYear(y2 + 1)
    ensures y1 == y2
  {
    if y1 < y2 { DayFromYearMonotone(y1, y2); }
    if y2 < y1 { DayFromYearMonotone(y2, y1); }
  }

  /** Walks down from year y to a year that starts on or before the day. */
  function YearAtOrBefore(day: int, y: int): (r: int)
    ensures DayFromYear(r) <= day
    decreases if day < DayFromYear(y) then DayFromYear(y) - day else 0
  {
    if day < DayFromYear(y) then
      DayFromYearStep(y - 1);
      YearAtOrBefore(day, y - 1)
    else y
  }

  /** Walks up from a year that starts on or before the day to the year containing it. */
  function YearContaining(day: int, y: int): (r: int)
    requires DayFromYear(y) <= day
    ensures DayFromYear(r) <= day < DayFromYear(r + 1)
    decreases day - DayFromYear(y)
  {
    DayFromYearStep(y);
    if DayFromYear(y + 1) <= day then YearContaining(day, y + 1) else y
  }

  /** YearFromTime on a day number: the year whose first day is the last one not after `day`. */
  function YearFromDay(day: int): (y: int)
    ensures DayFromYear(y) <= day < DayFromYear(y + 1)
  {
    YearContaining(day, YearAtOrBefore(day, 1970))
  }

  /** Days before the first of month m (1 = January) in year y. */
  function MonthStart(y: int, m: int): (d: int)
    requires 1 <= m <= 12
  {
    var leap := if IsLeapYear(y) then 1 else 0;
    if m == 1 then 0 else if m == 2 then 31 else if m == 3 then 59 + leap
    else if m == 4 then 90 + leap else if m == 5 then 120 + leap else if m == 6 then 151 + leap
    else if m == 7 then 181 + leap else if m == 8 then 212 + leap else if m == 9 then 243 + leap
    else if m == 10 then 273 + leap else if m == 11 then 304 + leap else 334 + leap
  }

  function DaysInMonth(y: int, m: int): (n: int)
    requires 1 <= m <= 12
    ensures 28 <= n <= 31
    ensures MonthStart(y, m) + n == if m == 12 then DaysInYear(y) else MonthStart(y, m + 1)
  {
    if m == 2 then (if IsLeapYear(y) then 29 else 28)
    else if m == 4 || m == 6 || m == 9 || m == 11 then 30
    else 31
  }

  /** MonthFromTime on the day within the year (0 is January 1st). */
  function MonthFromDayWithinYear(y: int, d: int): (m: int)
    requires 0 <= d < DaysInYear(y)
    ensures 1 <= m <= 12 && MonthStart(y, m) <= d < MonthStart(y, m) + DaysInMonth(y, m)
  {
    if d < MonthStart(y, 2) then 1 else if d < MonthStart(y, 3) then 2
    else if d < MonthStart(y, 4) then 3 else if d < MonthStart(y, 5) then 4
    else if d < MonthStart(y, 6) then 5 else if d < MonthStart(y, 7) then 6
    else if d < MonthStart(y, 8) then 7 else if d < MonthStart(y, 9) then 8
    else if d < MonthStart(y, 10) then 9 else if d < MonthStart(y, 11) then 10
    else if d < MonthStart(y, 12) then 11 else 12
  }

  /** A calendar date: year, month 1..12, day of the month. */
  datatype Civil = Civil(year: int, month: int, day: int)

  predicate ValidCivil(c: Civil) {
    1 <= c.month <= 12 && 1 <= c.day <= DaysInMonth(c.year, c.month)
  }

  /**
   * MakeDay(year, month, date) for a month in range: the day of the first of
   * the month plus date - 1. A date outside the month counts on into the
   * neighbouring months, which is how `setDate` normalises.
   */
  function DayFromCivil(c: Civil): int
    requires 1 <= c.month <= 12
  {
    DayFromYear(c.year) + MonthStart(c.year, c.month) + c.day - 1
  }

  /** YearFromTime, MonthFromTime and DateFromTime of a day number. */
  function ToCivil(day: int): (c: Civil)
    ensures ValidCivil(c) && DayFromCivil(c) == day
    ensures c.year == YearFromDay(day)
  {
    var y := YearFromDay(day);
    DayFromYearStep(y);
    var m := MonthFromDayWithinYear(y, day - DayFromYear(y));
    Civil(y, m, day - DayFromYear(y) - MonthStart(y, m) + 1)
  }

  /** Every valid date is the calendar date of its own day number. */
  lemma CivilRoundTrip(c: Civil)
    requires ValidCivil(c)
    ensures ToCivil(DayFromCivil(c)) == c
  {
    var r := ToCivil(DayFromCivil(c));
    YearOfCivil(c);
    SameYearSameDate(r, c);
  }

  lemma YearOfCivil(c: Civil)
    requires ValidCivil(c)
    ensures YearFromDay(DayFromCivil(c)) == c.year
  {
    DayInOwnYear(c);
    YearOfDay(DayFromCivil(c), c.year);
  }

  /** A day belongs to the year whose span contains it. */
  lemma YearOfDay(n: int, y: int)
    requires DayFromYear(y) <= n < DayFromYear(y + 1)
    ensures YearFromDay(n) == y
  {
    YearUnique(n, YearFromDay(n), y);
  }

  lemma SameYearSameDate(r: Civil, c: Civil)
    requires ValidCivil(r) && ValidCivil(c) && r.year == c.year && DayFromCivil(r) == DayFromCivil(c)
    ensures r == c
  {
    var d := DayFromCivil(c) - DayFromYear(c.year);
    MonthUnique(c.year, d, r.month, c.month);
  }

  lemma DayInOwnYear(c: Civil)
    requires ValidCivil(c)
    ensures DayFromYear(c.year) <= DayFromCivil(c) < DayFromYear(c.year + 1)
  {
    DayFromYearStep(c.year);
    if c.month < 12 {
      assert MonthStart(c.year, c.month + 1) <= MonthStart(c.year, 12);
    }
  }

  lemma MonthUnique(y: int, d: int, m1: int, m2: int)
    requires 1 <= m1 <= 12 && 1 <= m2 <= 12
    requires MonthStart(y, m1) <= d < MonthStart(y, m1) + DaysInMonth(y, m1)
    requires MonthStart(y, m2) <= d < MonthStart(y, m2) + DaysInMonth(y, m2)
    ensures m1 == m2
  {
  }

  // Decimal digits

  predicate IsDigit(c: char) { '0' <= c <= '9' }

  predicate AllDigits(s: string) {
    forall i :: 0 <= i < |s| ==> IsDigit(s[i])
  }

  function Pow10(n: nat): (p: nat)
    ensures p >= 1
  {
    if n == 0 then 1 else 10 * Pow10(n - 1)
  }

  function DigitChar(d: int): (c: char)
    requires 0 <= d < 10
    ensures IsDigit(c)
  {
    (d + 48) as char
  }

  function DigitValue(c: char): (d: int)
    requires IsDigit(c)
    ensures 0 <= d < 10 && DigitChar(d) == c
  {
    (c as int) - 48
  }

  /** `n` written with exactly `width` digits, zero-padded on the left (the low `width` digits). */
  function FixedDigits(n: nat, width: nat): (s: string)
    ensures |s| == width && AllDigits(s)
  {
    if width == 0 then [] else FixedDigits(n / 10, width - 1) + [DigitChar(n % 10)]
  }

  /** The number a string of decimal digits denotes. */
  function DigitsValue(s: string): (n: nat)
    requires AllDigits(s)
    ensures n < Pow10(|s|)
  {
    if s == [] then 0 else DigitsValue(s[..|s| - 1]) * 10 + DigitValue(s[|s| - 1])
  }

  /** Reading back a number written in enough digits gives the number. */
  lemma {:induction false} DigitsValueOfFixed(n: nat, width: nat)
    requires n < Pow10(width)
    ensures DigitsValue(FixedDigits(n, width)) == n
  {
    if width > 0 {
      DigitsValueOfFixed(n / 10, width - 1);
      var s := FixedDigits(n, width);
      assert s[..|s| - 1] == FixedDigits(n / 10, width - 1);
    }
  }

  /** Writing back the value of a digit string in as many digits gives the string. */
  lemma {:induction false} FixedOfDigitsValue(s: string)
    requires AllDigits(s)
    ensures FixedDigits(DigitsValue(s), |s|) == s
  {
    if s != [] {
      var p := s[..|s| - 1];
      FixedOfDigitsValue(p);
      var a, d := DigitsValue(p), DigitValue(s[|s| - 1]);
      LastDigit(a, d);
      assert FixedDigits(DigitsValue(s), |s|) == FixedDigits(a, |p|) + [DigitChar(d)];
      assert s == p + [s[|s| - 1]];
    }
  }

  /** Appending digit d to a number's digits: the quotient by 10 is the number, the remainder d. */
  lemma LastDigit(a: nat, d: int)
    requires 0 <= d < 10
    ensures (a * 10 + d) / 10 == a && (a * 10 + d) % 10 == d
  {
  }

  // Text formats

  /**
   * The year field of `toISOString`: four digits for years 0 through 9999,
   * otherwise a sign and six digits.
   */
  function YearText(y: int): (s: string)
    ensures 0 <= y <= 9999 ==> |s| == 4 && AllDigits(s) && DigitsValue(s) == y
    ensures y < 0 ==> |s| == 7 && s[0] == '-' && AllDigits(s[1..]) && (-y < 1000000 ==> DigitsValue(s[1..]) == -y)
    ensures y > 9999 ==> |s| == 7 && s[0] == '+' && AllDigits(s[1..]) && (y < 1000000 ==> DigitsValue(s[1..]) == y)
  {
    if 0 <= y <= 9999 then
      assert Pow10(4) == 10000;
      DigitsValueOfFixed(y, 4);
      FixedDigits(y, 4)
    else
      var n := if y < 0 then -y else y;
      var digits := FixedDigits(n, 6);
      SixDigits(n);
      var s := (if y < 0 then "-" else "+") + digits;
      assert s[1..] == digits;
      s
  }

  /** Six digits read back as the number, when it has at most six. */
  lemma SixDigits(n: nat)
    ensures n < 1000000 ==> DigitsValue(FixedDigits(n, 6)) == n
  {
    if n < 1000000 {
      assert Pow10(6) == 1000000;
      DigitsValueOfFixed(n, 6);
    }
  }

  /** `d.toISOString().split('T')[0]` for the day number of `d`. */
  function FormatDate(day: int): string {
    CivilText(ToCivil(day))
  }

  /** A calendar date written "YYYY-MM-DD". */
  function CivilText(c: Civil): string
    requires ValidCivil(c)
  {
    YearText(c.year) + "-" + FixedDigits(c.month, 2) + "-" + FixedDigits(c.day, 2)
  }

  /**
   * The date-only form "YYYY-MM-DD" as ECMAScript's date-time string format
   * reads it: a month 01..12 and a day that exists in that month, else no
   * value (an invalid date).
   */
  function ParseDate(s: string): (r: Option<int>)
    ensures r.Some? ==> |s| == 10
  {
    if |s| == 10 && s[4] == '-' && s[7] == '-' &&
       AllDigits(s[..4]) && AllDigits(s[5..7]) && AllDigits(s[8..]) then
      var c := Civil(DigitsValue(s[..4]), DigitsValue(s[5..7]), DigitsValue(s[8..]));
      if ValidCivil(c) then Some(DayFromCivil(c)) else None
    else None
  }

  /** The year of a day number lies in 0..9999, the years written with four digits. */
  predicate FourDigitYear(day: int) {
    0 <= YearFromDay(day) <= 9999
  }

  /** Printing a date with a four-digit year and reading it back gives the same day. */
  lemma ParseFormatDate(day: int)
    requires FourDigitYear(day)
    ensures ParseDate(FormatDate(day)) == Some(day)
  {
    ParseCivilText(ToCivil(day));
  }

  lemma ParseCivilText(c: Civil)
    requires ValidCivil(c) && 0 <= c.year <= 9999
    ensures ParseDate(CivilText(c)) == Some(DayFromCivil(c))
  {
    var y, m, d := FixedDigits(c.year, 4), FixedDigits(c.month, 2), FixedDigits(c.day, 2);
    DateFields(y, m, d);
    DigitsValueOfFixed(c.year, 4);
    DigitsValueOfFixed(c.month, 2);
    DigitsValueOfFixed(c.day, 2);
  }

  /** Where the fields of "YYYY-MM-DD" sit. */
  lemma DateFields(y: string, m: string, d: string)
    requires |y| == 4 && |m| == 2 && |d| == 2
    ensures var s := y + "-" + m + "-" + d;
      |s| == 10 && s[4] == '-' && s[7] == '-' && s[..4] == y && s[5..7] == m && s[8..] == d
  {
  }

  /** A date string that reads as a day is exactly how that day is printed. */
  lemma FormatParseDate(s: string)
    requires ParseDate(s).Some?
    ensures FourDigitYear(ParseDate(s).value) && FormatDate(ParseDate(s).value) == s
  {
    var c := DateParts(s);
    CivilRoundTrip(c);
    FixedOfDigitsValue(s[..4]);
    FixedOfDigitsValue(s[5..7]);
    FixedOfDigitsValue(s[8..]);
    DateSplit(s);
    DateOfCivil(c);
  }

  /** What a readable date string is made of. */
  lemma DateParts(s: string) returns (c: Civil)
    requires ParseDate(s).Some?
    ensures |s| == 10 && s[4] == '-' && s[7] == '-' && AllDigits(s[..4]) && AllDigits(s[5..7]) && AllDigits(s[8..])
    ensures c == Civil(DigitsValue(s[..4]), DigitsValue(s[5..7]), DigitsValue(s[8..]))
    ensures ValidCivil(c) && ParseDate(s) == Some(DayFromCivil(c)) && 0 <= c.year <= 9999
  {
    assert Pow10(4) == 10000;
    c := Civil(DigitsValue(s[..4]), DigitsValue(s[5..7]), DigitsValue(s[8..]));
  }

  lemma DateSplit(s: string)
    requires |s| == 10 && s[4] == '-' && s[7] == '-'
    ensures s == s[..4] + "-" + s[5..7] + "-" + s[8..]
  {
  }

  /** A valid date with a four-digit year is printed from its own fields. */
  lemma DateOfCivil(c: Civil)
    requires ValidCivil(c) && 0 <= c.year <= 9999 && ToCivil(DayFromCivil(c)) == c
    ensures FourDigitYear(DayFromCivil(c))
    ensures FormatDate(DayFromCivil(c)) == FixedDigits(c.year, 4) + "-" + FixedDigits(c.month, 2) + "-" + FixedDigits(c.day, 2)
  {
    YearOfCivil(c);
  }

  /** Only a day with a four-digit year prints as a readable date: any other year makes the text too long. */
  lemma ReadableDateYear(day: int)
    requires ParseDate(FormatDate(day)).Some?
    ensures FourDigitYear(day)
  {
  }

  /** A readable date text is the printed form of exactly one day: the day it reads as. */
  lemma FormatDateIs(day: int, s: string, d: int)
    requires ParseDate(s) == Some(d)
    ensures FormatDate(day) == s <==> day == d
  {
    FormatParseDate(s);
    if FormatDate(day) == s {
      ReadableDateYear(day);
      FormatDateInjective(day, d);
    }
  }

  /** Different days print differently. */
  lemma FormatDateInjective(a: int, b: int)
    requires FourDigitYear(a) && FourDigitYear(b) && FormatDate(a) == FormatDate(b)
    ensures a == b
  {
    ParseFormatDate(a);
    ParseFormatDate(b);
  }

  /** `toLocaleTimeString('pt-BR', {hour: '2-digit', minute: '2-digit'})`: "HH:mm". */
  function FormatTime(t: MinuteOfDay): string {
    FixedDigits(t / 60, 2) + ":" + FixedDigits(t % 60, 2)
  }

  /**
   * The time part "HH:mm" of ECMAScript's date-time string format, in
   * minutes: hours 00..23 with minutes 00..59, or the end of day "24:00".
   */
  function ParseClock(s: string): (r: Option<int>)
    ensures r.Some? ==> 0 <= r.value <= 1440
  {
    if |s| == 5 && s[2] == ':' && AllDigits(s[..2]) && AllDigits(s[3..]) then
      var h, m := DigitsValue(s[..2]), DigitsValue(s[3..]);
      if m < 60 && (h < 24 || (h == 24 && m == 0)) then Some(h * 60 + m) else None
    else None
  }

  /** Printing a minute of the day and reading it back gives the same minute. */
  lemma ParseFormatTime(t: MinuteOfDay)
    ensures ParseClock(FormatTime(t)) == Some(t)
  {
    var h, m := FixedDigits(t / 60, 2), FixedDigits(t % 60, 2);
    ClockFields(h, m);
    assert Pow10(2) == 100;
    DigitsValueOfFixed(t / 60, 2);
    DigitsValueOfFixed(t % 60, 2);
  }

  /** Where the fields of "HH:mm" sit. */
  lemma ClockFields(h: string, m: string)
    requires |h| == 2 && |m| == 2
    ensures var s := h + ":" + m;
      |s| == 5 && s[2] == ':' && s[..2] == h && s[3..] == m
  {
  }

  /** A clock string naming a minute before midnight is exactly how that minute is printed; "24:00" is the only other form. */
  lemma FormatParseTime(s: string)
    requires ParseClock(s).Some?
    ensures ParseClock(s).value < 1440 ==> FormatTime(ParseClock(s).value) == s
    ensures ParseClock(s).value == 1440 ==> s == "24:00"
  {
    var h, m := ClockParts(s);
    FixedOfDigitsValue(s[..2]);
    FixedOfDigitsValue(s[3..]);
    ClockSplit(s);
    HourAndMinute(h, m);
    if h * 60 + m < 1440 {
      FormatOfParts(h * 60 + m, h, m);
    } else {
      EndOfDayText();
    }
  }

  /** What a readable clock string is made of. */
  lemma ClockParts(s: string) returns (h: nat, m: nat)
    requires ParseClock(s).Some?
    ensures |s| == 5 && s[2] == ':' && AllDigits(s[..2]) && AllDigits(s[3..])
    ensures h == DigitsValue(s[..2]) && m == DigitsValue(s[3..]) && m < 60
    ensures ParseClock(s) == Some(h * 60 + m)
  {
    h, m := DigitsValue(s[..2]), DigitsValue(s[3..]);
  }

  lemma FormatOfParts(t: MinuteOfDay, h: nat, m: nat)
    requires m < 60 && t == h * 60 + m
    ensures FormatTime(t) == FixedDigits(h, 2) + ":" + FixedDigits(m, 2)
  {
    HourAndMinute(h, m);
  }

  lemma ClockSplit(s: string)
    requires |s| == 5 && s[2] == ':'
    ensures s == s[..2] + ":" + s[3..]
  {
  }

  lemma HourAndMinute(h: nat, m: nat)
    requires m < 60
    ensures (h * 60 + m) / 60 == h && (h * 60 + m) % 60 == m
    ensures h * 60 + m == 1440 ==> h == 24 && m == 0
  {
  }

  lemma EndOfDayText()
    ensures FixedDigits(24, 2) + ":" + FixedDigits(0, 2) == "24:00"
  {
  }

  /** Different minutes print differently. */
  lemma FormatTimeInjective(a: MinuteOfDay, b: MinuteOfDay)
    requires FormatTime(a) == FormatTime(b)
    ensures a == b
  {
    ParseFormatTime(a);
    ParseFormatTime(b);
  }

  /**
   * `new Date(date + 'T' + time)` for the local date-time form
   * "YYYY-MM-DDTHH:mm": the time value, or no value for an invalid date.
   */
  function ParseDateTime(s: string): (r: Option<int>)
  {
    if |s| == 16 && s[10] == 'T' then
      match (ParseDate(s[..10]), ParseClock(s[11..]))
        case (Some(day), Some(minutes)) => Some(MakeDate(day, minutes * 60000))
        case _ => None
    else None
  }

  /** A printed date and a printed time joined by 'T' read back as that instant. */
  lemma ParseJoinedDateTime(day: int, t: MinuteOfDay)
    requires FourDigitYear(day)
    ensures ParseDateTime(FormatDate(day) + "T" + FormatTime(t)) == Some(MakeDate(day, t * 60000))
  {
    var s := FormatDate(day) + "T" + FormatTime(t);
    ParseFormatDate(day);
    ParseFormatTime(t);
    assert s[..10] == FormatDate(day) && s[11..] == FormatTime(t);
  }

  /** The minute of the day a time value falls in. */
  function MinuteOf(ms: int): (t: MinuteOfDay) {
    TimeWithinDay(ms) / 60000
  }

  /**
   * The wall-clock minute one hour before minute t (t may be 1440, "24:00"):
   * the clock runs back past midnight, so only the hour and minute are kept.
   */
  function OneHourBefore(t: int): (r: MinuteOfDay)
    requires 0 <= t <= 1440
    ensures (r + 60) % 1440 == t % 1440
  {
    (t - 60) % 1440
  }

  /** OneHourBefore is the minute of the time value one hour before the instant. */
  lemma OneHourBeforeInstant(day: int, t: int)
    requires 0 <= t <= 1440
    ensures MinuteOf(MakeDate(day, t * 60000) - 3600000) == OneHourBefore(t)
  {
    var ms := MakeDate(day, t * 60000) - 3600000;
    if t >= 60 {
      assert ms == MakeDate(day, (t - 60) * 60000);
      DayOfMakeDate(day, (t - 60) * 60000);
    } else {
      assert ms == MakeDate(day - 1, (t + 1380) * 60000);
      DayOfMakeDate(day - 1, (t + 1380) * 60000);
    }
  }
}
