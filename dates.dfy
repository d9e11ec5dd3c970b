/**
 * The mutable `Date` object the components step through: a time value that
 * `setDate` and `setHours` overwrite in place. Local time is taken to be UTC.
 */
module Dates {
  import opened Calendar

  class JsDate {
    /** The time value: milliseconds since 1970-01-01T00:00:00Z. */
    var time: int

    /** `new Date(t)` for a time value t. */
    constructor FromTime(t: int)
      ensures time == t
    {
      time := t;
    }

    /** `new Date(d)`: a separate object with the same time value. */
    constructor Copy(d: JsDate)
      ensures time == d.time
    {
      time := d.time;
    }

    /** The day number the time value falls on. */
    function DayNumber(): int
      reads this
    {
      Day(time)
    }

    /** `getDay()`: 0 is Sunday, 6 is Saturday. */
    function GetDay(): (w: int)
      reads this
      ensures 0 <= w < 7 && w == WeekDay(Day(time))
    {
      WeekDay(Day(time))
    }

    /** `getDate()`: the day of the month. */
    function GetDate(): (d: int)
      reads this
      ensures 1 <= d <= 31
      ensures d == ToCivil(Day(time)).day
    {
      ToCivil(Day(time)).day
    }

    /**
     * `setDate(dt)`: keeps the year, the month and the time of day and moves
     * to day dt of that month, counting on into the neighbouring months when
     * dt is out of range. Returns the new time value.
     */
    method SetDate(dt: int) returns (t: int)
      modifies this
      ensures Day(time) == Day(old(time)) - old(GetDate()) + dt
      ensures TimeWithinDay(time) == TimeWithinDay(old(time))
      ensures t == time
    {
      var c := ToCivil(Day(time));
      var ms := TimeWithinDay(time);
      var day := DayFromCivil(Civil(c.year, c.month, dt));
      DayOfMakeDate(day, ms);
      time := MakeDate(day, ms);
      t := time;
    }

    /** `setHours(h, m, s, ms)` for a time of day within the day. */
    method SetHours(h: int, m: int, s: int, ms: int) returns (t: int)
      requires 0 <= MakeTime(h, m, s, ms) < MsPerDay
      modifies this
      ensures Day(time) == Day(old(time))
      ensures TimeWithinDay(time) == MakeTime(h, m, s, ms)
      ensures t == time
    {
      DayOfMakeDate(Day(time), MakeTime(h, m, s, ms));
      time := MakeDate(Day(time), MakeTime(h, m, s, ms));
      t := time;
    }
  }
}
