/**
 * components/MedicationGrid.tsx: the Monday-to-Sunday week shown around the
 * current date, the per-slot "taken" lookup and the slots its buttons
 * dispatch to the toggle handler.
 */
module MedicationGrid {
  import opened Types
  import opened Calendar
  import opened Dates

  // The week

  /**
   * The day number `getStartOfWeek` moves to: `getDate() - getDay()` is the
   * Sunday before, plus 1 for Monday, or minus 6 when the date is a Sunday.
   */
  function StartOfWeek(day: int): int {
    var w := WeekDay(day);
    day - w + (if w == 0 then -6 else 1)
  }

  /** The start of the week is the Monday on or before the day. */
  lemma StartOfWeekIsMonday(day: int)
    ensures WeekDay(StartOfWeek(day)) == 1
    ensures StartOfWeek(day) <= day <= StartOfWeek(day) + 6
    ensures StartOfWeek(day) == day - (WeekDay(day) + 6) % 7
  {
    var w := WeekDay(day);
    var s := StartOfWeek(day);
    assert (day + 4) % 7 == w;
    assert s + 4 == day + 4 - w + (if w == 0 then -6 else 1);
    if w == 0 {
      assert (s + 4) % 7 == ((day + 4) - w - 6) % 7;
    }
  }

  /** A Sunday belongs to the week that began six days earlier. */
  lemma SundayEndsItsWeek(day: int)
    requires WeekDay(day) == 0
    ensures StartOfWeek(day) == day - 6
  {
  }

  /**
   * `StartOfWeek(day)` is the only Monday within six days before `day`: the
   * week start in both directions.
   */
  lemma StartOfWeekUnique(day: int, s: int)
    ensures s == StartOfWeek(day) <==> WeekDay(s) == 1 && s <= day <= s + 6
  {
    StartOfWeekIsMonday(day);
    if WeekDay(s) == 1 && s <= day <= s + 6 {
      var t := StartOfWeek(day);
      assert (s + 4) % 7 == (t + 4) % 7;
      assert -6 <= s - t <= 6;
      MondaysSevenApart(s, t);
    }
  }

  /** Two Mondays less than a week apart are the same day. */
  lemma MondaysSevenApart(s: int, t: int)
    requires (s + 4) % 7 == (t + 4) % 7 && -6 <= s - t <= 6
    ensures s == t
  {
    var q1, q2 := (s + 4) / 7, (t + 4) / 7;
    assert s - t == 7 * (q1 - q2);
  }

  /** Every day of a week has the same start; in particular the last one, a Sunday. */
  lemma WeekSharesStart(day: int, k: int)
    requires 0 <= k < 7
    ensures StartOfWeek(StartOfWeek(day) + k) == StartOfWeek(day)
    ensures WeekDay(StartOfWeek(day) + 6) == 0
  {
    var s := StartOfWeek(day);
    StartOfWeekIsMonday(day);
    StartOfWeekUnique(s + k, s);
  }

  /**
   * `getStartOfWeek(d)`: works on a copy of d, moves it to the Monday of its
   * week keeping the time of day, and returns a new date for it. The
   * caller's date is left as it was.
   */
  method GetStartOfWeek(d: JsDate) returns (r: JsDate)
    ensures fresh(r)
    ensures Day(r.time) == StartOfWeek(Day(d.time))
    ensures TimeWithinDay(r.time) == TimeWithinDay(d.time)
  {
    var date := new JsDate.Copy(d);
    var day := date.GetDay();
    var diff := date.GetDate() - day + (if day == 0 then -6 else 1);
    var t := date.SetDate(diff);
    r := new JsDate.FromTime(t);
  }

  /** The day numbers of the week `weekDays` lists, Monday first. */
  function WeekDayNumbers(day: int): (days: seq<int>)
    ensures |days| == 7
  {
    seq(7, i => StartOfWeek(day) + i)
  }

  /**
   * The `weekDays` loop: seven new dates, the i-th one a copy of the start
   * moved with `setDate(start.getDate() + i)`.
   */
  method WeekDays(currentDate: JsDate) returns (days: seq<JsDate>)
    ensures |days| == 7
    ensures forall i :: 0 <= i < 7 ==> Day(days[i].time) == WeekDayNumbers(Day(currentDate.time))[i]
    ensures forall i :: 0 <= i < 7 ==> TimeWithinDay(days[i].time) == TimeWithinDay(currentDate.time)
  {
    var start := GetStartOfWeek(currentDate);
    var first := start.GetDate();
    ghost var t0 := start.time;
    days := [];
    for i := 0 to 7
      invariant start.time == t0
      invariant |days| == i
      invariant forall j :: 0 <= j < i ==> Day(days[j].time) == Day(start.time) + j
      invariant forall j :: 0 <= j < i ==> TimeWithinDay(days[j].time) == TimeWithinDay(start.time)
    {
      var day := MovedCopy(start, first + i);
      days := days + [day];
    }
  }

  /** `new Date(start)` followed by `setDate(dt)`: a new date dt - getDate() days from the start, at its time of day. */
  method MovedCopy(start: JsDate, dt: int) returns (day: JsDate)
    ensures fresh(day)
    ensures Day(day.time) == Day(start.time) - start.GetDate() + dt
    ensures TimeWithinDay(day.time) == TimeWithinDay(start.time)
  {
    day := new JsDate.Copy(start);
    var _ := day.SetDate(dt);
  }

  /** The week holds the reference day, starts on a Monday, ends on a Sunday and steps one day at a time. */
  lemma WeekDayNumbersShape(day: int)
    ensures day in WeekDayNumbers(day)
    ensures WeekDay(WeekDayNumbers(day)[0]) == 1 && WeekDay(WeekDayNumbers(day)[6]) == 0
    ensures forall i :: 0 < i < 7 ==> WeekDayNumbers(day)[i] == WeekDayNumbers(day)[i - 1] + 1
  {
    StartOfWeekIsMonday(day);
    WeekSharesStart(day, 0);
    var s := StartOfWeek(day);
    assert WeekDayNumbers(day)[day - s] == day;
  }

  /** Every day of the week is shown the same week. */
  lemma WeekIsStable(day: int, k: int)
    requires 0 <= k < 7
    ensures WeekDayNumbers(WeekDayNumbers(day)[k]) == WeekDayNumbers(day)
  {
    WeekSharesStart(day, k);
  }

  /** Over a year end: the week of Tuesday 2024-12-31 runs from Monday 2024-12-30 to Sunday 2025-01-05. */
  lemma WeekAcrossYearEnd(d: int)
    requires d == DayFromCivil(Civil(2024, 12, 31))
    ensures WeekDay(d) == 2
    ensures ToCivil(WeekDayNumbers(d)[0]) == Civil(2024, 12, 30)
    ensures ToCivil(WeekDayNumbers(d)[6]) == Civil(2025, 1, 5)
  {
    YearEndDays();
    var monday, sunday := WeekDayNumbers(d)[0], WeekDayNumbers(d)[6];
    assert monday == d - 1 && sunday == d + 5;
    CivilRoundTrip(Civil(2024, 12, 30));
    CivilRoundTrip(Civil(2025, 1, 5));
  }

  lemma YearEndDays()
    ensures WeekDay(DayFromCivil(Civil(2024, 12, 31))) == 2
    ensures DayFromCivil(Civil(2024, 12, 30)) == DayFromCivil(Civil(2024, 12, 31)) - 1
    ensures DayFromCivil(Civil(2025, 1, 5)) == DayFromCivil(Civil(2024, 12, 31)) + 5
    ensures ValidCivil(Civil(2024, 12, 30)) && ValidCivil(Civil(2025, 1, 5))
  {
    assert DayFromYear(2024) == 19723;
    assert DayFromYear(2025) == 20089;
  }

  // The taken lookup

  /** `logs.find(...)`: the index of the first log filed under the slot. */
  function FindLog(logs: seq<MedLog>, slot: Slot): (r: Option<nat>)
    ensures r.Some? ==> r.value < |logs| && logs[r.value].SlotOf() == slot &&
                        forall j :: 0 <= j < r.value ==> logs[j].SlotOf() != slot
    ensures r.None? <==> forall j :: 0 <= j < |logs| ==> logs[j].SlotOf() != slot
  {
    if logs == [] then None
    else if logs[0].SlotOf() == slot then Some(0)
    else match FindLog(logs[1..], slot)
      case Some(i) => Some(i + 1)
      case None => None
  }

  /** `!!logEntry?.taken`: the first log of the slot exists and is marked taken. */
  predicate CellIsTaken(logs: seq<MedLog>, slot: Slot) {
    match FindLog(logs, slot)
      case Some(i) => logs[i].taken
      case None => false
  }

  /** A cell is shown taken iff some log of its slot is taken and no earlier log of the slot is not. */
  lemma CellIsTakenIff(logs: seq<MedLog>, slot: Slot)
    ensures CellIsTaken(logs, slot) <==>
      exists i :: 0 <= i < |logs| && logs[i].SlotOf() == slot && logs[i].taken &&
        forall j :: 0 <= j < i ==> logs[j].SlotOf() != slot
  {
    if CellIsTaken(logs, slot) {
      var i := FindLog(logs, slot).value;
      assert logs[i].SlotOf() == slot && logs[i].taken;
    }
    if exists i :: 0 <= i < |logs| && logs[i].SlotOf() == slot && logs[i].taken &&
        forall j :: 0 <= j < i ==> logs[j].SlotOf() != slot {
      var i :| 0 <= i < |logs| && logs[i].SlotOf() == slot && logs[i].taken &&
        forall j :: 0 <= j < i ==> logs[j].SlotOf() != slot;
      var k := FindLog(logs, slot).value;
      assert !(k < i) && !(i < k);
    }
  }

  // The grid

  /** A button of the grid: the slot it toggles and whether it is drawn as taken. */
  datatype Cell = Cell(slot: Slot, taken: bool)

  /** The cells of one dose time across the week's dates. */
  function DayCells(logs: seq<MedLog>, medId: string, time: string, dates: seq<string>): (cells: seq<Cell>)
    ensures |cells| == |dates|
  {
    if dates == [] then []
    else
      var slot := Slot(medId, dates[0], time);
      [Cell(slot, CellIsTaken(logs, slot))] + DayCells(logs, medId, time, dates[1..])
  }

  /** The rows of one medicine: one per dose time. */
  function TimeCells(logs: seq<MedLog>, medId: string, times: seq<string>, dates: seq<string>): seq<Cell> {
    if times == [] then []
    else DayCells(logs, medId, times[0], dates) + TimeCells(logs, medId, times[1..], dates)
  }

  /** Every row of the table: each medicine of the schedule, each of its times, each day. */
  function GridCells(schedule: seq<MedicationScheduleItem>, logs: seq<MedLog>, dates: seq<string>): seq<Cell> {
    if schedule == [] then []
    else TimeCells(logs, schedule[0].id, schedule[0].times, dates) + GridCells(schedule[1..], logs, dates)
  }

  /** The dates the grid shows: `formatDateISO` of each week day. */
  function WeekDates(day: int): (dates: seq<string>)
    ensures |dates| == 7
  {
    seq(7, i requires 0 <= i < 7 => FormatDate(WeekDayNumbers(day)[i]))
  }

  lemma {:induction false} DayCellsMembers(logs: seq<MedLog>, medId: string, time: string, dates: seq<string>, c: Cell)
    ensures c in DayCells(logs, medId, time, dates) <==>
      c.slot.medScheduleId == medId && c.slot.time == time && c.slot.date in dates &&
      c.taken == CellIsTaken(logs, c.slot)
  {
    if dates != [] {
      DayCellsMembers(logs, medId, time, dates[1..], c);
      assert dates == [dates[0]] + dates[1..];
    }
  }

  lemma {:induction false} TimeCellsMembers(logs: seq<MedLog>, medId: string, times: seq<string>, dates: seq<string>, c: Cell)
    ensures c in TimeCells(logs, medId, times, dates) <==>
      c.slot.medScheduleId == medId && c.slot.time in times && c.slot.date in dates &&
      c.taken == CellIsTaken(logs, c.slot)
  {
    if times != [] {
      DayCellsMembers(logs, medId, times[0], dates, c);
      TimeCellsMembers(logs, medId, times[1..], dates, c);
      assert times == [times[0]] + times[1..];
    }
  }

  /**
   * The grid has a button exactly for each (medicine, one of its times, one
   * of the shown dates), drawn taken as the lookup says; so every toggle it
   * dispatches names a scheduled time on a shown date.
   */
  lemma {:induction false} GridCellsMembers(schedule: seq<MedicationScheduleItem>, logs: seq<MedLog>, dates: seq<string>, c: Cell)
    ensures c in GridCells(schedule, logs, dates) <==>
      (exists med :: med in schedule && c.slot.medScheduleId == med.id && c.slot.time in med.times) &&
      c.slot.date in dates && c.taken == CellIsTaken(logs, c.slot)
  {
    if schedule != [] {
      TimeCellsMembers(logs, schedule[0].id, schedule[0].times, dates, c);
      GridCellsMembers(schedule[1..], logs, dates, c);
      assert schedule == [schedule[0]] + schedule[1..];
      if exists med :: med in schedule && c.slot.medScheduleId == med.id && c.slot.time in med.times {
        var med :| med in schedule && c.slot.medScheduleId == med.id && c.slot.time in med.times;
        if med != schedule[0] {
          assert med in schedule[1..];
        }
      }
    }
  }

  /** The grid of the week around `day` offers every scheduled time on every day of that week. */
  lemma GridCoversWeek(schedule: seq<MedicationScheduleItem>, logs: seq<MedLog>, day: int, med: MedicationScheduleItem, time: string, k: int)
    requires med in schedule && time in med.times && 0 <= k < 7
    ensures var slot := Slot(med.id, FormatDate(WeekDayNumbers(day)[k]), time);
      Cell(slot, CellIsTaken(logs, slot)) in GridCells(schedule, logs, WeekDates(day))
  {
    var slot := Slot(med.id, FormatDate(WeekDayNumbers(day)[k]), time);
    assert WeekDates(day)[k] == slot.date;
    GridCellsMembers(schedule, logs, WeekDates(day), Cell(slot, CellIsTaken(logs, slot)));
  }
}
