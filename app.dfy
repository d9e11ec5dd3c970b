/**
 * App.tsx: the app's state cells (dose logs, inventory, appointments and the
 * notification permission), the handlers that overwrite them, and the
 * decision of which notifications one minute's check raises.
 */
module App {
  import opened Types
  import opened Calendar
  import opened MedicationGrid
  import opened InventoryPanel
  import opened GeminiService
  import opened AppointmentPanel

  // Dose logs

  /** The log `handleToggleMed` appends: the slot, taken, with a new id and the current ISO time. */
  function NewLog(slot: Slot, freshId: string, takenAt: string): MedLog {
    MedLog(freshId, slot.medScheduleId, slot.date, slot.time, true, Some(takenAt))
  }

  /**
   * `handleToggleMed`: the first log of the slot, whatever its `taken`, is
   * removed (the filter drops that one object); without one, a taken log is
   * appended.
   */
  function Toggle(logs: seq<MedLog>, slot: Slot, freshId: string, takenAt: string): seq<MedLog> {
    match FindLog(logs, slot)
      case Some(i) => logs[..i] + logs[i + 1..]
      case None => logs + [NewLog(slot, freshId, takenAt)]
  }

  /** The shape of the store the app builds: every log taken, at most one log per slot. */
  predicate LogsValid(logs: seq<MedLog>) {
    (forall i :: 0 <= i < |logs| ==> logs[i].taken) &&
    (forall i, j :: 0 <= i < j < |logs| ==> logs[i].SlotOf() != logs[j].SlotOf())
  }

  /** The first log of a slot is found where it is. */
  lemma FindLogIs(logs: seq<MedLog>, slot: Slot, k: int)
    requires 0 <= k < |logs| && logs[k].SlotOf() == slot
    requires forall j :: 0 <= j < k ==> logs[j].SlotOf() != slot
    ensures FindLog(logs, slot) == Some(k)
  {
    var r := FindLog(logs, slot);
    assert r.Some?;
    assert !(r.value < k) && !(k < r.value);
  }

  /** On a slot with no log, toggling appends exactly one taken log for it; the earlier logs stay as they were. */
  lemma ToggleAbsent(logs: seq<MedLog>, slot: Slot, freshId: string, takenAt: string)
    requires FindLog(logs, slot).None?
    ensures var r := Toggle(logs, slot, freshId, takenAt);
      |r| == |logs| + 1 && r[..|logs|] == logs &&
      r[|logs|].SlotOf() == slot && r[|logs|].taken && r[|logs|].id == freshId
  {
    var r := Toggle(logs, slot, freshId, takenAt);
    assert r[..|logs|] == logs;
  }

  /** On a slot with logs, toggling removes exactly the first of them and keeps the others in order. */
  lemma TogglePresent(logs: seq<MedLog>, slot: Slot, freshId: string, takenAt: string)
    requires FindLog(logs, slot).Some?
    ensures var i := FindLog(logs, slot).value; var r := Toggle(logs, slot, freshId, takenAt);
      logs[i].SlotOf() == slot && (forall j :: 0 <= j < i ==> logs[j].SlotOf() != slot) &&
      |r| == |logs| - 1 &&
      (forall j :: 0 <= j < i ==> r[j] == logs[j]) &&
      (forall j :: i <= j < |r| ==> r[j] == logs[j + 1]) &&
      multiset(r) + multiset{logs[i]} == multiset(logs)
  {
    var i := FindLog(logs, slot).value;
    var r := logs[..i] + logs[i + 1..];
    assert Toggle(logs, slot, freshId, takenAt) == r;
    assert logs == logs[..i] + [logs[i]] + logs[i + 1..];
    assert multiset(logs) == multiset(logs[..i]) + multiset{logs[i]} + multiset(logs[i + 1..]);
  }

  /** Toggling a slot with no log twice gives the store back. */
  lemma ToggleTwiceFromAbsent(logs: seq<MedLog>, slot: Slot, id1: string, at1: string, id2: string, at2: string)
    requires FindLog(logs, slot).None?
    ensures Toggle(Toggle(logs, slot, id1, at1), slot, id2, at2) == logs
  {
    var r := logs + [NewLog(slot, id1, at1)];
    FindLogIs(r, slot, |logs|);
    assert r[..|logs|] == logs;
  }

  /**
   * Toggling a slot that has its log twice puts a log for it back, but at
   * the end of the store and with the second id.
   */
  lemma ToggleTwiceFromPresent(logs: seq<MedLog>, slot: Slot, id1: string, at1: string, id2: string, at2: string)
    requires LogsValid(logs) && FindLog(logs, slot).Some?
    ensures var i := FindLog(logs, slot).value;
      Toggle(Toggle(logs, slot, id1, at1), slot, id2, at2) == logs[..i] + logs[i + 1..] + [NewLog(slot, id2, at2)]
  {
    var i := FindLog(logs, slot).value;
    var r := logs[..i] + logs[i + 1..];
    forall j | 0 <= j < |r| ensures r[j].SlotOf() != slot {
      if j < i {
        assert r[j] == logs[j];
      } else {
        assert r[j] == logs[j + 1];
      }
    }
  }

  /** Toggling keeps the store's shape: all logs taken, one per slot at most. */
  lemma ToggleKeepsValid(logs: seq<MedLog>, slot: Slot, freshId: string, takenAt: string)
    requires LogsValid(logs)
    ensures LogsValid(Toggle(logs, slot, freshId, takenAt))
  {
    var r := Toggle(logs, slot, freshId, takenAt);
    match FindLog(logs, slot)
    case Some(i) =>
      forall a, b | 0 <= a < b < |r| ensures r[a].SlotOf() != r[b].SlotOf() {
        var a', b' := if a < i then a else a + 1, if b < i then b else b + 1;
        assert r[a] == logs[a'] && r[b] == logs[b'];
      }
    case None =>
      forall a, b | 0 <= a < b < |r| ensures r[a].SlotOf() != r[b].SlotOf() {
        if b == |logs| {
          assert r[a] == logs[a];
        }
      }
  }

  /** A toggle changes the cell it came from: taken becomes untaken and the other way round. */
  lemma ToggleFlipsCell(logs: seq<MedLog>, slot: Slot, freshId: string, takenAt: string)
    requires LogsValid(logs)
    ensures CellIsTaken(Toggle(logs, slot, freshId, takenAt), slot) == !CellIsTaken(logs, slot)
  {
    match FindLog(logs, slot)
    case Some(i) =>
      ToggleTwiceFromPresent(logs, slot, freshId, takenAt, freshId, takenAt);
    case None =>
      FindLogIs(logs + [NewLog(slot, freshId, takenAt)], slot, |logs|);
  }

  /** A toggle leaves the logs of every other slot alone, and so every other cell. */
  lemma ToggleLeavesOtherSlots(logs: seq<MedLog>, slot: Slot, freshId: string, takenAt: string, other: Slot)
    requires other != slot
    ensures forall l: MedLog :: l.SlotOf() == other ==>
      multiset(Toggle(logs, slot, freshId, takenAt))[l] == multiset(logs)[l]
    ensures CellIsTaken(Toggle(logs, slot, freshId, takenAt), other) == CellIsTaken(logs, other)
  {
    var r := Toggle(logs, slot, freshId, takenAt);
    match FindLog(logs, slot)
    case Some(i) =>
      assert logs == logs[..i] + [logs[i]] + logs[i + 1..];
      RemovedKeepsOtherCell(logs, i, other);
    case None =>
      match FindLog(logs, other)
      case Some(k) =>
        FindLogIs(r, other, k);
      case None =>
    }

  lemma RemovedKeepsOtherCell(logs: seq<MedLog>, i: int, other: Slot)
    requires 0 <= i < |logs| && logs[i].SlotOf() != other
    ensures CellIsTaken(logs[..i] + logs[i + 1..], other) == CellIsTaken(logs, other)
  {
    var r := logs[..i] + logs[i + 1..];
    match FindLog(logs, other)
    case Some(k) =>
      if k < i {
        FindLogIs(r, other, k);
      } else {
        forall j | 0 <= j < k - 1 ensures r[j].SlotOf() != other {
          if j >= i { assert r[j] == logs[j + 1]; }
        }
        FindLogIs(r, other, k - 1);
      }
    case None =>
      forall j | 0 <= j < |r| ensures r[j].SlotOf() != other {
        if j >= i { assert r[j] == logs[j + 1]; }
      }
  }

  // Inventory

  /** `handleUpdateInventory`: every item with the id gets the new quantity, unclamped. */
  function UpdateQuantity(inventory: seq<InventoryItem>, id: string, newQty: int): (r: seq<InventoryItem>)
    ensures |r| == |inventory|
  {
    seq(|inventory|, i requires 0 <= i < |inventory| =>
      if inventory[i].id == id then inventory[i].(currentQuantity := newQty) else inventory[i])
  }

  /** Only the quantity of the matching items changes; the list keeps its length, order and other fields. */
  lemma UpdateQuantityChangesOnlyQuantity(inventory: seq<InventoryItem>, id: string, newQty: int, i: int)
    requires 0 <= i < |inventory|
    ensures var r := UpdateQuantity(inventory, id, newQty);
      r[i].id == inventory[i].id && r[i].name == inventory[i].name &&
      r[i].minThreshold == inventory[i].minThreshold && r[i].unit == inventory[i].unit &&
      r[i].currentQuantity == (if inventory[i].id == id then newQty else inventory[i].currentQuantity)
  {
  }

  /** Storing a quantity twice is storing the second one. */
  lemma UpdateQuantityTwice(inventory: seq<InventoryItem>, id: string, q1: int, q2: int)
    ensures UpdateQuantity(UpdateQuantity(inventory, id, q1), id, q2) == UpdateQuantity(inventory, id, q2)
  {
  }

  /** The stored quantity of the item a card belongs to is what its button asked for. */
  lemma DecrementClickStoresClamped(inventory: seq<InventoryItem>, i: int)
    requires 0 <= i < |inventory|
    ensures var q := inventory[i].currentQuantity;
      var r := UpdateQuantity(inventory, Cards(inventory)[i].id, Cards(inventory)[i].decrementTo);
      r[i].currentQuantity >= 0 && (q >= 1 ==> r[i].currentQuantity == q - 1)
  {
  }

  /**
   * "+" then "-" on a card with a non-negative quantity gives the inventory
   * back, when the items sharing its id agree on the quantity (the update
   * writes the card's value into every item with the id).
   */
  lemma IncrementThenDecrementRestores(inventory: seq<InventoryItem>, i: int)
    requires 0 <= i < |inventory| && inventory[i].currentQuantity >= 0
    requires forall j :: 0 <= j < |inventory| && inventory[j].id == inventory[i].id ==>
      inventory[j].currentQuantity == inventory[i].currentQuantity
    ensures var once := UpdateQuantity(inventory, inventory[i].id, Cards(inventory)[i].incrementTo);
      UpdateQuantity(once, inventory[i].id, Cards(once)[i].decrementTo) == inventory
  {
    var id := inventory[i].id;
    var once := UpdateQuantity(inventory, id, Cards(inventory)[i].incrementTo);
    var twice := UpdateQuantity(once, id, Cards(once)[i].decrementTo);
    forall j | 0 <= j < |inventory| ensures twice[j] == inventory[j] {
      if inventory[j].id == id {
        assert twice[j] == inventory[j].(currentQuantity := inventory[i].currentQuantity);
      }
    }
  }

  // Appointments

  /** `handleAddAppointment`. */
  function WithAppointment(apts: seq<Appointment>, apt: Appointment): seq<Appointment> {
    apts + [apt]
  }

  /** `handleDeleteAppointment`: keeps the appointments whose id differs, in order. */
  function WithoutAppointment(apts: seq<Appointment>, id: string): (r: seq<Appointment>)
    ensures |r| <= |apts|
  {
    if apts == [] then []
    else if apts[0].id != id then [apts[0]] + WithoutAppointment(apts[1..], id)
    else WithoutAppointment(apts[1..], id)
  }

  /** Deleting works piecewise, so the kept appointments stay in their order. */
  lemma {:induction false} DeleteDistributes(a: seq<Appointment>, b: seq<Appointment>, id: string)
    ensures WithoutAppointment(a + b, id) == WithoutAppointment(a, id) + WithoutAppointment(b, id)
  {
    if a != [] {
      DeleteDistributes(a[1..], b, id);
      assert (a + b)[1..] == a[1..] + b;
    } else {
      assert a + b == b;
    }
  }

  /** Every appointment with the id goes; every other stays as often as it was there. */
  lemma {:induction false} DeleteCounts(apts: seq<Appointment>, id: string, a: Appointment)
    ensures multiset(WithoutAppointment(apts, id))[a] == if a.id == id then 0 else multiset(apts)[a]
  {
    if apts != [] {
      var head, tail := apts[0], apts[1..];
      DeleteCounts(tail, id, a);
      assert apts == [head] + tail;
      assert multiset(apts) == multiset{head} + multiset(tail);
      if head.id != id {
        assert WithoutAppointment(apts, id) == [head] + WithoutAppointment(tail, id);
        assert multiset(WithoutAppointment(apts, id)) == multiset{head} + multiset(WithoutAppointment(tail, id));
      } else {
        assert WithoutAppointment(apts, id) == WithoutAppointment(tail, id);
      }
    }
  }

  /** Deleting an id that no appointment has changes nothing. */
  lemma {:induction false} DeleteAbsent(apts: seq<Appointment>, id: string)
    requires forall k :: 0 <= k < |apts| ==> apts[k].id != id
    ensures WithoutAppointment(apts, id) == apts
  {
    if apts != [] {
      DeleteAbsent(apts[1..], id);
      assert apts == [apts[0]] + apts[1..];
    }
  }

  /** Deleting twice is deleting once. */
  lemma DeleteIdempotent(apts: seq<Appointment>, id: string)
    ensures WithoutAppointment(WithoutAppointment(apts, id), id) == WithoutAppointment(apts, id)
  {
    var r := WithoutAppointment(apts, id);
    forall k | 0 <= k < |r| ensures r[k].id != id {
      DeleteCounts(apts, id, r[k]);
      assert r[k] in multiset(r);
    }
    DeleteAbsent(r, id);
  }

  /** Adding an appointment with a new id and deleting that id gives the list back. */
  lemma DeleteUndoesAdd(apts: seq<Appointment>, apt: Appointment)
    requires forall k :: 0 <= k < |apts| ==> apts[k].id != apt.id
    ensures |WithAppointment(apts, apt)| == |apts| + 1
    ensures WithoutAppointment(WithAppointment(apts, apt), apt.id) == apts
  {
    DeleteDistributes(apts, [apt], apt.id);
    DeleteAbsent(apts, apt.id);
    assert [apt][1..] == [];
  }

  // The notification check

  /** What `checkNotifications` raises: a dose reminder, an appointment now, an appointment in an hour. */
  datatype Notification =
    | MedicationDue(med: MedicationScheduleItem, time: string)
    | AppointmentNow(apt: Appointment)
    | AppointmentSoon(apt: Appointment)

  /** `logs.some(...)`: the slot has a taken log. */
  predicate AlreadyTaken(logs: seq<MedLog>, medId: string, date: string, time: string) {
    exists i :: 0 <= i < |logs| && logs[i].medScheduleId == medId && logs[i].date == date &&
      logs[i].time == time && logs[i].taken
  }

  /** The reminder one medicine raises at a given date and "HH:mm". */
  function MedReminder(med: MedicationScheduleItem, logs: seq<MedLog>, date: string, time: string): seq<Notification> {
    if time in med.times && !AlreadyTaken(logs, med.id, date, time) then [MedicationDue(med, time)] else []
  }

  /** The reminders of a schedule, in schedule order. */
  function MedReminders(schedule: seq<MedicationScheduleItem>, logs: seq<MedLog>, date: string, time: string): seq<Notification> {
    if schedule == [] then []
    else MedReminders(schedule[..|schedule| - 1], logs, date, time) + MedReminder(schedule[|schedule| - 1], logs, date, time)
  }

  /**
   * The "HH:mm" one hour before the appointment: its time value less one
   * hour, as the clock shows it. An invalid date gives no time.
   */
  function SoonTime(apt: Appointment): Option<string> {
    match Instant(apt)
      case Some(t) => Some(FormatTime(MinuteOf(t - 3600000)))
      case None => None
  }

  /** The notices one appointment raises on a date at a "HH:mm". */
  function AppointmentNotice(apt: Appointment, date: string, time: string): seq<Notification> {
    if apt.date == date then
      (if apt.time == time then [AppointmentNow(apt)] else []) +
      (if SoonTime(apt) == Some(time) then [AppointmentSoon(apt)] else [])
    else []
  }

  function AppointmentNotices(apts: seq<Appointment>, date: string, time: string): seq<Notification> {
    if apts == [] then []
    else AppointmentNotices(apts[..|apts| - 1], date, time) + AppointmentNotice(apts[|apts| - 1], date, time)
  }

  lemma NoticesStep(apts: seq<Appointment>, k: int, date: string, time: string)
    requires 0 <= k < |apts|
    ensures AppointmentNotices(apts[..k + 1], date, time) ==
      AppointmentNotices(apts[..k], date, time) + AppointmentNotice(apts[k], date, time)
  {
    assert apts[..k + 1][..k] == apts[..k];
  }

  /** `toISOString().split('T')[0]` of the instant. */
  function TodayText(now: int): string { FormatDate(Day(now)) }

  /** The "HH:mm" of the instant. */
  function ClockText(now: int): string { FormatTime(MinuteOf(now)) }

  /** One run of `checkNotifications` at time value `now`, if notifications are granted. */
  function Tick(permission: Permission, schedule: seq<MedicationScheduleItem>, logs: seq<MedLog>,
                apts: seq<Appointment>, now: int): seq<Notification>
  {
    if permission != Granted then []
    else MedReminders(schedule, logs, TodayText(now), ClockText(now)) +
         AppointmentNotices(apts, TodayText(now), ClockText(now))
  }

  lemma {:induction false} MedRemindersMembers(schedule: seq<MedicationScheduleItem>, logs: seq<MedLog>, date: string, time: string, n: Notification)
    ensures n in MedReminders(schedule, logs, date, time) <==>
      n.MedicationDue? && n.med in schedule && n.time == time && time in n.med.times &&
      !AlreadyTaken(logs, n.med.id, date, time)
    decreases |schedule|
  {
    if schedule != [] {
      var init := schedule[..|schedule| - 1];
      MedRemindersMembers(init, logs, date, time, n);
      assert schedule == init + [schedule[|schedule| - 1]];
    }
  }

  lemma {:induction false} AppointmentNoticesMembers(apts: seq<Appointment>, date: string, time: string, n: Notification)
    ensures n in AppointmentNotices(apts, date, time) <==>
      (n.AppointmentNow? && n.apt in apts && n.apt.date == date && n.apt.time == time) ||
      (n.AppointmentSoon? && n.apt in apts && n.apt.date == date && SoonTime(n.apt) == Some(time))
    decreases |apts|
  {
    if apts != [] {
      var init, last := apts[..|apts| - 1], apts[|apts| - 1];
      AppointmentNoticesMembers(init, date, time, n);
      NoticeMembers(last, date, time, n);
      assert apts == init + [last];
      match n
      case MedicationDue(_, _) =>
      case AppointmentNow(apt) =>
        assert apt in apts <==> apt in init || apt == last;
      case AppointmentSoon(apt) =>
        assert apt in apts <==> apt in init || apt == last;
    }
  }

  /** The notices one appointment raises. */
  lemma NoticeMembers(apt: Appointment, date: string, time: string, n: Notification)
    ensures n in AppointmentNotice(apt, date, time) <==>
      (n.AppointmentNow? && n.apt == apt && apt.date == date && apt.time == time) ||
      (n.AppointmentSoon? && n.apt == apt && apt.date == date && SoonTime(apt) == Some(time))
  {
  }

  /** Nothing is raised unless notifications are granted. */
  lemma SilentUnlessGranted(permission: Permission, schedule: seq<MedicationScheduleItem>, logs: seq<MedLog>, apts: seq<Appointment>, now: int)
    requires permission != Granted
    ensures Tick(permission, schedule, logs, apts, now) == []
  {
  }

  /**
   * A medicine is reminded of iff notifications are granted, the clock's
   * "HH:mm" is one of its times, and today's slot has no taken log.
   */
  lemma TickMedicationIff(permission: Permission, schedule: seq<MedicationScheduleItem>, logs: seq<MedLog>,
                          apts: seq<Appointment>, now: int, med: MedicationScheduleItem, time: string)
    ensures MedicationDue(med, time) in Tick(permission, schedule, logs, apts, now) <==>
      permission == Granted && med in schedule && time == ClockText(now) && time in med.times &&
      !AlreadyTaken(logs, med.id, TodayText(now), time)
  {
    MedRemindersMembers(schedule, logs, TodayText(now), ClockText(now), MedicationDue(med, time));
    AppointmentNoticesMembers(apts, TodayText(now), ClockText(now), MedicationDue(med, time));
  }

  /** "Now" is raised for an appointment iff it is today at the clock's "HH:mm". */
  lemma TickNowIff(permission: Permission, schedule: seq<MedicationScheduleItem>, logs: seq<MedLog>,
                   apts: seq<Appointment>, now: int, apt: Appointment)
    ensures AppointmentNow(apt) in Tick(permission, schedule, logs, apts, now) <==>
      permission == Granted && apt in apts && apt.date == TodayText(now) && apt.time == ClockText(now)
  {
    MedRemindersMembers(schedule, logs, TodayText(now), ClockText(now), AppointmentNow(apt));
    AppointmentNoticesMembers(apts, TodayText(now), ClockText(now), AppointmentNow(apt));
  }

  /** "In an hour" is raised for an appointment iff it is dated today and its time less an hour reads as the clock. */
  lemma TickSoonIff(permission: Permission, schedule: seq<MedicationScheduleItem>, logs: seq<MedLog>,
                    apts: seq<Appointment>, now: int, apt: Appointment)
    ensures AppointmentSoon(apt) in Tick(permission, schedule, logs, apts, now) <==>
      permission == Granted && apt in apts && apt.date == TodayText(now) && SoonTime(apt) == Some(ClockText(now))
  {
    MedRemindersMembers(schedule, logs, TodayText(now), ClockText(now), AppointmentSoon(apt));
    AppointmentNoticesMembers(apts, TodayText(now), ClockText(now), AppointmentSoon(apt));
  }

  /** Reading "date T time" when the date is ten characters long reads the two parts apart. */
  lemma JoinedParts(date: string, time: string)
    requires |date| == 10
    ensures ParseDateTime(date + "T" + time) ==
      match (ParseDate(date), ParseClock(time))
        case (Some(day), Some(minutes)) => Some(MakeDate(day, minutes * 60000))
        case _ => None
  {
    var s := date + "T" + time;
    assert s[..10] == date && s[11..] == time;
  }

  /**
   * For an appointment on a readable date at a readable "HH:mm" (or "24:00"),
   * the clock comparison of the one-hour branch holds exactly at the minute
   * OneHourBefore gives: the hour is taken back on the clock alone. SoonInTick
   * adds the date test.
   */
  lemma SoonAtOneHourBefore(apt: Appointment, now: int, clock: int)
    requires ParseDate(apt.date).Some? && ParseClock(apt.time) == Some(clock)
    ensures SoonTime(apt) == Some(ClockText(now)) <==> OneHourBefore(clock) == MinuteOf(now)
  {
    SoonTimeValue(apt, clock);
    if SoonTime(apt) == Some(ClockText(now)) {
      FormatTimeInjective(OneHourBefore(clock), MinuteOf(now));
    }
  }

  /** The printed time an hour before a readable appointment. */
  lemma SoonTimeValue(apt: Appointment, clock: int)
    requires ParseDate(apt.date).Some? && ParseClock(apt.time) == Some(clock)
    ensures SoonTime(apt) == Some(FormatTime(OneHourBefore(clock)))
  {
    var day := ParseDate(apt.date).value;
    InstantOfParts(apt, day, clock);
    OneHourBeforeInstant(day, clock);
    SoonTimeOfInstant(apt, MakeDate(day, clock * 60000), OneHourBefore(clock));
  }

  /** SoonTime prints the minute an hour before the instant. */
  lemma SoonTimeOfInstant(apt: Appointment, t: int, m: MinuteOfDay)
    requires Instant(apt) == Some(t) && MinuteOf(t - 3600000) == m
    ensures SoonTime(apt) == Some(FormatTime(m))
  {
  }

  /** The instant of an appointment from its read date and clock. */
  lemma InstantOfParts(apt: Appointment, day: int, clock: int)
    requires ParseDate(apt.date) == Some(day) && ParseClock(apt.time) == Some(clock)
    ensures Instant(apt) == Some(MakeDate(day, clock * 60000))
  {
    JoinedParts(apt.date, apt.time);
  }

  /**
   * For an appointment at 00:30 the clock comparison of the one-hour branch
   * holds at 23:30 only; with the date test, MidnightNoticeInTick places the
   * notice on the appointment's own date, 23 hours after it.
   */
  lemma MidnightReminderComesLate(apt: Appointment, now: int)
    requires ParseDate(apt.date).Some? && apt.time == "00:30"
    ensures SoonTime(apt) == Some(ClockText(now)) <==> MinuteOf(now) == 1410
  {
    Clock0030();
    HourBefore(30, 1410);
    SoonAtOneHourBefore(apt, now, 30);
  }

  /** The clock comparison of the one-hour branch for an appointment at `clock` holds exactly when the clock text is that of an hour earlier. */
  lemma SoonIffClockText(apt: Appointment, now: int, clock: int)
    requires ParseDate(apt.date).Some? && ParseClock(apt.time) == Some(clock)
    ensures SoonTime(apt) == Some(ClockText(now)) <==> ClockText(now) == FormatTime(OneHourBefore(clock))
  {
    SoonAtOneHourBefore(apt, now, clock);
    if ClockText(now) == FormatTime(OneHourBefore(clock)) {
      FormatTimeInjective(MinuteOf(now), OneHourBefore(clock));
    }
  }

  /** For an appointment at 15:00 the clock comparison of the one-hour branch holds at 14:00 (minute 840 of the day) only; AfternoonNoticeInTick adds the date test. */
  lemma AfternoonReminder(apt: Appointment, now: int)
    requires ParseDate(apt.date).Some? && apt.time == "15:00"
    ensures SoonTime(apt) == Some(ClockText(now)) <==> MinuteOf(now) == 840
  {
    Clock1500();
    HourBefore(900, 840);
    SoonAtOneHourBefore(apt, now, 900);
  }

  /**
   * In a granted check, the one-hour notice of a stored appointment read as
   * day d at minute `clock` is raised exactly on day d, at the minute an hour
   * before on the clock.
   */
  lemma SoonInTick(schedule: seq<MedicationScheduleItem>, logs: seq<MedLog>, apts: seq<Appointment>, now: int,
                   apt: Appointment, d: int, clock: int)
    requires apt in apts && ParseDate(apt.date) == Some(d) && ParseClock(apt.time) == Some(clock)
    ensures AppointmentSoon(apt) in Tick(Granted, schedule, logs, apts, now) <==>
      Day(now) == d && MinuteOf(now) == OneHourBefore(clock)
  {
    TickSoonIff(Granted, schedule, logs, apts, now, apt);
    SoonAtOneHourBefore(apt, now, clock);
    FormatDateIs(Day(now), apt.date, d);
  }

  /** A stored 15:00 appointment on day d is announced an hour ahead at 14:00 (minute 840) of day d, and at no other check. */
  lemma AfternoonNoticeInTick(schedule: seq<MedicationScheduleItem>, logs: seq<MedLog>, apts: seq<Appointment>, now: int,
                              apt: Appointment, d: int)
    requires apt in apts && ParseDate(apt.date) == Some(d) && apt.time == "15:00"
    ensures AppointmentSoon(apt) in Tick(Granted, schedule, logs, apts, now) <==> Day(now) == d && MinuteOf(now) == 840
  {
    Clock1500();
    HourBefore(900, 840);
    SoonInTick(schedule, logs, apts, now, apt, d, 900);
  }

  /**
   * A stored 00:30 appointment on day d is announced at 23:30 (minute 1410)
   * of day d itself, 23 hours after it, and never at 23:30 of the day before.
   */
  lemma MidnightNoticeInTick(schedule: seq<MedicationScheduleItem>, logs: seq<MedLog>, apts: seq<Appointment>, now: int,
                             apt: Appointment, d: int)
    requires apt in apts && ParseDate(apt.date) == Some(d) && apt.time == "00:30"
    ensures AppointmentSoon(apt) in Tick(Granted, schedule, logs, apts, now) <==> Day(now) == d && MinuteOf(now) == 1410
  {
    Clock0030();
    HourBefore(30, 1410);
    SoonInTick(schedule, logs, apts, now, apt, d, 30);
  }

  /** Pins OneHourBefore at one minute of the day. */
  lemma HourBefore(t: int, r: int)
    requires 0 <= t <= 1440 && 0 <= r < 1440 && (r + 60) % 1440 == t % 1440
    ensures OneHourBefore(t) == r
  {
  }

  lemma Clock0030()
    ensures ParseClock("00:30") == Some(30)
  {
    Text0030();
    ParseFormatTime(30);
  }

  lemma Text0030()
    ensures FormatTime(30) == "00:30"
  {
  }

  lemma Clock1500()
    ensures ParseClock("15:00") == Some(900)
  {
    Text1500();
    ParseFormatTime(900);
  }

  lemma Text1500()
    ensures FormatTime(900) == "15:00"
  {
  }

  /** Under unique ids, a check raises at most one reminder per medicine. */
  lemma {:induction false} OneReminderPerMedicine(schedule: seq<MedicationScheduleItem>, logs: seq<MedLog>, date: string, time: string)
    requires forall i, j :: 0 <= i < j < |schedule| ==> schedule[i].id != schedule[j].id
    ensures var r := MedReminders(schedule, logs, date, time);
      |r| <= |schedule| && (forall i :: 0 <= i < |r| ==> r[i].MedicationDue?) &&
      forall i, j :: 0 <= i < j < |r| ==> r[i].med.id != r[j].med.id
    decreases |schedule|
  {
    if schedule != [] {
      var init := schedule[..|schedule| - 1];
      var last := schedule[|schedule| - 1];
      OneReminderPerMedicine(init, logs, date, time);
      var r0 := MedReminders(init, logs, date, time);
      forall k | 0 <= k < |r0| ensures r0[k].med.id != last.id {
        MedRemindersMembers(init, logs, date, time, r0[k]);
        var m :| 0 <= m < |init| && init[m] == r0[k].med;
        assert schedule[m] == init[m];
      }
    }
  }

  /**
   * On a well-formed store, the grid shows a slot taken exactly when the
   * minute check counts that dose as already taken.
   */
  lemma GridAgreesWithReminder(logs: seq<MedLog>, slot: Slot)
    requires LogsValid(logs)
    ensures CellIsTaken(logs, slot) <==> AlreadyTaken(logs, slot.medScheduleId, slot.date, slot.time)
  {
    if AlreadyTaken(logs, slot.medScheduleId, slot.date, slot.time) {
      var i :| 0 <= i < |logs| && logs[i].medScheduleId == slot.medScheduleId && logs[i].date == slot.date &&
        logs[i].time == slot.time && logs[i].taken;
      assert logs[i].SlotOf() == slot;
    }
  }

  /** Ticking off a dose stops its reminder for that minute. */
  lemma ToggleSilencesReminder(logs: seq<MedLog>, med: MedicationScheduleItem, now: int, freshId: string, takenAt: string)
    requires FindLog(logs, Slot(med.id, TodayText(now), ClockText(now))).None?
    ensures var slot := Slot(med.id, TodayText(now), ClockText(now));
      MedReminder(med, Toggle(logs, slot, freshId, takenAt), TodayText(now), ClockText(now)) == []
  {
    var slot := Slot(med.id, TodayText(now), ClockText(now));
    var r := Toggle(logs, slot, freshId, takenAt);
    assert r[|logs|] == NewLog(slot, freshId, takenAt);
  }

  /** The medication loop of `checkNotifications`, at a date and "HH:mm". */
  method DueReminders(schedule: seq<MedicationScheduleItem>, logs: seq<MedLog>, currentDateStr: string, currentTime: string)
    returns (fired: seq<Notification>)
    ensures fired == MedReminders(schedule, logs, currentDateStr, currentTime)
  {
    fired := [];
    for k := 0 to |schedule|
      invariant fired == MedReminders(schedule[..k], logs, currentDateStr, currentTime)
    {
      var med := schedule[k];
      if currentTime in med.times {
        var alreadyTaken := AlreadyTaken(logs, med.id, currentDateStr, currentTime);
        if !alreadyTaken {
          fired := fired + [MedicationDue(med, currentTime)];
        }
      }
      assert schedule[..k + 1][..k] == schedule[..k];
    }
    assert schedule[..|schedule|] == schedule;
  }

  /** The appointment loop of `checkNotifications`, at a date and "HH:mm". */
  method DueAppointmentNotices(appointments: seq<Appointment>, currentDateStr: string, currentTime: string)
    returns (fired: seq<Notification>)
    ensures fired == AppointmentNotices(appointments, currentDateStr, currentTime)
  {
    fired := [];
    for k := 0 to |appointments|
      invariant fired == AppointmentNotices(appointments[..k], currentDateStr, currentTime)
    {
      var raised := NoticeFor(appointments[k], currentDateStr, currentTime);
      NoticesStep(appointments, k, currentDateStr, currentTime);
      fired := fired + raised;
    }
    assert appointments[..|appointments|] == appointments;
  }

  /** The body of the appointment loop for one appointment. */
  method NoticeFor(apt: Appointment, currentDateStr: string, currentTime: string) returns (raised: seq<Notification>)
    ensures raised == AppointmentNotice(apt, currentDateStr, currentTime)
  {
    raised := [];
    if apt.date == currentDateStr {
      if apt.time == currentTime {
        raised := raised + [AppointmentNow(apt)];
      }
      var oneHourBeforeTime := SoonTime(apt);
      if oneHourBeforeTime == Some(currentTime) {
        raised := raised + [AppointmentSoon(apt)];
      }
    }
  }

  // The component

  /** App's state cells; `schedule` is the fixed catalog. */
  class GiCare {
    const schedule: seq<MedicationScheduleItem>
    var logs: seq<MedLog>
    var inventory: seq<InventoryItem>
    var appointments: seq<Appointment>
    var notificationPermission: Permission

    /** The store's shape, which every handler keeps. */
    predicate Valid()
      reads this
    {
      LogsValid(logs)
    }

    /** The `useState` initial values, before anything is read from storage. */
    constructor(catalog: seq<MedicationScheduleItem>, initialInventory: seq<InventoryItem>)
      ensures schedule == catalog && logs == [] && inventory == initialInventory && appointments == []
      ensures notificationPermission == Default
      ensures Valid()
    {
      schedule := catalog;
      logs := [];
      inventory := initialInventory;
      appointments := [];
      notificationPermission := Default;
    }

    /** `setNotificationPermission`, with what the browser reports or grants. */
    method SetNotificationPermission(p: Permission)
      modifies this
      ensures notificationPermission == p
      ensures logs == old(logs) && inventory == old(inventory) && appointments == old(appointments)
    {
      notificationPermission := p;
    }

    /** `handleToggleMed`, with the id `crypto.randomUUID()` and the ISO time `new Date()` would give. */
    method ToggleMed(scheduleId: string, date: string, time: string, freshId: string, takenAt: string)
      modifies this
      ensures logs == Toggle(old(logs), Slot(scheduleId, date, time), freshId, takenAt)
      ensures inventory == old(inventory) && appointments == old(appointments)
      ensures notificationPermission == old(notificationPermission)
      ensures old(Valid()) ==> Valid()
    {
      var slot := Slot(scheduleId, date, time);
      if old(Valid()) {
        ToggleKeepsValid(logs, slot, freshId, takenAt);
      }
      var exists_ := FindLog(logs, slot);
      match exists_ {
        case Some(i) => logs := logs[..i] + logs[i + 1..];
        case None => logs := logs + [NewLog(slot, freshId, takenAt)];
      }
    }

    /** `handleUpdateInventory`. */
    method UpdateInventory(id: string, newQty: int)
      modifies this
      ensures inventory == UpdateQuantity(old(inventory), id, newQty)
      ensures logs == old(logs) && appointments == old(appointments)
      ensures notificationPermission == old(notificationPermission)
    {
      inventory := UpdateQuantity(inventory, id, newQty);
    }

    /** `handleAddAppointment`. */
    method AddAppointment(apt: Appointment)
      modifies this
      ensures appointments == WithAppointment(old(appointments), apt)
      ensures logs == old(logs) && inventory == old(inventory)
      ensures notificationPermission == old(notificationPermission)
    {
      appointments := appointments + [apt];
    }

    /** `handleDeleteAppointment`. */
    method DeleteAppointment(id: string)
      modifies this
      ensures appointments == WithoutAppointment(old(appointments), id)
      ensures logs == old(logs) && inventory == old(inventory)
      ensures notificationPermission == old(notificationPermission)
    {
      appointments := WithoutAppointment(appointments, id);
    }

    /**
     * `checkNotifications` at time value `now`: the notifications it raises,
     * in the order it raises them. It changes no state.
     */
    method CheckNotifications(now: int) returns (fired: seq<Notification>)
      ensures fired == Tick(notificationPermission, schedule, logs, appointments, now)
    {
      fired := [];
      if notificationPermission != Granted {
        return;
      }
      var currentTime := ClockText(now);
      var currentDateStr := TodayText(now);
      var reminders := DueReminders(schedule, logs, currentDateStr, currentTime);
      var notices := DueAppointmentNotices(appointments, currentDateStr, currentTime);
      fired := reminders + notices;
    }

    /**
     * The form's submit wired to `onAddAppointment`: the form's state
     * changes as one submission does, and the appointment it produces, if
     * any, is appended to the store.
     */
    method SubmitAppointment(form: AppointmentForm, outcome: ServiceOutcome, freshId: string)
      modifies this, form
      ensures form.State() == Submit(old(form.State()), outcome, freshId).state
      ensures var added := Submit(old(form.State()), outcome, freshId).added;
        appointments == if added.Some? then WithAppointment(old(appointments), added.value) else old(appointments)
      ensures logs == old(logs) && inventory == old(inventory)
      ensures notificationPermission == old(notificationPermission)
    {
      ghost var began := StartSubmit(form.State());
      var request := form.BeginSubmit();
      if request.Some? {
        ghost var finished := SettleSubmit(began.state, outcome, freshId);
        var added := form.FinishSubmit(outcome, freshId);
        assert form.State() == finished.state && added == finished.added;
        if added.Some? {
          AddAppointment(added.value);
        }
      }
    }
  }
}
