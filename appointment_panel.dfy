/**
 * components/AppointmentPanel.tsx: the list of this week's appointments,
 * sorted by date and time, and the form that turns a sentence into an
 * appointment through the extractor service.
 */
module AppointmentPanel {
  import opened Types
  import opened Text
  import opened Calendar
  import opened Dates
  import opened MedicationGrid
  import opened GeminiService

  // The current-week list

  /** `new Date(apt.date + 'T' + apt.time)`: the appointment's time value, if it is a valid date. */
  function Instant(apt: Appointment): Option<int> {
    ParseDateTime(apt.date + "T" + apt.time)
  }

  predicate Timed(apt: Appointment) {
    Instant(apt).Some?
  }

  /** The time value of an appointment, the sort key; only appointments with a valid date are sorted. */
  function Key(apt: Appointment): int {
    match Instant(apt)
      case Some(t) => t
      case None => 0
  }

  /** Monday 00:00:00.000 of the week of `day`. */
  function WeekStart(day: int): int {
    MakeDate(StartOfWeek(day), 0)
  }

  /** Sunday 23:59:59.999 of the week of `day`. */
  function WeekEnd(day: int): int {
    MakeDate(StartOfWeek(day) + 6, MakeTime(23, 59, 59, 999))
  }

  /**
   * The filter's test: a valid date between the two bounds, both included;
   * an invalid date compares false with both.
   */
  predicate InWindow(apt: Appointment, lo: int, hi: int) {
    match Instant(apt)
      case Some(t) => lo <= t <= hi
      case None => false
  }

  /** `appointments.filter(...)`: the appointments in the window, in their order. */
  function FilterWindow(apts: seq<Appointment>, lo: int, hi: int): (r: seq<Appointment>)
    ensures forall i :: 0 <= i < |r| ==> Timed(r[i])
  {
    if apts == [] then []
    else if InWindow(apts[0], lo, hi) then [apts[0]] + FilterWindow(apts[1..], lo, hi)
    else FilterWindow(apts[1..], lo, hi)
  }

  predicate AllTimed(s: seq<Appointment>) {
    forall i :: 0 <= i < |s| ==> Timed(s[i])
  }

  predicate SortedBy(s: seq<Appointment>, key: Appointment -> int) {
    forall i, j :: 0 <= i < j < |s| ==> key(s[i]) <= key(s[j])
  }

  /** Puts `a` in front of the first element that does not come before it. */
  function Insert(a: Appointment, s: seq<Appointment>, key: Appointment -> int): (r: seq<Appointment>)
    requires SortedBy(s, key)
    ensures SortedBy(r, key)
    ensures multiset(r) == multiset(s) + multiset{a}
    ensures r != [] && (r[0] == a || (s != [] && r[0] == s[0]))
  {
    if s == [] || key(a) <= key(s[0]) then [a] + s
    else
      var rest := Insert(a, s[1..], key);
      assert s == [s[0]] + s[1..];
      assert rest[0] == a || rest[0] == s[1];
      SortedCons(s[0], rest, key);
      assert multiset([s[0]] + rest) == multiset{s[0]} + multiset(rest);
      [s[0]] + rest
  }

  /** A sorted sequence stays sorted behind an element that does not come after its head. */
  lemma SortedCons(x: Appointment, rest: seq<Appointment>, key: Appointment -> int)
    requires SortedBy(rest, key) && (rest != [] ==> key(x) <= key(rest[0]))
    ensures SortedBy([x] + rest, key)
  {
    var r := [x] + rest;
    forall i, j | 0 <= i < j < |r| ensures key(r[i]) <= key(r[j]) {
      if i == 0 && j > 1 {
        assert key(rest[0]) <= key(rest[j - 1]);
      }
    }
  }

  /**
   * `.sort((a, b) => time(a) - time(b))`, an insertion sort: ascending by
   * the key; elements with equal keys keep their order.
   */
  function SortBy(s: seq<Appointment>, key: Appointment -> int): (r: seq<Appointment>)
    ensures SortedBy(r, key)
    ensures multiset(r) == multiset(s)
  {
    if s == [] then []
    else
      assert s == [s[0]] + s[1..];
      Insert(s[0], SortBy(s[1..], key), key)
  }

  /** `currentWeekAppointments` for the bounds it computes. */
  function WeekView(apts: seq<Appointment>, lo: int, hi: int): seq<Appointment> {
    SortBy(FilterWindow(apts, lo, hi), Key)
  }

  /**
   * The memo's body: copies of today moved to Monday 00:00:00.000 and to
   * the Sunday after at 23:59:59.999, then the filter and the sort. Today's
   * date and the list are left as they were.
   */
  method CurrentWeekAppointments(appointments: seq<Appointment>, today: JsDate) returns (r: seq<Appointment>)
    ensures r == WeekView(appointments, WeekStart(Day(today.time)), WeekEnd(Day(today.time)))
  {
    ghost var day := Day(today.time);
    var startOfWeek := StartOfCurrentWeek(today);
    var endOfWeek := EndOfWeek(startOfWeek, day);
    r := WeekView(appointments, startOfWeek.time, endOfWeek.time);
  }

  /** `startOfWeek`: a copy of today moved to Monday with `setDate`, then to midnight with `setHours(0, 0, 0, 0)`. */
  method StartOfCurrentWeek(today: JsDate) returns (startOfWeek: JsDate)
    ensures fresh(startOfWeek)
    ensures startOfWeek.time == WeekStart(Day(today.time))
  {
    ghost var monday := StartOfWeek(Day(today.time));
    var currentDay := today.GetDay();
    var diffToMonday := today.GetDate() - currentDay + (if currentDay == 0 then -6 else 1);
    startOfWeek := new JsDate.Copy(today);
    var _ := startOfWeek.SetDate(diffToMonday);
    var _ := startOfWeek.SetHours(0, 0, 0, 0);
    WeekBound(startOfWeek.time, monday, 0);
  }

  /** `endOfWeek`: a copy of the start moved six days on with `setDate`, then to `setHours(23, 59, 59, 999)`. */
  method EndOfWeek(startOfWeek: JsDate, ghost day: int) returns (endOfWeek: JsDate)
    requires startOfWeek.time == WeekStart(day)
    ensures fresh(endOfWeek)
    ensures endOfWeek.time == WeekEnd(day)
  {
    ghost var monday := StartOfWeek(day);
    DayOfMakeDate(monday, 0);
    endOfWeek := new JsDate.Copy(startOfWeek);
    var _ := endOfWeek.SetDate(startOfWeek.GetDate() + 6);
    var _ := endOfWeek.SetHours(23, 59, 59, 999);
    WeekBound(endOfWeek.time, monday + 6, MakeTime(23, 59, 59, 999));
  }

  lemma WeekBound(t: int, day: int, ms: int)
    requires 0 <= ms < MsPerDay && Day(t) == day && TimeWithinDay(t) == ms
    ensures t == MakeDate(day, ms)
  {
  }

  lemma {:induction false} FilterWindowCounts(apts: seq<Appointment>, lo: int, hi: int, a: Appointment)
    ensures multiset(FilterWindow(apts, lo, hi))[a] == if InWindow(a, lo, hi) then multiset(apts)[a] else 0
  {
    if apts != [] {
      FilterWindowCounts(apts[1..], lo, hi, a);
      assert apts == [apts[0]] + apts[1..];
    }
  }

  /**
   * The week list holds each appointment whose date and time lie in the
   * window as often as the store does, and nothing else: a reordering of
   * the filtered store.
   */
  lemma WeekViewCounts(apts: seq<Appointment>, lo: int, hi: int, a: Appointment)
    ensures multiset(WeekView(apts, lo, hi))[a] == if InWindow(a, lo, hi) then multiset(apts)[a] else 0
  {
    FilterWindowCounts(apts, lo, hi, a);
  }

  /** An appointment is listed iff it is in the store and its date-time lies in the window. */
  lemma WeekViewMembers(apts: seq<Appointment>, lo: int, hi: int, a: Appointment)
    ensures a in WeekView(apts, lo, hi) <==> a in apts && InWindow(a, lo, hi)
  {
    WeekViewCounts(apts, lo, hi, a);
    assert a in WeekView(apts, lo, hi) <==> a in multiset(WeekView(apts, lo, hi));
    assert a in apts <==> a in multiset(apts);
  }

  /** The list is in ascending order of date and time. */
  lemma WeekViewSorted(apts: seq<Appointment>, lo: int, hi: int)
    ensures AllTimed(WeekView(apts, lo, hi))
    ensures forall i, j :: 0 <= i < j < |WeekView(apts, lo, hi)| ==>
      Instant(WeekView(apts, lo, hi)[i]).value <= Instant(WeekView(apts, lo, hi)[j]).value
  {
    var f := FilterWindow(apts, lo, hi);
    var r := WeekView(apts, lo, hi);
    forall i | 0 <= i < |r| ensures Timed(r[i]) {
      assert r[i] in multiset(f);
    }
  }

  /**
   * The window of the week of `day` holds exactly the instants whose day is
   * one of the seven days Monday to Sunday of that week.
   */
  lemma WindowIsWeek(day: int, t: int)
    ensures WeekStart(day) <= t <= WeekEnd(day) <==> StartOfWeek(day) <= Day(t) <= StartOfWeek(day) + 6
  {
    var s := StartOfWeek(day);
    var d := Day(t);
    assert t == MakeDate(d, TimeWithinDay(t));
    if d < s {
      assert t < MakeDate(s, 0);
    }
    if d > s + 6 {
      assert t >= MakeDate(s + 7, 0);
    }
  }

  /** An appointment is listed this week iff it falls on a day from this week's Monday to Sunday. */
  lemma InWindowIffWeekDay(apt: Appointment, day: int)
    ensures InWindow(apt, WeekStart(day), WeekEnd(day)) <==>
      Timed(apt) && Day(Key(apt)) in WeekDayNumbers(day)
  {
    if Timed(apt) {
      WindowIsWeek(day, Key(apt));
      var s := StartOfWeek(day);
      if s <= Day(Key(apt)) <= s + 6 {
        assert WeekDayNumbers(day)[Day(Key(apt)) - s] == Day(Key(apt));
      }
    }
  }

  // The extractor form

  /** The form's state cells: `inputText`, `isProcessing`, `errorMsg`. */
  datatype FormState = FormState(inputText: string, isProcessing: bool, errorMsg: string)

  const NotUnderstood: string := "N\U{E3}o entendi muito bem. Tente: \"Neuro na ter\U{E7}a \U{E0}s 14h\"."
  const ConnectionError: string := "Erro ao processar. Verifique sua conex\U{E3}o."

  /** What `handleAISubmit` does up to the `await`: the new state and the text sent to the extractor, if any. */
  datatype Began = Began(state: FormState, request: Option<string>)

  /** What it does once the extractor settles: the new state and the appointment handed to the app, if any. */
  datatype Finished = Finished(state: FormState, added: Option<Appointment>)

  /**
   * Blank input (only white space) returns at once; otherwise the form
   * goes busy, clears the message, and sends the text as typed.
   */
  function StartSubmit(s: FormState): Began {
    if Trim(s.inputText) == [] then Began(s, None)
    else Began(s.(isProcessing := true, errorMsg := []), Some(s.inputText))
  }

  /**
   * A result adds an appointment with a new id and clears the input; a
   * null result or a rejection sets its message; the form is idle again
   * on every path.
   */
  function SettleSubmit(s: FormState, outcome: ServiceOutcome, freshId: string): Finished {
    match outcome
      case Resolved(Some(p)) =>
        Finished(s.(inputText := [], isProcessing := false),
                 Some(Appointment(freshId, p.title, p.date, p.time, Some(p.location), None)))
      case Resolved(None) => Finished(s.(errorMsg := NotUnderstood, isProcessing := false), None)
      case Rejected => Finished(s.(errorMsg := ConnectionError, isProcessing := false), None)
  }

  /** One whole submission: the start, then, if a request went out, the end. */
  function Submit(s: FormState, outcome: ServiceOutcome, freshId: string): Finished {
    var b := StartSubmit(s);
    if b.request.None? then Finished(b.state, None) else SettleSubmit(b.state, outcome, freshId)
  }

  /** Blank input changes nothing and calls nothing; any other input is sent exactly as typed. */
  lemma BlankInputIgnored(s: FormState)
    ensures StartSubmit(s).request.None? <==> AllWhiteSpace(s.inputText)
    ensures StartSubmit(s).request.None? ==> StartSubmit(s).state == s
    ensures StartSubmit(s).request.Some? ==> StartSubmit(s).request.value == s.inputText
  {
    var t := Trim(s.inputText);
    var i, j :| 0 <= i <= j <= |s.inputText| && t == s.inputText[i..j] &&
      AllWhiteSpace(s.inputText[..i]) && AllWhiteSpace(s.inputText[j..]);
    if t == [] {
      assert s.inputText == s.inputText[..i] + s.inputText[j..];
    }
  }

  /** While the extractor works the form is busy with no message, and the text is kept. */
  lemma PendingState(s: FormState)
    requires StartSubmit(s).request.Some?
    ensures StartSubmit(s).state == FormState(s.inputText, true, [])
  {
  }

  /**
   * The three ways the extractor settles: a value gives exactly one new
   * appointment with its fields under the fresh id and an empty input; null
   * and a rejection add nothing and show their messages. The form is idle
   * afterwards in every case.
   */
  lemma FinishOutcomes(s: FormState, outcome: ServiceOutcome, freshId: string)
    ensures !SettleSubmit(s, outcome, freshId).state.isProcessing
    ensures SettleSubmit(s, outcome, freshId).added.Some? <==> outcome.Resolved? && outcome.result.Some?
    ensures outcome.Resolved? && outcome.result.Some? ==>
      var p := outcome.result.value;
      SettleSubmit(s, outcome, freshId) ==
        Finished(FormState([], false, s.errorMsg), Some(Appointment(freshId, p.title, p.date, p.time, Some(p.location), None)))
    ensures outcome == Resolved(None) ==> SettleSubmit(s, outcome, freshId) == Finished(FormState(s.inputText, false, NotUnderstood), None)
    ensures outcome == Rejected ==> SettleSubmit(s, outcome, freshId) == Finished(FormState(s.inputText, false, ConnectionError), None)
  {
  }

  /** Starting from an idle form, a submission leaves it idle whatever happens. */
  lemma SubmitEndsIdle(s: FormState, outcome: ServiceOutcome, freshId: string)
    requires !s.isProcessing
    ensures !Submit(s, outcome, freshId).state.isProcessing
  {
  }

  /** The form as the component keeps it: three state cells overwritten by the handlers. */
  class AppointmentForm {
    var inputText: string
    var isProcessing: bool
    var errorMsg: string

    function State(): FormState
      reads this
    {
      FormState(inputText, isProcessing, errorMsg)
    }

    /** The three `useState` initial values. */
    constructor()
      ensures State() == FormState([], false, [])
    {
      inputText, isProcessing, errorMsg := [], false, [];
    }

    /** The input's `onChange`; the input is disabled while a request is pending. */
    method Type(text: string)
      requires !isProcessing
      modifies this
      ensures State() == old(State()).(inputText := text)
    {
      inputText := text;
    }

    /** `handleAISubmit` up to the `await`. */
    method BeginSubmit() returns (request: Option<string>)
      modifies this
      ensures State() == StartSubmit(old(State())).state
      ensures request == StartSubmit(old(State())).request
    {
      ghost var began := StartSubmit(State());
      if Trim(inputText) == [] {
        request := None;
        assert began == Began(State(), None);
        return;
      }
      isProcessing := true;
      errorMsg := [];
      request := Some(inputText);
      assert began == Began(State(), request);
    }

    /** `handleAISubmit` after the `await`, with how the extractor settled and the id `crypto.randomUUID()` gave. */
    method FinishSubmit(outcome: ServiceOutcome, freshId: string) returns (added: Option<Appointment>)
      modifies this
      ensures State() == SettleSubmit(old(State()), outcome, freshId).state
      ensures added == SettleSubmit(old(State()), outcome, freshId).added
    {
      added := None;
      match outcome {
        case Resolved(Some(p)) =>
          added := Some(Appointment(freshId, p.title, p.date, p.time, Some(p.location), None));
          inputText := [];
        case Resolved(None) =>
          errorMsg := NotUnderstood;
        case Rejected =>
          errorMsg := ConnectionError;
      }
      isProcessing := false;
    }
  }
}
