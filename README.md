# GiCare core in Dafny

GiCare is a small browser app for a patient's medication and appointments.
It has a weekly grid of dose slots to tick off, a medicine inventory with
+/- buttons and a low-stock alert, and a week view of appointments. Appointments
can be typed in plain language and read by a language model. Once a minute it
raises notifications for due doses and for appointments that are now or one
hour away.

This project models the logic under that UI and proves its properties:

- `Types` (types.dfy): the records of `types.ts` as datatypes.
- `App` (app.dfy): the app's state cells as the class `GiCare`.
  - Its handlers are methods, each specified by a pure updater: `Toggle`, `UpdateQuantity`, `WithAppointment` and `WithoutAppointment`.
  - One run of the minute check is the function `Tick`. The looping method `GiCare.CheckNotifications` is proved equal to it.
- `MedicationGrid` (medication_grid.dfy): the Monday-start week, built with the mutable `Date` the source uses; the "taken" lookup of a cell; the cells and the toggles they dispatch.
- `AppointmentPanel` (appointment_panel.dfy): the current-week filter and sort over `Date` objects; the submit handler as a state machine.
  - The state machine is written twice: as the pure steps `StartSubmit`/`SettleSubmit`, and as the class `AppointmentForm`, whose methods are specified by those steps.
- `InventoryPanel` (inventory_panel.dfy): the low-stock rule and the quantities the buttons request.
- `GeminiService` (gemini_service.dfy): the code-fence cleanup of the model's reply, and how the service call settles. The network call, the client and `JSON.parse` are parameters.
- `Calendar` (calendar.dfy): the ECMAScript time-value arithmetic. It covers:
  - day numbers, week days, and the civil (Gregorian) date of a day;
  - printing dates as `YYYY-MM-DD` and clock times as `HH:mm`, with the parsers for both;
  - reading the local date-time form `YYYY-MM-DDTHH:mm`.
- `Dates` (dates.dfy): the JS `Date` object as the class `JsDate`, with `getDay`, `getDate`, `setDate` and `setHours`.
- `Text` (text.dfy): the string operations the cleanup uses. `trim` strips ECMAScript white space; `RemoveAll` is a global literal replace with "".

Conventions of the model:
- Local time is UTC, so `toISOString` and the `pt-BR` clock agree.
- The current instant and every fresh id are parameters.
- Dates and times are kept as strings, as the stores keep them.
- Day numbers count from 1970-01-01. Time values are milliseconds.

Where the code's behaviour differs from a natural reading of the app's design, the model follows the code:
- The toggle matches a log by its slot alone, whatever its `taken` (App.tsx:121). The grid and the reminder check `taken`.
- Toggling twice is the identity only from an empty slot. From a ticked slot, the log comes back at the end of the store with a new id and time (`App.ToggleTwiceFromPresent`).
- `handleUpdateInventory` stores any quantity. The clamp at 0 is only in the "-" button.
- The reply's fields are never checked: any truthy decoded value becomes an appointment. The model decodes a reply to a record of four strings only; see "## Left out" for the other shapes.
- The service can reject, because the client is built outside its `try`. The form then shows the connection message; every other failure shows "Não entendi...".
- The one-hour notice compares clock readings only. For an appointment at 00:30, the clock reads 23:30 one hour before — but on the previous day, whose date fails the date test. So the notice comes at 23:30 of the appointment's own day, 23 hours after it (`App.MidnightNoticeInTick`).

## Model

| member | source | states |
|---|---|---|
| App.LogsValid | App.tsx:119-137 | the shape of the log store the toggle builds: every log taken, at most one per slot; kept by ToggleKeepsValid |
| App.Toggle | App.tsx:119-137 | `handleToggleMed`'s updater; specified by the lemmas below |
| App.ToggleAbsent | App.tsx:125-135 | on a slot without a log, a toggle appends exactly one log: it has the slot, `taken`, and the fresh id; every earlier log is kept, in place |
| App.TogglePresent | App.tsx:121-124 | on a slot with logs, a toggle removes the first log of that slot only; the logs before it keep their place, the rest shift down by one, and the multiset loses just that log |
| App.ToggleTwiceFromAbsent | App.tsx:119-137 | toggling a slot without a log twice gives the original store |
| App.ToggleTwiceFromPresent | App.tsx:119-137 | on a well-formed store, toggling a slot with a log twice leaves the store without that log and with a new log for the slot at the end, carrying the second id |
| App.ToggleKeepsValid | App.tsx:121-135 | toggling preserves "every log taken" and "at most one log per slot" |
| App.ToggleFlipsCell | App.tsx:119-137 | on a well-formed store, the toggled cell's "taken" reading flips |
| App.ToggleLeavesOtherSlots | App.tsx:121-135 | the logs of every other slot keep their count, and every other cell its reading |
| App.UpdateQuantity | App.tsx:140-142 | the inventory keeps its length |
| App.UpdateQuantityChangesOnlyQuantity | App.tsx:141 | per position: the id, name, minimum and unit are unchanged; the quantity is the new one exactly when the id matches, else unchanged |
| App.UpdateQuantityTwice | App.tsx:141 | storing a quantity twice is storing the second one |
| App.DecrementClickStoresClamped | components/InventoryPanel.tsx:39 | the "-" click stores a non-negative quantity, one lower when the stock was at least 1 |
| App.IncrementThenDecrementRestores | components/InventoryPanel.tsx:39-51 | "+" then "-" on an item with a non-negative quantity gives the inventory back, when the items sharing its id agree on the quantity (the update writes the card's value into every item with that id) |
| App.WithAppointment | App.tsx:144-146 | `handleAddAppointment`'s updater, appending; specified by DeleteUndoesAdd and GiCare.AddAppointment |
| App.WithoutAppointment | App.tsx:148-150 | deleting never lengthens the list |
| App.DeleteDistributes | App.tsx:149 | deleting works piecewise over a concatenation, so the kept appointments stay in their order |
| App.DeleteCounts | App.tsx:149 | an appointment with the id occurs 0 times after deletion; any other occurs as often as before |
| App.DeleteAbsent | App.tsx:149 | deleting an id no appointment has is a no-op |
| App.DeleteIdempotent | App.tsx:149 | deleting twice is deleting once |
| App.DeleteUndoesAdd | App.tsx:144-150 | adding appends one appointment; deleting its id, if it is new, gives the list back |
| App.MedReminders | App.tsx:69-82 | the medication loop's reminders, in catalog order; specified by MedRemindersMembers and OneReminderPerMedicine, and computed by DueReminders |
| App.SoonTime | App.tsx:96-98 | the clock text of the appointment's instant less one hour, if the instant reads; specified by SoonAtOneHourBefore and SoonIffClockText |
| App.AppointmentNotices | App.tsx:85-107 | the appointment loop's notices, in list order; specified by AppointmentNoticesMembers and computed by DueAppointmentNotices |
| App.Tick | App.tsx:60-108 | one run of `checkNotifications`; specified by SilentUnlessGranted and the Tick*Iff and *InTick lemmas, and computed by GiCare.CheckNotifications |
| App.MedRemindersMembers | App.tsx:69-82 | a notification is among the dose reminders iff it names a scheduled medicine whose times hold the clock time and whose slot today has no taken log |
| App.AppointmentNoticesMembers | App.tsx:85-107 | a notice is raised iff the appointment is dated today and either its time is the clock time ("now") or its time less an hour reads as the clock ("in an hour") |
| App.SilentUnlessGranted | App.tsx:61 | nothing is raised unless permission is granted |
| App.TickMedicationIff | App.tsx:61-82 | a dose reminder for med at time t iff granted, med scheduled, t is the clock's HH:mm, t in med.times, and no taken log for (med.id, today, t) |
| App.TickNowIff | App.tsx:85-93 | "now" for an appointment iff granted, it is stored, dated today and timed at the clock's HH:mm |
| App.TickSoonIff | App.tsx:95-105 | "in an hour" iff granted, stored, dated today, and its instant less one hour reads as the clock's HH:mm |
| App.JoinedParts | App.tsx:96 | `date + 'T' + time` with a ten-character date parses as its date and clock parts |
| App.SoonAtOneHourBefore | App.tsx:96-100 | for a readable date and time, the one-hour branch's clock comparison holds exactly when the clock minute is the time less 60 minutes modulo 24 hours (the date test is separate) |
| App.AfternoonReminder | App.tsx:96-100 | for a 15:00 appointment, the one-hour branch's clock comparison holds exactly at 14:00 (minute 840) |
| App.SoonIffClockText | App.tsx:96-100 | for a readable date and time, the one-hour branch's clock comparison holds exactly when the clock text equals the printed time an hour earlier |
| App.MidnightReminderComesLate | App.tsx:96-100 | for a 00:30 appointment, the one-hour branch's clock comparison holds exactly at 23:30 (minute 1410) |
| App.SoonInTick | App.tsx:86-105 | in a granted check, a stored appointment read as day d at minute c raises "in an hour" exactly on day d at the minute an hour before c on the clock |
| App.AfternoonNoticeInTick | App.tsx:86-105 | in a granted check, a stored 15:00 appointment on day d raises "in an hour" exactly at 14:00 of day d |
| App.MidnightNoticeInTick | App.tsx:86-105 | in a granted check, a stored 00:30 appointment on day d raises "in an hour" exactly at 23:30 of day d itself, 23 hours after it, and never on the evening before |
| App.OneReminderPerMedicine | App.tsx:69-82 | with distinct medicine ids, a check raises dose reminders only, at most one per medicine |
| App.GridAgreesWithReminder | App.tsx:71-73 | on a well-formed store, the grid shows a slot taken (components/MedicationGrid.tsx:129-130) exactly when the minute check counts that dose as already taken |
| App.ToggleSilencesReminder | App.tsx:70-75 | after the current slot of a medicine is ticked off, that medicine raises no reminder at that minute |
| App.DueReminders | App.tsx:69-82 | the medication loop yields exactly the reminders of `MedReminders` |
| App.NoticeMembers | App.tsx:86-105 | one appointment raises "now" iff it is dated today at the clock time, and "in an hour" iff it is dated today and its time less an hour reads as the clock |
| App.NoticeFor | App.tsx:86-105 | the branches for one appointment raise exactly the notices of `AppointmentNotice` |
| App.DueAppointmentNotices | App.tsx:85-107 | the appointment loop yields exactly the notices of `AppointmentNotices` |
| App.GiCare.constructor | App.tsx:9-13 | no logs and no appointments; the given inventory; permission "default"; a well-formed store |
| App.GiCare.SetNotificationPermission | App.tsx:26 | the permission becomes the given one; the stores are unchanged |
| App.GiCare.ToggleMed | App.tsx:119-138 | the logs become `Toggle` of the old logs; nothing else changes; a well-formed store stays well-formed |
| App.GiCare.UpdateInventory | App.tsx:140-142 | the inventory becomes `UpdateQuantity` of the old one; nothing else changes |
| App.GiCare.AddAppointment | App.tsx:144-146 | the appointments gain the new one at the end; nothing else changes |
| App.GiCare.DeleteAppointment | App.tsx:148-150 | the appointments become `WithoutAppointment` of the old list; nothing else changes |
| App.GiCare.CheckNotifications | App.tsx:60-108 | returns `Tick` of the current state and changes no state |
| App.GiCare.SubmitAppointment | components/AppointmentPanel.tsx:37-66 | the form's state changes as one `Submit` does; the appointment it produces, if any, is appended to the store |
| MedicationGrid.StartOfWeek | components/MedicationGrid.tsx:15-17 | the day `getStartOfWeek` moves to; specified by StartOfWeekIsMonday, SundayEndsItsWeek and StartOfWeekUnique |
| MedicationGrid.StartOfWeekIsMonday | components/MedicationGrid.tsx:16 | the start of the week is a Monday; the day lies in start..start+6; the start is `d - ((weekday(d) + 6) % 7)` |
| MedicationGrid.SundayEndsItsWeek | components/MedicationGrid.tsx:16 | a Sunday maps to the Monday six days earlier |
| MedicationGrid.StartOfWeekUnique | components/MedicationGrid.tsx:16 | s is the start of the week of day iff s is a Monday and s <= day <= s + 6 |
| MedicationGrid.WeekSharesStart | components/MedicationGrid.tsx:16 | each of the seven days has the same start of week, and the last is a Sunday |
| MedicationGrid.GetStartOfWeek | components/MedicationGrid.tsx:13-18 | returns a new Date on the start of the week, at the argument's time of day; the argument is untouched |
| MedicationGrid.WeekDayNumbers | components/MedicationGrid.tsx:29-33 | the week has seven days |
| MedicationGrid.WeekDays | components/MedicationGrid.tsx:26-35 | the loop yields seven Dates, day i on start + i, each at the reference's time of day |
| MedicationGrid.MovedCopy | components/MedicationGrid.tsx:30-31 | a new Date on the start's day moved by `start.getDate() + i` days of its month, at the start's time of day |
| MedicationGrid.WeekDayNumbersShape | components/MedicationGrid.tsx:29-33 | the reference day is in its week; the first day is a Monday, the last a Sunday; consecutive days differ by one |
| MedicationGrid.WeekIsStable | components/MedicationGrid.tsx:16-33 | any day of a week has that same week |
| MedicationGrid.WeekAcrossYearEnd | components/MedicationGrid.tsx:16-33 | 2024-12-31 is a Tuesday, and its week runs from 2024-12-30 to 2025-01-05 |
| MedicationGrid.FindLog | components/MedicationGrid.tsx:68 | the index of the first log of the slot; none iff no log has the slot |
| MedicationGrid.CellIsTaken | components/MedicationGrid.tsx:129-130 | `!!logEntry?.taken`; specified by CellIsTakenIff and App.GridAgreesWithReminder |
| MedicationGrid.CellIsTakenIff | components/MedicationGrid.tsx:68-69 | a cell reads "taken" iff the first log of its slot exists and is taken |
| MedicationGrid.DayCells | components/MedicationGrid.tsx:127-130 | one cell per date |
| MedicationGrid.WeekDates | components/MedicationGrid.tsx:127-128 | seven date strings |
| MedicationGrid.DayCellsMembers | components/MedicationGrid.tsx:127-135 | a cell of a row iff its slot has that medicine and time and one of the dates, and it shows the slot's lookup |
| MedicationGrid.TimeCellsMembers | components/MedicationGrid.tsx:113-135 | a cell of a medicine iff its time is one of the medicine's times and its date one of the dates |
| MedicationGrid.TimeCells | components/MedicationGrid.tsx:113-135 | the rows of one medicine; specified by TimeCellsMembers |
| MedicationGrid.GridCells | components/MedicationGrid.tsx:111-135 | the table body; specified by GridCellsMembers and GridCoversWeek |
| MedicationGrid.GridCellsMembers | components/MedicationGrid.tsx:111-135 | a cell of the grid iff its slot is a scheduled medicine, one of its times, and one of the dates; it shows the slot's lookup |
| MedicationGrid.GridCoversWeek | components/MedicationGrid.tsx:111-135 | each scheduled time of each medicine has a cell on each of the seven week dates |
| InventoryPanel.IsLow | components/InventoryPanel.tsx:20 | `isLow`; specified by Cards and LowStaysLow |
| InventoryPanel.Card | components/InventoryPanel.tsx:19-56 | one card; specified by Cards |
| InventoryPanel.DecrementRequest | components/InventoryPanel.tsx:39 | the "-" request is never negative, and never above a non-negative stock |
| InventoryPanel.IncrementRequest | components/InventoryPanel.tsx:51 | the "+" request is above the stock |
| InventoryPanel.Cards | components/InventoryPanel.tsx:19-56 | one card per item, in order, with the item's id; the alert is on iff quantity <= minimum; "-" asks max(0, q-1); "+" asks q+1 |
| InventoryPanel.DecrementAtZero | components/InventoryPanel.tsx:39 | at 0 the "-" request stays 0 |
| InventoryPanel.IncrementThenDecrement | components/InventoryPanel.tsx:39-51 | "+" then "-" gives back a non-negative quantity q |
| InventoryPanel.DecrementThenIncrement | components/InventoryPanel.tsx:39-51 | "-" then "+" returns a positive quantity, and gives 1 from 0 or below |
| InventoryPanel.LowStaysLow | components/InventoryPanel.tsx:20-39 | a low item stays low after "-" when its minimum is not negative |
| AppointmentPanel.Instant | components/AppointmentPanel.tsx:32 | `new Date(apt.date + 'T' + apt.time)` as a time value, if valid; specified through Calendar.ParseDateTime by App.JoinedParts and Calendar.ParseJoinedDateTime |
| AppointmentPanel.InWindow | components/AppointmentPanel.tsx:32-33 | the filter's test; specified by WindowIsWeek and InWindowIffWeekDay |
| AppointmentPanel.WeekStart | components/AppointmentPanel.tsx:19-25 | Monday 00:00:00.000 of the week; specified by StartOfCurrentWeek and WindowIsWeek |
| AppointmentPanel.WeekEnd | components/AppointmentPanel.tsx:27-29 | Sunday 23:59:59.999 of the week; specified by EndOfWeek and WindowIsWeek |
| AppointmentPanel.WeekView | components/AppointmentPanel.tsx:31-34 | filter then sort; specified by WeekViewCounts, WeekViewMembers and WeekViewSorted |
| AppointmentPanel.FilterWindow | components/AppointmentPanel.tsx:31-33 | every kept appointment has a valid date-time |
| AppointmentPanel.Insert | components/AppointmentPanel.tsx:34 | inserting into a sorted list keeps it sorted and adds exactly the element |
| AppointmentPanel.SortBy | components/AppointmentPanel.tsx:34 | the result is sorted by the key and a permutation of the input |
| AppointmentPanel.CurrentWeekAppointments | components/AppointmentPanel.tsx:18-35 | computed with Date objects, the list equals the week view between Monday 00:00:00.000 and Sunday 23:59:59.999 of today's week |
| AppointmentPanel.StartOfCurrentWeek | components/AppointmentPanel.tsx:19-25 | a new Date at 00:00:00.000 on the Monday of today's week |
| AppointmentPanel.EndOfWeek | components/AppointmentPanel.tsx:27-29 | a new Date at 23:59:59.999 six days after the start |
| AppointmentPanel.FilterWindowCounts | components/AppointmentPanel.tsx:31-33 | the filter keeps each appointment in the window as often as it occurs, and drops the rest |
| AppointmentPanel.WeekViewCounts | components/AppointmentPanel.tsx:31-34 | the view is a permutation of the input appointments that lie in the window |
| AppointmentPanel.WeekViewMembers | components/AppointmentPanel.tsx:31-34 | an appointment is shown iff it is stored and lies in the window |
| AppointmentPanel.WeekViewSorted | components/AppointmentPanel.tsx:34 | the shown appointments have valid instants, in ascending order |
| AppointmentPanel.WindowIsWeek | components/AppointmentPanel.tsx:21-29 | an instant lies in the window, both ends inclusive, iff its day is one of the seven days of the week |
| AppointmentPanel.InWindowIffWeekDay | components/AppointmentPanel.tsx:31-33 | an appointment is in the window iff its date-time is valid and falls on a day of the current week |
| AppointmentPanel.StartSubmit | components/AppointmentPanel.tsx:39-42 | `handleAISubmit` up to the `await`; specified by BlankInputIgnored and PendingState |
| AppointmentPanel.SettleSubmit | components/AppointmentPanel.tsx:48-65 | `handleAISubmit` after the `await`; specified by FinishOutcomes |
| AppointmentPanel.Submit | components/AppointmentPanel.tsx:37-66 | one whole submission; specified by SubmitEndsIdle and App.GiCare.SubmitAppointment |
| AppointmentPanel.BlankInputIgnored | components/AppointmentPanel.tsx:39-46 | no request iff the input is all white space, and then the state is unchanged; otherwise the untrimmed input is sent |
| AppointmentPanel.PendingState | components/AppointmentPanel.tsx:41-42 | while the call is pending, the form is processing and the error is cleared |
| AppointmentPanel.FinishOutcomes | components/AppointmentPanel.tsx:48-65 | processing ends on every path. A result adds an appointment with the fresh id and the result's title, date, time and location, and clears the input. Null gives the "não entendi" message, and a rejection the connection message, neither adding anything |
| AppointmentPanel.SubmitEndsIdle | components/AppointmentPanel.tsx:37-66 | a submission from an idle form ends idle |
| AppointmentPanel.AppointmentForm.constructor | components/AppointmentPanel.tsx:13-15 | empty input, not processing, no error |
| AppointmentPanel.AppointmentForm.Type | components/AppointmentPanel.tsx:90-93 | typing replaces the input, only while not processing |
| AppointmentPanel.AppointmentForm.BeginSubmit | components/AppointmentPanel.tsx:39-42 | the form steps as `StartSubmit`, returning the text to send if any |
| AppointmentPanel.AppointmentForm.FinishSubmit | components/AppointmentPanel.tsx:48-65 | the form steps as `SettleSubmit`, returning the appointment to add if any |
| GeminiService.CleanResponse | services/geminiService.ts:37 | the cleaned text has no white space at either end, and contains no "```" and no "```json" |
| GeminiService.StripFencesLeading | services/geminiService.ts:37 | a run of k leading backticks is left as k mod 3 after the fences are removed |
| GeminiService.StripFencesFree | services/geminiService.ts:37 | removing every "```" leaves none, since no new fence can form |
| GeminiService.FenceFreeIsFenceJsonFree | services/geminiService.ts:37 | text without "```" has no "```json" |
| GeminiService.CleanIdempotent | services/geminiService.ts:37 | cleaning a cleaned text changes nothing |
| GeminiService.CleanFencedPayload | services/geminiService.ts:37 | "```json\n" + P + "\n```" cleans to P for a trimmed P without backticks |
| GeminiService.ParseAppointmentWithGemini | services/geminiService.ts:4-44 | the service call with the client, the model and `JSON.parse` as parameters; specified by MissingKeyIsNull, FailuresSettleWithNull, SuccessIff and FencedReplyDecodesPayload |
| GeminiService.MissingKeyIsNull | services/geminiService.ts:5-8 | a missing or empty key gives null, whatever the model would say |
| GeminiService.FailuresSettleWithNull | services/geminiService.ts:10-44 | the call rejects iff the key is present and the client cannot be built. A rejected call, an absent or empty reply, and a decode failure all give null |
| GeminiService.SuccessIff | services/geminiService.ts:34-39 | a result comes back iff the key is present, the client is built, and the non-empty reply decodes after cleanup to that record |
| GeminiService.FencedReplyDecodesPayload | services/geminiService.ts:34-38 | a fenced reply reaches the decoder as exactly its payload |
| Text.TrimStart | services/geminiService.ts:37 | keeps a suffix of the text that does not start with white space |
| Text.TrimStartCut | services/geminiService.ts:37 | what the left trim cuts off is all white space |
| Text.TrimEnd | services/geminiService.ts:37 | keeps a prefix of the text that does not end with white space |
| Text.TrimEndCut | services/geminiService.ts:37 | what the right trim cuts off is all white space |
| Text.Trim | services/geminiService.ts:37 | the result is an infix of the input with only white space cut from either end, and has no white space at either end |
| Text.TrimBare | services/geminiService.ts:37 | trimming a trimmed text changes nothing |
| Text.TrimPadded | services/geminiService.ts:37 | trimming white space padding around a trimmed text gives that text |
| Text.RemoveAll | services/geminiService.ts:37 | the global replace with "" never lengthens the text |
| Text.RemoveAllFree | services/geminiService.ts:37 | without an occurrence, the replace changes nothing |
| Text.RemoveAllKeepsPrefix | services/geminiService.ts:37 | a prefix free of the pattern's first character passes through unchanged |
| Text.RemoveAllLeading | services/geminiService.ts:37 | an occurrence at the front is dropped |
| Text.FreeInfix | services/geminiService.ts:37 | an infix of an occurrence-free text is occurrence-free |
| Dates.JsDate.FromTime | components/AppointmentPanel.tsx:19 | a Date with the given time value |
| Dates.JsDate.Copy | components/MedicationGrid.tsx:14 | a Date with the argument's time value |
| Dates.JsDate.GetDay | components/MedicationGrid.tsx:15 | the week day, 0 for Sunday, of the time value's day |
| Dates.JsDate.GetDate | components/MedicationGrid.tsx:16 | the day of the month, 1..31, of the time value's civil date |
| Dates.JsDate.SetDate | components/MedicationGrid.tsx:17 | moves to day dt of the same month, counting into neighbouring months, and keeps the time of day |
| Dates.JsDate.SetHours | components/AppointmentPanel.tsx:25 | keeps the day and sets the time of day |
| Calendar.Day | components/MedicationGrid.tsx:15-17 | ES Day(t), rounding down; specified by DayOfMakeDate |
| Calendar.TimeWithinDay | components/MedicationGrid.tsx:20 | the time within the day is in 0..86399999 |
| Calendar.DayOfMakeDate | components/MedicationGrid.tsx:17 | composing a day and a time of day and splitting them again gives both back |
| Calendar.WeekDay | components/MedicationGrid.tsx:15 | the week day is in 0..6 |
| Calendar.WeekDayNext | components/MedicationGrid.tsx:15-16 | the next day has the next week day, Sunday after Saturday; seven days on it is the same |
| Calendar.DayFromYear | components/MedicationGrid.tsx:16-17 | ES DayFromYear with floor division; specified by DayFromYearStep and YearFromDay |
| Calendar.DayFromYearStep | components/MedicationGrid.tsx:16-17 | each year starts DaysInYear(y) days after the previous one: 366 in a Gregorian leap year, else 365 |
| Calendar.DayFromCivil | components/MedicationGrid.tsx:16-17 | ES MakeDay for a month in range; specified by ToCivil and CivilRoundTrip |
| Calendar.YearFromDay | components/MedicationGrid.tsx:16 | the year whose range of days holds the day |
| Calendar.DaysInMonth | components/MedicationGrid.tsx:17 | 28 to 31 days, which lead to the next month's first day |
| Calendar.MonthFromDayWithinYear | components/MedicationGrid.tsx:16 | the month whose range holds a day of the year |
| Calendar.ToCivil | components/MedicationGrid.tsx:16 | a valid civil date whose day number is the day |
| Calendar.CivilRoundTrip | components/MedicationGrid.tsx:16-17 | the civil date of a valid civil date's day number is that date |
| Calendar.FixedDigits | components/MedicationGrid.tsx:20 | width digits |
| Calendar.DigitsValue | App.tsx:96 | the value of k digits is below 10^k |
| Calendar.DigitsValueOfFixed | App.tsx:96 | reading back printed digits gives the number |
| Calendar.FixedOfDigitsValue | App.tsx:96 | printing a read number at the same width gives the digits |
| Calendar.YearText | components/MedicationGrid.tsx:20 | years 0..9999 print as four digits that read back as the year; other years as "-" or "+" and six digits that read back as the year's magnitude below 10^6 |
| Calendar.FormatDate | components/MedicationGrid.tsx:20 | `toISOString().split('T')[0]` of a day; specified by ParseFormatDate, FormatParseDate, FormatDateInjective and FormatDateIs |
| Calendar.ParseDate | App.tsx:96 | only ten-character texts are read |
| Calendar.ParseFormatDate | App.tsx:96 | a printed date with a four-digit year reads back as its day |
| Calendar.FormatParseDate | App.tsx:96 | a readable date has a four-digit year and prints back as the same text |
| Calendar.ReadableDateYear | App.tsx:66 | a day whose printed date reads back has a four-digit year |
| Calendar.FormatDateIs | App.tsx:66-86 | a readable date text is the printed date of exactly the day it reads as, so `apt.date === currentDateStr` tests the day |
| Calendar.FormatDateInjective | App.tsx:66 | distinct days with four-digit years print differently |
| Calendar.FormatTime | App.tsx:65 | the `pt-BR` "HH:mm" of a minute; specified by ParseFormatTime, FormatParseTime and FormatTimeInjective |
| Calendar.ParseClock | App.tsx:96 | a read clock time is a minute in 0..1440 |
| Calendar.ParseFormatTime | App.tsx:65 | a printed clock time reads back as its minute |
| Calendar.FormatParseTime | App.tsx:96 | a readable clock time below 24:00 prints back as the same text; 1440 is only "24:00" |
| Calendar.FormatTimeInjective | App.tsx:65 | distinct minutes print differently |
| Calendar.ParseDateTime | App.tsx:96 | `new Date(date + 'T' + time)` for the form the app builds; specified by ParseJoinedDateTime and App.JoinedParts |
| Calendar.ParseJoinedDateTime | App.tsx:96 | a printed date and time joined by 'T' read back as that instant |
| Calendar.MinuteOf | App.tsx:65 | the minute of the day of a time value, 0..1439; specified by OneHourBeforeInstant |
| Calendar.OneHourBefore | App.tsx:97-98 | sixty minutes later comes back to the given minute, modulo 24 hours |
| Calendar.OneHourBeforeInstant | App.tsx:97-98 | the clock minute of an instant less one hour is OneHourBefore of its minute |

## Left out

- Rendering, CSS, tabs, the day and month names and `isToday`: presentation only.
- Loading from and saving to `localStorage`, and `JSON.parse`/`JSON.stringify` of the stores: browser persistence. The model's state starts from the initial `useState` values.
- The Notification API, `requestPermission` and `alert`: a notification is a returned value; the permission the browser reports is a parameter of `SetNotificationPermission`. The `console.error` logging (App.tsx:56, services/geminiService.ts:6 and services/geminiService.ts:42) is left out: it writes to the console only and changes no state or result.
- `setInterval`/`clearInterval`: `CheckNotifications` models one run. The effect's re-registration on state changes is timer plumbing.
- The model call, its prompt and schema, and `JSON.parse` of the reply: foreign code. They are the parameters `clientFails`, `response` and `decode`; falsy decoded values are folded into a null result.
- `crypto.randomUUID()` and `new Date()`: fresh ids, the ISO time of a toggle, and the current instant are parameters.
- Time zones and DST: local time is UTC throughout. So the source's mix of UTC dates (`toISOString`) and local clock times (`toLocaleTimeString`) is not captured.
- Calendar.ParseDateTime: reads only the form `YYYY-MM-DDTHH:mm` (with `24:00`) that the app builds. Other ECMAScript date forms, seconds, offsets and engine-specific lenient parsing give no instant.
- Calendar.YearText: years outside 0..9999 print with a sign and six digits. Years beyond six digits and the time-value range limit (TimeClip, RangeError of `toISOString`) are not modelled.
- InventoryPanel.DecrementRequest: JS numbers are modelled as integers. Fractional and NaN quantities are left out.
- AppointmentPanel.SettleSubmit: a truthy reply that is not an object with four string fields (`42`, `"x"`, `[1]`, `{"title":"Neuro"}`) is stood in for by a record of strings (`GeminiService.Decoded`). The source copies `undefined` into every missing field, so its `location` can be `undefined` where the model always stores `Some(...)`. When the date or time is missing, the source's date-time does not read and its date matches no day, so the appointment stays out of the week view and raises no notice; a stand-in whose strings do not read as a date and time behaves the same. A missing location changes only the stored `location`.
- AppointmentPanel.SortBy: a stable insertion sort stands in for `Array.prototype.sort`. Only sortedness and permutation are claimed, not the order among equal instants.
- AppointmentPanel.AppointmentForm.Type: typing is only modelled while idle. The input is disabled while a call is pending.
- InventoryPanel.LowStaysLow: holds only for a non-negative minimum, since with a negative one the clamp can lift the quantity above it.
- The catalog and the initial inventory (a constants module) are not part of this model; they are parameters of `GiCare`.
