/** The records the tracker keeps (types.ts), as immutable values. */
module Types {

  datatype Option<+T> = None | Some(value: T)

  /** MedCategory: 'Fígado' or 'Epilepsia'. */
  datatype MedCategory = Liver | Epilepsy

  /** One catalog entry with its daily dose times, each an "HH:mm" string. */
  datatype MedicationScheduleItem = MedicationScheduleItem(
    id: string,
    name: string,
    category: MedCategory,
    times: seq<string>)

  /** A dose slot: the arguments of a toggle, (medScheduleId, date "YYYY-MM-DD", time "HH:mm"). */
  datatype Slot = Slot(medScheduleId: string, date: string, time: string)

  /** A dose record. `takenAt` is optional in the source's type. */
  datatype MedLog = MedLog(
    id: string,
    medScheduleId: string,
    date: string,
    time: string,
    taken: bool,
    takenAt: Option<string>)
  {
    /** The slot this log is filed under; every lookup in the app compares these three fields. */
    function SlotOf(): Slot { Slot(medScheduleId, date, time) }
  }

  datatype InventoryItem = InventoryItem(
    id: string,
    name: string,
    currentQuantity: int,
    minThreshold: int,
    unit: string)

  datatype Appointment = Appointment(
    id: string,
    title: string,
    date: string,
    time: string,
    location: Option<string>,
    notes: Option<string>)

  /** The fields the extractor is asked for; they are never validated by the app. */
  datatype ParsedAppointment = ParsedAppointment(title: string, date: string, time: string, location: string)

  /** The browser's NotificationPermission. */
  datatype Permission = Default | Granted | Denied
}
