/**
 * The record shapes of src/types/event.ts: a calendar event, the same record
 * without its id (what the caller hands to addEvent) and a partial record
 * (what the caller hands to updateEvent).
 */
module CalendarTypes {
  import opened Wrappers

  /** A JavaScript Date, kept abstractly as its millisecond timestamp. */
  type Date = int

  /** CalendarEvent; `time` and `notes` are the optional properties. */
  datatype CalendarEvent = CalendarEvent(
    id: string,
    name: string,
    date: Date,
    time: Option<string>,
    color: string,
    notes: Option<string>)

  /** Omit<CalendarEvent, 'id'>: every field but the id. */
  datatype EventDraft = EventDraft(
    name: string,
    date: Date,
    time: Option<string>,
    color: string,
    notes: Option<string>)

  /**
   * Partial<CalendarEvent>: `None` means the key is absent from the object.
   * For the optional fields, `Some(None)` is the key present with the value
   * undefined, which the spread copies over the old value.
   */
  datatype EventPatch = EventPatch(
    id: Option<string>,
    name: Option<string>,
    date: Option<Date>,
    time: Option<Option<string>>,
    color: Option<string>,
    notes: Option<Option<string>>)

  /** The empty object `{}` used as an update. */
  const NoChanges: EventPatch := EventPatch(None, None, None, None, None, None)

  /** The draft an event was made from: the event without its id. */
  function Draft(e: CalendarEvent): EventDraft
  {
    EventDraft(e.name, e.date, e.time, e.color, e.notes)
  }
}
