/** An optional value: JavaScript's `null`, `undefined` and `NaN` where the calendar
    meets them. */
module Wrappers {
  datatype Option<T> = None | Some(value: T)
}

/** The records the calendar passes around (src/types/calendar.ts). */
module CalendarTypes {
  import opened CivilDates

  /** The fixed set of event categories. */
  datatype Category = Work | Personal | Reminder | Holiday

  /** A stored event. `date` is the calendar day; the times are the raw strings
      from the form ("HH:MM" once validated). */
  datatype CalendarEvent = CalendarEvent(
    id: string,
    title: string,
    description: string,
    date: Date,
    startTime: string,
    endTime: string,
    category: Category,
    color: string,
    isReminder: bool)

  /** One cell of the month grid. */
  datatype CalendarDay = CalendarDay(
    date: Date,
    events: seq<CalendarEvent>,
    isCurrentMonth: bool,
    isToday: bool,
    isSelected: bool)

  /** The fields of the event form. */
  datatype EventFormData = EventFormData(
    title: string,
    description: string,
    startTime: string,
    endTime: string,
    category: Category,
    isReminder: bool)
}
