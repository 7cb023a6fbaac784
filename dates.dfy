/**
 * Dates as the task manager uses them. Parsing and formatting with the
 * fixed pattern "%d %b %Y" (e.g. "06 Oct 2025") belong to Python's
 * datetime library; here they are a pair of functions handed in as a
 * `Calendar`, `parse` being partial. The clock is a parameter too.
 */
module Dates {
  import opened Wrappers

  datatype Date = Date(year: int, month: int, day: int)

  /** Calendar order on dates, strict. */
  predicate Before(a: Date, b: Date) {
    a.year < b.year
    || (a.year == b.year && (a.month < b.month || (a.month == b.month && a.day < b.day)))
  }

  /** What `datetime.today()` returns: a date and the time of day, in microseconds. */
  datatype Instant = Instant(date: Date, micros: nat)

  /**
   * `strptime(due, "%d %b %Y") < datetime.today()`: the due date is read as
   * midnight and compared with the current moment, so a task due today is
   * already late once the first microsecond of the day has passed.
   */
  predicate MidnightBefore(due: Date, now: Instant) {
    Before(due, now.date) || (due == now.date && now.micros > 0)
  }

  /** `strptime(text, "%d %b %Y")` (None where it raises ValueError) and `strftime`. */
  datatype Calendar = Calendar(parse: string -> Option<Date>, format: Date -> string)

  /**
   * The midnight comparison against the date-only one: a date strictly
   * before today is late, a date after today is not, and a date equal to
   * today is late unless it is exactly midnight.
   */
  lemma MidnightBeforeByDate(due: Date, now: Instant)
    ensures Before(due, now.date) ==> MidnightBefore(due, now)
    ensures Before(now.date, due) ==> !MidnightBefore(due, now)
    ensures due == now.date ==> (MidnightBefore(due, now) <==> now.micros > 0)
  {
  }
}
