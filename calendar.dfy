/** Calendar arithmetic on day numbers.

    A date is its proleptic Gregorian ordinal, as Python's `date.toordinal()`:
    day 1 is Monday 0001-01-01. ISO date strings compare in calendar order, so
    the date range filters of the store become integer comparisons here. */
module Calendar {

  type Day = int

  /** `date.weekday()`: Monday = 0, ..., Sunday = 6. */
  function Weekday(d: Day): (w: int)
    ensures 0 <= w <= 6
  {
    (d + 6) % 7
  }

  predicate IsSunday(d: Day) {
    Weekday(d) == 6
  }

  /** `today - timedelta(days=today.weekday())`: the Monday of the week holding `d`. */
  function WeekStart(d: Day): (m: Day)
    ensures Weekday(m) == 0
    ensures m <= d <= m + 6
  {
    d - Weekday(d)
  }

  /** `week_start + timedelta(days=6)`: the last day of the window starting at `ws`. */
  function WeekEnd(ws: Day): (e: Day)
    ensures e - ws == 6
    ensures Weekday(ws) == 0 ==> Weekday(e) == 6
  {
    ws + 6
  }

  /** The inclusive date filter `gte(week_start)` and `lte(week_end)`. */
  predicate InWeek(d: Day, ws: Day) {
    ws <= d <= WeekEnd(ws)
  }

  /** From a Monday the filter selects exactly the calendar week starting
      there, each of its seven days with its own weekday, Monday to Sunday. */
  lemma InWeekIsCalendarWeek(d: Day, ws: Day)
    requires Weekday(ws) == 0
    ensures InWeek(d, ws) <==> WeekStart(d) == ws
    ensures InWeek(d, ws) ==> Weekday(d) == d - ws
  {
  }

  /** Consecutive days have consecutive weekdays, wrapping Sunday to Monday. */
  lemma NextWeekday(d: Day)
    ensures Weekday(d + 1) == if Weekday(d) == 6 then 0 else Weekday(d) + 1
  {
  }

  /** On a Sunday the week starts six days earlier, and that day is a Monday. */
  lemma SundayWeekStart(d: Day)
    requires IsSunday(d)
    ensures WeekStart(d) == d - 6 && Weekday(d - 6) == 0
  {
  }

  /** The Monday-started window is the only one that holds `d` and starts on a Monday. */
  lemma WeekStartUnique(d: Day, m: Day)
    requires Weekday(m) == 0 && InWeek(d, m)
    ensures m == WeekStart(d)
  {
  }
}
