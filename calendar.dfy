/**
 * Civil dates as the date-fns calls of the system see them, without time zones.
 * A date is a day number; day 0 is Monday 2024-01-01, so the weekday of a day is
 * its remainder modulo 7 (0 = Monday, ..., 6 = Sunday).
 */
module Calendar {

  /** A civil date: days since Monday 2024-01-01 (negative before it). */
  type Day = int

  /** A date string as received: one `parseISO` reads as a day, or one it rejects. */
  datatype DateInput = Parsed(day: Day) | Unparseable

  predicate IsMonday(d: Day) {
    d % 7 == 0
  }

  /** `startOfWeek(d, { weekStartsOn: 1 })`: the Monday on or before `d`. */
  function StartOfWeek(d: Day): (monday: Day)
    ensures IsMonday(monday)
    ensures monday <= d <= monday + 6
  {
    d - d % 7
  }

  /** The Monday on or before a day is the only Monday at most six days before it. */
  lemma StartOfWeekUnique(d: Day, monday: Day)
    requires IsMonday(monday) && monday <= d <= monday + 6
    ensures StartOfWeek(d) == monday
  {
    var k := monday / 7;
    assert monday == 7 * k;
    assert d == 7 * k + (d - monday);
    assert 0 <= d - monday < 7;
  }

  /** Taking the start of the week twice is the same as taking it once. */
  lemma StartOfWeekIdempotent(d: Day)
    ensures StartOfWeek(StartOfWeek(d)) == StartOfWeek(d)
  {
    StartOfWeekUnique(StartOfWeek(d), StartOfWeek(d));
  }

  /** Every day of the week from Monday m to Sunday m + 6 has m as its week start. */
  lemma SameWeek(d: Day, e: Day)
    requires StartOfWeek(d) <= e <= StartOfWeek(d) + 6
    ensures StartOfWeek(e) == StartOfWeek(d)
  {
    StartOfWeekUnique(e, StartOfWeek(d));
  }
}
