/**
 * Local wall-clock time as the script sees it through Python's naive
 * `datetime`: a day number and the time of day, with no time zone.
 */
module Clock {

  const MicrosPerMinute: nat := 60_000_000
  const MicrosPerDay: nat := 24 * 60 * MicrosPerMinute

  /**
   * A moment: `ordinal` is the day number of `date.toordinal()` (day 1 is
   * 1 January of year 1, a Monday) and `micros` the microseconds since midnight.
   */
  datatype Instant = Instant(ordinal: int, micros: nat)

  predicate ValidInstant(t: Instant) {
    1 <= t.ordinal && t.micros < MicrosPerDay
  }

  /**
   * Microseconds since the start of day 0. For valid moments, the difference
   * of two stamps is the microseconds of their `datetime` difference, since
   * every day has `MicrosPerDay` of them.
   */
  function Stamp(t: Instant): int {
    t.ordinal * MicrosPerDay + t.micros
  }

  /** Between valid moments, stamps are ordered as (day, time of day) pairs. */
  lemma StampOrder(a: Instant, b: Instant)
    requires ValidInstant(a) && ValidInstant(b)
    ensures Stamp(a) <= Stamp(b) <==> a.ordinal < b.ordinal || (a.ordinal == b.ordinal && a.micros <= b.micros)
  {
    if a.ordinal < b.ordinal {
      assert (b.ordinal - a.ordinal) * MicrosPerDay >= MicrosPerDay;
    } else if a.ordinal > b.ordinal {
      assert (a.ordinal - b.ordinal) * MicrosPerDay >= MicrosPerDay;
    }
  }

  /** `strftime("%A")`: the English name of the weekday, Monday being `(ordinal + 6) % 7 == 0`. */
  function DayName(t: Instant): (name: string)
    ensures name == "Monday" <==> t.ordinal % 7 == 1
  {
    var names := ["Monday", "Tuesday", "Wednesday", "Thursday", "Friday", "Saturday", "Sunday"];
    names[(t.ordinal + 6) % 7]
  }

  /** A schedule time already parsed by `strptime(..., "%H:%M")`. */
  datatype TimeOfDay = TimeOfDay(hour: nat, minute: nat)

  predicate ValidTimeOfDay(t: TimeOfDay) {
    t.hour < 24 && t.minute < 60
  }

  /** The `datetime.time` value of a parsed schedule time, in microseconds since midnight. */
  function MicrosOfDay(t: TimeOfDay): (micros: nat)
    ensures ValidTimeOfDay(t) ==> micros < MicrosPerDay
  {
    (t.hour * 60 + t.minute) * MicrosPerMinute
  }
}
