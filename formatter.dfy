/**
 * The zone formatter the calculator consults (Intl.DateTimeFormat with the
 * 'en-US' locale and a time zone), reduced to what it reports: for an
 * instant, the zone's wall-clock fields as integers and the weekday as its
 * short English name. A zone is any function from instants to such
 * readings; the zone database behind it is not modelled. Fixed-offset zones
 * are given concretely through the wall clock of UTC.
 */
module Formatter {
  import opened Calendar

  /** The fields a formatter reports for one instant; `month` counts from 1. */
  datatype Civil = Civil(year: int, month: int, day: int, hour: int, minute: int, second: int, weekday: string)

  /** A named time zone, seen only through its formatter. */
  type Zone = int -> Civil

  /** The 'short' weekday names of the en-US locale, Sunday first. */
  const ShortWeekdayNames: seq<string> := ["Sun", "Mon", "Tue", "Wed", "Thu", "Fri", "Sat"]

  /**
   * c is what a UTC wall clock shows at instant `ms`: the calendar date of
   * its day, the time of day truncated to the second, and the weekday.
   */
  predicate ReadsUtc(c: Civil, ms: int) {
    var time := TimeWithinDay(ms);
    && IsDateOfDay(Date(c.year, c.month, c.day), Day(ms))
    && c.hour == time / MsPerHour
    && c.minute == time % MsPerHour / MsPerMinute
    && c.second == time % MsPerMinute / MsPerSecond
    && c.weekday == ShortWeekdayNames[WeekDay(Day(ms))]
  }

  /** The reading of a UTC wall clock at instant `ms`. */
  function WallClock(ms: int): (c: Civil)
    ensures ReadsUtc(c, ms)
  {
    var date := CivilOfDay(Day(ms));
    var time := TimeWithinDay(ms);
    Civil(date.year, date.month, date.day,
          time / MsPerHour, time % MsPerHour / MsPerMinute, time % MsPerMinute / MsPerSecond,
          ShortWeekdayNames[WeekDay(Day(ms))])
  }

  /**
   * A UTC reading holds hours, minutes and seconds in range, which rebuild
   * the time of day less its milliseconds.
   */
  lemma ReadingTime(c: Civil, ms: int)
    requires ReadsUtc(c, ms)
    ensures 0 <= c.hour < 24 && 0 <= c.minute < 60 && 0 <= c.second < 60
    ensures MakeTime(c.hour, c.minute, c.second, 0) == TimeWithinDay(ms) - ms % MsPerSecond
  {
    var time := TimeWithinDay(ms);
    var withinHour := time % MsPerHour;
    var withinMinute := time % MsPerMinute;
    assert withinHour % MsPerMinute == withinMinute;
    assert withinMinute % MsPerSecond == ms % MsPerSecond by {
      ModSecondShift(MsPerDay / MsPerSecond * Day(ms) + MsPerMinute / MsPerSecond * (time / MsPerMinute), withinMinute);
    }
  }

  /** A zone whose clock is always `minutes` ahead of UTC. */
  function FixedOffset(minutes: int): Zone {
    t => WallClock(t + minutes * MsPerMinute)
  }

  /** Instant t lies in the window from lo to hi. */
  predicate InWindow(t: int, lo: int, hi: int) {
    lo <= t <= hi
  }

  /**
   * Throughout the window from lo to hi the zone's clock reads `minutes`
   * ahead of UTC. The fact about an instant is drawn out by naming the
   * instant as in the window.
   */
  ghost predicate SteadyOffset(zone: Zone, minutes: int, lo: int, hi: int) {
    forall t {:trigger InWindow(t, lo, hi)} :: InWindow(t, lo, hi) ==> ReadsUtc(zone(t), t + minutes * MsPerMinute)
  }

  /** A zone steady over a window is steady over every window inside it. */
  lemma SteadyOffsetWithin(zone: Zone, minutes: int, lo: int, hi: int, lo': int, hi': int)
    requires SteadyOffset(zone, minutes, lo, hi)
    requires lo <= lo' && hi' <= hi
    ensures SteadyOffset(zone, minutes, lo', hi')
  {
    forall t | InWindow(t, lo', hi')
      ensures ReadsUtc(zone(t), t + minutes * MsPerMinute)
    {
      assert InWindow(t, lo, hi);
    }
  }

  /** A fixed-offset zone reads its offset ahead of UTC at every instant. */
  lemma FixedOffsetReads(minutes: int, t: int)
    ensures ReadsUtc(FixedOffset(minutes)(t), t + minutes * MsPerMinute)
  {
  }

  /** A fixed-offset zone is steady over every window. */
  lemma FixedOffsetIsSteady(minutes: int, lo: int, hi: int)
    ensures SteadyOffset(FixedOffset(minutes), minutes, lo, hi)
  {
    forall t | InWindow(t, lo, hi)
      ensures ReadsUtc(FixedOffset(minutes)(t), t + minutes * MsPerMinute)
    {
      FixedOffsetReads(minutes, t);
    }
  }

  /**
   * Where a UTC reading is in year 100 or later, Date.UTC of its fields
   * gives back the instant, truncated to the second.
   */
  lemma DateUtcOfReading(c: Civil, ms: int)
    requires ReadsUtc(c, ms)
    requires DayFromYear(100) * MsPerDay <= ms
    ensures DateUtc(c.year, c.month - 1, c.day, c.hour, c.minute, c.second) == ms - ms % MsPerSecond
  {
    ReadingTime(c, ms);
    YearFrom(Date(c.year, c.month, c.day), Day(ms), 100);
    MakeDayInYear(c.year, c.month - 1, c.day);
  }
}
