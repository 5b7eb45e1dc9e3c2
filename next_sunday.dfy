/**
 * secondsToNextSundayMidnight and its two helpers: the weekday lookup, the
 * offset of a zone at an instant, and the calculator that jumps whole days
 * to the next Sunday, rebuilds that date's midnight with Date.UTC, corrects
 * it by the zone's offset and floor-divides the distance to seconds.
 * Instants are integers of milliseconds since the epoch; the offset is a
 * JavaScript Number, modelled as a real so that dividing by 60000 and
 * multiplying back is exact.
 */
module NextSunday {
  import opened Calendar
  import opened Formatter

  /** The weekday names getWeekdayIndex looks up, Sunday first. */
  const Weekdays: seq<string> := ["Sun", "Mon", "Tue", "Wed", "Thu", "Fri", "Sat"]

  /**
   * getWeekdayIndex: Array.prototype.indexOf on the seven names, 0 for "Sun"
   * up to 6 for "Sat", -1 for any other string.
   */
  function GetWeekdayIndex(weekday: string): (i: int)
    ensures -1 <= i < 7
    ensures i == -1 <==> weekday !in Weekdays
    ensures 0 <= i ==> Weekdays[i] == weekday && weekday !in Weekdays[..i]
  {
    if weekday == Weekdays[0] then 0
    else if weekday == Weekdays[1] then 1
    else if weekday == Weekdays[2] then 2
    else if weekday == Weekdays[3] then 3
    else if weekday == Weekdays[4] then 4
    else if weekday == Weekdays[5] then 5
    else if weekday == Weekdays[6] then 6
    else -1
  }

  /** Each weekday name is found at its own position: the names are distinct. */
  lemma WeekdayIndexOfName(i: int)
    requires 0 <= i < 7
    ensures GetWeekdayIndex(Weekdays[i]) == i
  {
  }

  /** The weekday a UTC reading shows is looked up as the weekday index of its day. */
  lemma ReadingWeekdayIndex(c: Civil, ms: int)
    requires ReadsUtc(c, ms)
    ensures GetWeekdayIndex(c.weekday) == WeekDay(Day(ms))
  {
    WeekdayIndexOfName(WeekDay(Day(ms)));
  }

  /**
   * Days from weekday index w to the next Sunday, 7 on a Sunday itself. The
   * index -1 of an unrecognised name gives one day. Both operands of `%` are
   * positive, where JavaScript's remainder and Dafny's agree.
   */
  function DaysUntilSunday(currentWeekday: int): (days: int)
    requires -1 <= currentWeekday <= 6
    ensures 1 <= days <= 7
    ensures (currentWeekday + days) % 7 == 0
    ensures days == 7 <==> currentWeekday == 0
  {
    var days := (7 - currentWeekday) % 7;
    if days == 0 then 7 else days
  }

  /** The zone's wall-clock reading of utcDate, rebuilt as if it were UTC ("localDate"). */
  function LocalTime(zone: Zone, utcDate: int): int {
    var c := zone(utcDate);
    DateUtc(c.year, c.month - 1, c.day, c.hour, c.minute, c.second)
  }

  /**
   * getOffset: minutes by which the zone's clock is ahead of UTC at utcDate,
   * as a Number. The reading stops at whole seconds, so an instant with
   * milliseconds yields a fraction of a minute.
   */
  function GetOffset(zone: Zone, utcDate: int): (offset: real)
    ensures utcDate as real + offset * 60000.0 == LocalTime(zone, utcDate) as real
  {
    (LocalTime(zone, utcDate) - utcDate) as real / 60000.0
  }

  /** The instant daysUntilSunday days of 86400000 ms after the reference. */
  function TargetDate(zone: Zone, localeDate: int): (targetDate: int)
    ensures localeDate + MsPerDay <= targetDate <= localeDate + 7 * MsPerDay
    ensures (targetDate - localeDate) % MsPerDay == 0
  {
    var currentWeekday := GetWeekdayIndex(zone(localeDate).weekday);
    localeDate + DaysUntilSunday(currentWeekday) * 86400 * 1000
  }

  /** UTC midnight of the date the zone reads at targetDate. */
  function TargetMidnightUtc(zone: Zone, targetDate: int): (midnight: int)
    ensures midnight % MsPerDay == 0
  {
    var target := zone(targetDate);
    DateUtc(target.year, target.month - 1, target.day, 0, 0, 0)
  }

  /**
   * UTC midnight moved back by the offset found there. Since the offset is
   * an exact quotient, the correction lands on a whole millisecond: the
   * midnight minus the zone's lead over UTC at that midnight.
   */
  function TargetUtcTimestamp(zone: Zone, midnight: int): (timestamp: real)
    ensures timestamp == (midnight - (LocalTime(zone, midnight) - midnight)) as real
  {
    midnight as real - GetOffset(zone, midnight) * 60000.0
  }

  /** secondsToNextSundayMidnight: whole seconds, rounded down, from localeDate to the corrected midnight. */
  function SecondsToNextSundayMidnight(zone: Zone, localeDate: int): (seconds: int)
    ensures var timestamp := TargetUtcTimestamp(zone, TargetMidnightUtc(zone, TargetDate(zone, localeDate)));
      seconds as real * 1000.0 <= timestamp - localeDate as real < (seconds + 1) as real * 1000.0
  {
    var targetUtcTimestamp := TargetUtcTimestamp(zone, TargetMidnightUtc(zone, TargetDate(zone, localeDate)));
    ((targetUtcTimestamp - localeDate as real) / 1000.0).Floor
  }

  /** Instant l, on a clock read as UTC, is 00:00:00.000 on a Sunday. */
  predicate IsSundayMidnight(l: int) {
    TimeWithinDay(l) == 0 && WeekDay(Day(l)) == 0
  }

  /** The first Sunday 00:00 strictly after l, one to seven days ahead. */
  function NextSundayMidnight(l: int): (s: int)
    ensures l < s <= l + 7 * MsPerDay
    ensures IsSundayMidnight(s)
    ensures s == l + 7 * MsPerDay <==> IsSundayMidnight(l)
  {
    (Day(l) + 7 - WeekDay(Day(l))) * MsPerDay
  }

  /** No Sunday midnight lies strictly between l and NextSundayMidnight(l). */
  lemma NextSundayMidnightIsFirst(l: int, x: int)
    requires l < x < NextSundayMidnight(l)
    ensures !IsSundayMidnight(x)
  {
    if TimeWithinDay(x) == 0 {
      assert Day(l) < Day(x) < Day(l) + 7 - WeekDay(Day(l));
      assert WeekDay(Day(x)) == WeekDay(Day(l)) + (Day(x) - Day(l));
    }
  }

  /** Math.floor of a whole number of milliseconds over 1000 is floor division. */
  lemma FloorOfThousandth(x: int)
    ensures (x as real / 1000.0).Floor == x / 1000
  {
    var q := x / 1000;
    assert x == 1000 * q + x % 1000;
    assert q as real <= x as real / 1000.0 < (q + 1) as real;
  }

  /** Moving an instant by whole minutes leaves its milliseconds within the second unchanged. */
  lemma WholeMinutesKeepMilliseconds(t: int, k: int)
    ensures (t + k * MsPerMinute) % MsPerSecond == t % MsPerSecond
  {
    assert t + k * MsPerMinute == MsPerSecond * (t / MsPerSecond + 60 * k) + t % MsPerSecond;
    ModSecondShift(t / MsPerSecond + 60 * k, t % MsPerSecond);
  }

  /** The zone's reading at t, rebuilt as UTC, is the instant it reads, truncated to the second. */
  lemma LocalTimeOfReading(zone: Zone, t: int, ms: int)
    requires ReadsUtc(zone(t), ms)
    requires DayFromYear(100) * MsPerDay <= ms
    ensures LocalTime(zone, t) == ms - ms % MsPerSecond
  {
    DateUtcOfReading(zone(t), ms);
  }

  /**
   * getOffset in a zone that reads k minutes ahead of UTC at t: k, less the
   * milliseconds of t that the whole-second reading drops, and exactly k on
   * a whole second.
   */
  lemma GetOffsetOfSteadyZone(zone: Zone, k: int, t: int)
    requires ReadsUtc(zone(t), t + k * MsPerMinute)
    requires DayFromYear(100) * MsPerDay <= t + k * MsPerMinute
    ensures GetOffset(zone, t) == (k * MsPerMinute - t % MsPerSecond) as real / 60000.0
    ensures t % MsPerSecond == 0 ==> GetOffset(zone, t) == k as real
  {
    LocalTimeOfReading(zone, t, t + k * MsPerMinute);
    WholeMinutesKeepMilliseconds(t, k);
  }

  /** Date.UTC of the date a UTC reading shows, at 00:00, is midnight of that day. */
  lemma MidnightOfReading(c: Civil, ms: int)
    requires ReadsUtc(c, ms)
    requires DayFromYear(100) * MsPerDay <= ms
    ensures DateUtc(c.year, c.month - 1, c.day, 0, 0, 0) == Day(ms) * MsPerDay
  {
    YearFrom(Date(c.year, c.month, c.day), Day(ms), 100);
    MakeDayInYear(c.year, c.month - 1, c.day);
  }

  /** A UTC reading at a midnight shows 00:00:00 and the short name of that day. */
  lemma ReadingAtMidnight(c: Civil, day: int)
    requires ReadsUtc(c, day * MsPerDay)
    ensures c.hour == 0 && c.minute == 0 && c.second == 0
    ensures c.weekday == ShortWeekdayNames[WeekDay(day)]
  {
    assert Day(day * MsPerDay) == day && TimeWithinDay(day * MsPerDay) == 0;
  }

  /** The jump: to the next Sunday of the clock k minutes ahead, counted in whole days. */
  lemma TargetDateOfSteadyZone(zone: Zone, k: int, ref: int)
    requires ReadsUtc(zone(ref), ref + k * MsPerMinute)
    ensures TargetDate(zone, ref) == ref + DaysUntilSunday(WeekDay(Day(ref + k * MsPerMinute))) * MsPerDay
  {
    ReadingWeekdayIndex(zone(ref), ref + k * MsPerMinute);
  }

  /** The rebuilt midnight: UTC midnight of the day the zone's clock shows at the target. */
  lemma TargetMidnightOfSteadyZone(zone: Zone, targetDate: int, local: int, day: int)
    requires ReadsUtc(zone(targetDate), local)
    requires DayFromYear(100) * MsPerDay <= local
    requires Day(local) == day
    ensures TargetMidnightUtc(zone, targetDate) == day * MsPerDay
  {
    MidnightOfReading(zone(targetDate), local);
  }

  /** The correction: a whole-second midnight moved back by the zone's k minutes. */
  lemma TargetUtcTimestampOfSteadyZone(zone: Zone, k: int, midnight: int)
    requires ReadsUtc(zone(midnight), midnight + k * MsPerMinute)
    requires DayFromYear(100) * MsPerDay <= midnight + k * MsPerMinute
    requires midnight % MsPerSecond == 0
    ensures TargetUtcTimestamp(zone, midnight) == (midnight - k * MsPerMinute) as real
  {
    GetOffsetOfSteadyZone(zone, k, midnight);
  }

  /** The result is the floor of the whole milliseconds to the corrected midnight, in seconds. */
  lemma SecondsOfTimestamp(zone: Zone, ref: int, timestamp: int)
    requires TargetUtcTimestamp(zone, TargetMidnightUtc(zone, TargetDate(zone, ref))) == timestamp as real
    ensures SecondsToNextSundayMidnight(zone, ref) == (timestamp - ref) / 1000
  {
    FloorOfThousandth(timestamp - ref);
  }

  /** From weekday w of 0..6 the next Sunday is 7 - w days ahead. */
  lemma DaysUntilSundayFromWeekDay(w: int)
    requires 0 <= w < 7
    ensures DaysUntilSunday(w) == 7 - w
  {
  }

  /**
   * The whole seconds from l to the next Sunday midnight lie in 0..604800,
   * and are 604800 exactly when l is itself Sunday midnight.
   */
  lemma SecondsToNextSundayBounds(l: int)
    ensures 0 <= (NextSundayMidnight(l) - l) / 1000 <= 604800
    ensures (NextSundayMidnight(l) - l) / 1000 == 604800 <==> IsSundayMidnight(l)
  {
  }

  /** An offset of less than a day either way, in milliseconds. */
  lemma OffsetUnderADay(k: int)
    requires -1440 < k < 1440
    ensures -MsPerDay < k * MsPerMinute < MsPerDay
  {
  }

  /** One to seven whole days, in milliseconds. */
  lemma WholeDaysAhead(d: int)
    requires 1 <= d <= 7
    ensures MsPerDay <= d * MsPerDay <= 7 * MsPerDay
  {
  }

  /**
   * In a zone steady at k minutes ahead of UTC from one day before the
   * reference to eight days after it, the rebuilt midnight is UTC midnight
   * of the local next Sunday.
   */
  lemma SteadyZoneMidnight(zone: Zone, k: int, ref: int)
    requires -1440 < k < 1440
    requires DayFromYear(100) * MsPerDay + 2 * MsPerDay <= ref
    requires SteadyOffset(zone, k, ref - MsPerDay, ref + 8 * MsPerDay)
    ensures TargetMidnightUtc(zone, TargetDate(zone, ref)) == NextSundayMidnight(ref + k * MsPerMinute)
  {
    var w := WeekDay(Day(ref + k * MsPerMinute));
    DaysUntilSundayFromWeekDay(w);
    var d := 7 - w;
    assert NextSundayMidnight(ref + k * MsPerMinute) == (Day(ref + k * MsPerMinute) + d) * MsPerDay;
    assert TargetDate(zone, ref) == ref + d * MsPerDay by {
      assert InWindow(ref, ref - MsPerDay, ref + 8 * MsPerDay);
      TargetDateOfSteadyZone(zone, k, ref);
    }
    TargetMidnightDaysAhead(zone, k, ref, d);
  }

  /**
   * In the same steady zone, UTC midnight of the date read d days after the
   * reference is midnight of the local day d days on.
   */
  lemma TargetMidnightDaysAhead(zone: Zone, k: int, ref: int, d: int)
    requires -1440 < k < 1440
    requires DayFromYear(100) * MsPerDay + 2 * MsPerDay <= ref
    requires SteadyOffset(zone, k, ref - MsPerDay, ref + 8 * MsPerDay)
    requires 1 <= d <= 7
    ensures TargetMidnightUtc(zone, ref + d * MsPerDay) == (Day(ref + k * MsPerMinute) + d) * MsPerDay
  {
    var local := ref + k * MsPerMinute;
    var t := ref + d * MsPerDay;
    OffsetUnderADay(k);
    WholeDaysAhead(d);
    assert InWindow(t, ref - MsPerDay, ref + 8 * MsPerDay);
    assert Day(t + k * MsPerMinute) == Day(local) + d by {
      DayOfShift(local, d);
      assert t + k * MsPerMinute == local + d * MsPerDay;
    }
    TargetMidnightOfSteadyZone(zone, t, t + k * MsPerMinute, Day(local) + d);
  }

  /**
   * In the same steady zone, the corrected timestamp is the instant at
   * which the zone's clock next shows Sunday midnight.
   */
  lemma SteadyZoneTimestamp(zone: Zone, k: int, ref: int)
    requires -1440 < k < 1440
    requires DayFromYear(100) * MsPerDay + 2 * MsPerDay <= ref
    requires SteadyOffset(zone, k, ref - MsPerDay, ref + 8 * MsPerDay)
    ensures TargetUtcTimestamp(zone, TargetMidnightUtc(zone, TargetDate(zone, ref)))
      == (NextSundayMidnight(ref + k * MsPerMinute) - k * MsPerMinute) as real
  {
    SteadyZoneMidnight(zone, k, ref);
    var midnight := NextSundayMidnight(ref + k * MsPerMinute);
    assert TargetUtcTimestamp(zone, midnight) == (midnight - k * MsPerMinute) as real by {
      var w := WeekDay(Day(ref + k * MsPerMinute));
      OffsetUnderADay(k);
      DaysUntilSundayFromWeekDay(w);
      WholeDaysAhead(7 - w);
      var day := Day(ref + k * MsPerMinute) + 7 - w;
      assert midnight == day * MsPerDay;
      assert InWindow(midnight, ref - MsPerDay, ref + 8 * MsPerDay);
      MidnightWholeSecond(day);
      TargetUtcTimestampOfSteadyZone(zone, k, midnight);
    }
  }

  /**
   * In the same steady zone, the clock shows Sunday 00:00:00 at the instant
   * the local next Sunday midnight falls.
   */
  lemma SteadyZoneReadsSunday(zone: Zone, k: int, ref: int)
    requires -1440 < k < 1440
    requires SteadyOffset(zone, k, ref - MsPerDay, ref + 8 * MsPerDay)
    ensures var next := NextSundayMidnight(ref + k * MsPerMinute) - k * MsPerMinute;
      zone(next).weekday == "Sun" && zone(next).hour == 0 && zone(next).minute == 0 && zone(next).second == 0
  {
    var kms := k * MsPerMinute;
    var local := ref + kms;
    var w := WeekDay(Day(local));
    DaysUntilSundayFromWeekDay(w);
    var d := 7 - w;
    OffsetUnderADay(k);
    WholeDaysAhead(d);
    var day := Day(local) + d;
    assert day * MsPerDay == NextSundayMidnight(local);
    var next := day * MsPerDay - kms;
    assert InWindow(next, ref - MsPerDay, ref + 8 * MsPerDay);
    ReadingAtMidnight(zone(next), day);
  }

  /**
   * The calculator in a zone whose clock reads a steady k minutes ahead of
   * UTC from one day before the reference to eight days after it. With
   * `local` the reference on that clock and `next` the instant at which the
   * clock next shows Sunday 00:00:00: the corrected timestamp is `next`, and
   * the result is the whole seconds from the reference to `next`, from 0 to
   * 604800, where 604800 means the reference itself was Sunday midnight.
   */
  lemma SteadyZoneNextSunday(zone: Zone, k: int, ref: int)
    requires -1440 < k < 1440
    requires DayFromYear(100) * MsPerDay + 2 * MsPerDay <= ref
    requires SteadyOffset(zone, k, ref - MsPerDay, ref + 8 * MsPerDay)
    ensures var local := ref + k * MsPerMinute;
      var next := NextSundayMidnight(local) - k * MsPerMinute;
      var r := SecondsToNextSundayMidnight(zone, ref);
      && TargetUtcTimestamp(zone, TargetMidnightUtc(zone, TargetDate(zone, ref))) == next as real
      && r == (next - ref) / 1000
      && 0 <= r <= 604800
      && (r == 604800 <==> IsSundayMidnight(local))
      && zone(next).weekday == "Sun" && zone(next).hour == 0 && zone(next).minute == 0 && zone(next).second == 0
  {
    var local := ref + k * MsPerMinute;
    var next := NextSundayMidnight(local) - k * MsPerMinute;
    SteadyZoneTimestamp(zone, k, ref);
    SteadyZoneReadsSunday(zone, k, ref);
    SecondsOfTimestamp(zone, ref, next);
    SecondsToNextSundayBounds(local);
  }

  /**
   * Asked again at the moment it points to, the calculator answers a full
   * week: it always advances strictly past the current Sunday.
   */
  lemma AtNextSundayAFullWeek(zone: Zone, k: int, ref: int)
    requires -1440 < k < 1440
    requires DayFromYear(100) * MsPerDay + 2 * MsPerDay <= ref
    requires SteadyOffset(zone, k, ref - MsPerDay, ref + 15 * MsPerDay)
    ensures var next := NextSundayMidnight(ref + k * MsPerMinute) - k * MsPerMinute;
      SecondsToNextSundayMidnight(zone, next) == 604800
  {
    var next := NextSundayMidnight(ref + k * MsPerMinute) - k * MsPerMinute;
    SteadyOffsetWithin(zone, k, ref - MsPerDay, ref + 15 * MsPerDay, next - MsPerDay, next + 8 * MsPerDay);
    SteadyZoneNextSunday(zone, k, next);
  }

  /**
   * Floor division to whole seconds towards a whole-second instant `next`:
   * the reference plus the result in seconds lands within the second before
   * `next`, and on `next` itself exactly when the reference is a whole second.
   */
  lemma SecondsLanding(ref: int, next: int)
    requires next % MsPerSecond == 0
    ensures var landing := ref + (next - ref) / 1000 * 1000;
      && landing <= next < landing + 1000
      && (landing == next <==> ref % MsPerSecond == 0)
  {
    var q := (next - ref) / 1000;
    assert next - ref == 1000 * q + (next - ref) % 1000;
    assert (next - ref) % 1000 == 0 <==> ref % 1000 == 0 by {
      assert next == 1000 * (next / 1000);
      assert ref == 1000 * (next / 1000 - q - 1) + (1000 - (next - ref) % 1000);
    }
  }

  /** The instant at which a steady zone's clock next shows Sunday midnight is a whole second. */
  lemma NextSundayWholeSecond(k: int, l: int)
    ensures (NextSundayMidnight(l) - k * MsPerMinute) % MsPerSecond == 0
  {
    var n := NextSundayMidnight(l);
    assert n == Day(n) * MsPerDay;
    MidnightWholeSecond(Day(n));
    WholeMinutesKeepMilliseconds(n - k * MsPerMinute, k);
  }

  /**
   * In a steady zone the reference plus the result in seconds lands within
   * the second before the next Sunday midnight, and on it exactly when the
   * reference is a whole second.
   */
  lemma SteadyZoneLanding(zone: Zone, k: int, ref: int)
    requires -1440 < k < 1440
    requires DayFromYear(100) * MsPerDay + 2 * MsPerDay <= ref
    requires SteadyOffset(zone, k, ref - MsPerDay, ref + 8 * MsPerDay)
    ensures var next := NextSundayMidnight(ref + k * MsPerMinute) - k * MsPerMinute;
      var landing := ref + SecondsToNextSundayMidnight(zone, ref) * 1000;
      && landing <= next < landing + 1000
      && (landing == next <==> ref % MsPerSecond == 0)
  {
    SteadyZoneNextSunday(zone, k, ref);
    NextSundayWholeSecond(k, ref + k * MsPerMinute);
    SecondsLanding(ref, NextSundayMidnight(ref + k * MsPerMinute) - k * MsPerMinute);
  }

  /**
   * For a whole-second reference in a steady zone, the zone's clock reads
   * Sunday 00:00:00 at the reference plus the result in seconds.
   */
  lemma WholeSecondLandsOnSunday(zone: Zone, k: int, ref: int)
    requires -1440 < k < 1440
    requires DayFromYear(100) * MsPerDay + 2 * MsPerDay <= ref
    requires SteadyOffset(zone, k, ref - MsPerDay, ref + 8 * MsPerDay)
    requires ref % MsPerSecond == 0
    ensures var landing := ref + SecondsToNextSundayMidnight(zone, ref) * 1000;
      zone(landing).weekday == "Sun" && zone(landing).hour == 0 && zone(landing).minute == 0 && zone(landing).second == 0
  {
    SteadyZoneLanding(zone, k, ref);
    SteadyZoneReadsSunday(zone, k, ref);
  }

  /**
   * For a whole-second reference, asked again at the reference plus the
   * result in seconds, the calculator answers a full week.
   */
  lemma WholeSecondAskedAgain(zone: Zone, k: int, ref: int)
    requires -1440 < k < 1440
    requires DayFromYear(100) * MsPerDay + 2 * MsPerDay <= ref
    requires SteadyOffset(zone, k, ref - MsPerDay, ref + 15 * MsPerDay)
    requires ref % MsPerSecond == 0
    ensures SecondsToNextSundayMidnight(zone, ref + SecondsToNextSundayMidnight(zone, ref) * 1000) == 604800
  {
    SteadyOffsetWithin(zone, k, ref - MsPerDay, ref + 15 * MsPerDay, ref - MsPerDay, ref + 8 * MsPerDay);
    SteadyZoneLanding(zone, k, ref);
    AtNextSundayAFullWeek(zone, k, ref);
  }

  /** Just before a Sunday midnight, within its day, that midnight is the next one. */
  lemma JustBeforeSundayMidnight(x: int, n: int)
    requires IsSundayMidnight(n)
    requires n - MsPerDay < x < n
    ensures NextSundayMidnight(x) == n
  {
    assert n == Day(n) * MsPerDay;
    assert Day(x) == Day(n) - 1;
    assert WeekDay(Day(x)) == 6;
  }

  /**
   * In a steady zone, asked less than a second before the instant at which
   * the clock shows Sunday midnight, the calculator answers 0.
   */
  lemma AskedJustBeforeSunday(zone: Zone, k: int, t: int, n: int)
    requires -1440 < k < 1440
    requires DayFromYear(100) * MsPerDay + 2 * MsPerDay <= t
    requires SteadyOffset(zone, k, t - MsPerDay, t + 8 * MsPerDay)
    requires IsSundayMidnight(n)
    requires n - 1000 < t + k * MsPerMinute < n
    ensures SecondsToNextSundayMidnight(zone, t) == 0
  {
    SteadyZoneNextSunday(zone, k, t);
    JustBeforeSundayMidnight(t + k * MsPerMinute, n);
  }

  /** For a reference with milliseconds, where the reference plus the result in seconds falls. */
  lemma SubSecondLanding(zone: Zone, k: int, ref: int)
    requires -1440 < k < 1440
    requires DayFromYear(100) * MsPerDay + 2 * MsPerDay <= ref
    requires SteadyOffset(zone, k, ref - MsPerDay, ref + 15 * MsPerDay)
    requires ref % MsPerSecond != 0
    ensures var n := NextSundayMidnight(ref + k * MsPerMinute);
      var landing := ref + SecondsToNextSundayMidnight(zone, ref) * 1000;
      && ref <= landing <= ref + 7 * MsPerDay
      && n - 1000 < landing + k * MsPerMinute < n
  {
    SteadyOffsetWithin(zone, k, ref - MsPerDay, ref + 15 * MsPerDay, ref - MsPerDay, ref + 8 * MsPerDay);
    SteadyZoneLanding(zone, k, ref);
    SteadyZoneNextSunday(zone, k, ref);
    OffsetUnderADay(k);
  }

  /**
   * For a reference with milliseconds, the reference plus the result in
   * seconds falls short of the Sunday midnight by less than a second, and
   * asked again there the calculator answers 0.
   */
  lemma SubSecondAskedAgain(zone: Zone, k: int, ref: int)
    requires -1440 < k < 1440
    requires DayFromYear(100) * MsPerDay + 2 * MsPerDay <= ref
    requires SteadyOffset(zone, k, ref - MsPerDay, ref + 15 * MsPerDay)
    requires ref % MsPerSecond != 0
    ensures var next := NextSundayMidnight(ref + k * MsPerMinute) - k * MsPerMinute;
      var landing := ref + SecondsToNextSundayMidnight(zone, ref) * 1000;
      && next - 1000 < landing < next
      && SecondsToNextSundayMidnight(zone, landing) == 0
  {
    var n := NextSundayMidnight(ref + k * MsPerMinute);
    var landing := ref + SecondsToNextSundayMidnight(zone, ref) * 1000;
    SubSecondLanding(zone, k, ref);
    SteadyOffsetWithin(zone, k, ref - MsPerDay, ref + 15 * MsPerDay, landing - MsPerDay, landing + 8 * MsPerDay);
    AskedJustBeforeSunday(zone, k, landing, n);
  }

  /** Under UTC the result lies between 0 and 604800 for every reference from the year 100 on. */
  lemma UtcResultBounds(ref: int)
    requires DayFromYear(100) * MsPerDay + 2 * MsPerDay <= ref
    ensures 0 <= SecondsToNextSundayMidnight(FixedOffset(0), ref) <= 604800
  {
    FixedOffsetIsSteady(0, ref - MsPerDay, ref + 8 * MsPerDay);
    SteadyZoneNextSunday(FixedOffset(0), 0, ref);
  }

  /** From a local clock at `time` ms into day `day`, the next Sunday midnight is 7 - weekday days on, less that time. */
  lemma NextSundayOfDayTime(l: int, day: int, time: int)
    requires l == day * MsPerDay + time
    requires 0 <= time < MsPerDay
    ensures NextSundayMidnight(l) - l == (7 - WeekDay(day)) * MsPerDay - time
  {
    assert Day(l) == day;
  }

  /**
   * The calculator in a steady zone, read off the local clock: with the
   * reference at `time` ms into local day `day`, the result is the days to
   * Sunday less that time, in whole seconds.
   */
  lemma SteadyZoneSeconds(zone: Zone, k: int, ref: int, day: int, time: int)
    requires -1440 < k < 1440
    requires DayFromYear(100) * MsPerDay + 2 * MsPerDay <= ref
    requires SteadyOffset(zone, k, ref - MsPerDay, ref + 8 * MsPerDay)
    requires ref + k * MsPerMinute == day * MsPerDay + time
    requires 0 <= time < MsPerDay
    ensures SecondsToNextSundayMidnight(zone, ref) == ((7 - WeekDay(day)) * MsPerDay - time) / 1000
  {
    SteadyZoneNextSunday(zone, k, ref);
    NextSundayOfDayTime(ref + k * MsPerMinute, day, time);
    var next := NextSundayMidnight(ref + k * MsPerMinute) - k * MsPerMinute;
    assert next - ref == (7 - WeekDay(day)) * MsPerDay - time;
  }

  /** Tuesday 2024-04-23 10:00 in a zone reading UTC: four days and fourteen hours. */
  lemma UtcTuesdayExample(zone: Zone, ref: int)
    requires ref == DateUtc(2024, 3, 23, 10, 0, 0)
    requires SteadyOffset(zone, 0, ref - MsPerDay, ref + 8 * MsPerDay)
    ensures SecondsToNextSundayMidnight(zone, ref) == 396000
  {
    assert ref == 19836 * MsPerDay + 10 * MsPerHour by {
      DateUtcInYear(2024, 3, 23, 10, 0, 0);
    }
    assert WeekDay(19836) == 2;
    SteadyZoneSeconds(zone, 0, ref, 19836, 10 * MsPerHour);
  }

  /** Sunday 2024-04-28 00:00 in a zone reading UTC: a full week. */
  lemma UtcSundayMidnightExample(zone: Zone, ref: int)
    requires ref == DateUtc(2024, 3, 28, 0, 0, 0)
    requires SteadyOffset(zone, 0, ref - MsPerDay, ref + 8 * MsPerDay)
    ensures SecondsToNextSundayMidnight(zone, ref) == 604800
  {
    assert ref == 19841 * MsPerDay by {
      DateUtcInYear(2024, 3, 28, 0, 0, 0);
    }
    assert WeekDay(19841) == 0;
    SteadyZoneSeconds(zone, 0, ref, 19841, 0);
  }

  /** Monday 2024-12-30 23:59 in a zone reading UTC: across the new year, five days and one minute. */
  lemma UtcYearEndExample(zone: Zone, ref: int)
    requires ref == DateUtc(2024, 11, 30, 23, 59, 0)
    requires SteadyOffset(zone, 0, ref - MsPerDay, ref + 8 * MsPerDay)
    ensures SecondsToNextSundayMidnight(zone, ref) == 432060
  {
    assert ref == 20087 * MsPerDay + 23 * MsPerHour + 59 * MsPerMinute by {
      DateUtcInYear(2024, 11, 30, 23, 59, 0);
    }
    assert WeekDay(20087) == 1;
    SteadyZoneSeconds(zone, 0, ref, 20087, 23 * MsPerHour + 59 * MsPerMinute);
  }

  /**
   * Tuesday 2024-04-23 10:00 in a zone four hours behind UTC for the whole
   * week around it (New York in daylight saving time): 396000.
   */
  lemma EasternDaylightExample(zone: Zone, ref: int)
    requires ref == DateUtc(2024, 3, 23, 14, 0, 0)
    requires SteadyOffset(zone, -240, ref - MsPerDay, ref + 8 * MsPerDay)
    ensures SecondsToNextSundayMidnight(zone, ref) == 396000
  {
    assert ref == 19836 * MsPerDay + 14 * MsPerHour by {
      DateUtcInYear(2024, 3, 23, 14, 0, 0);
    }
    assert WeekDay(19836) == 2;
    SteadyZoneSeconds(zone, -240, ref, 19836, 10 * MsPerHour);
  }

  /**
   * 2024-12-22 02:48 UTC, still Saturday evening in a zone five hours behind
   * UTC (New York in standard time): 7920 seconds to its Sunday midnight.
   */
  lemma EasternStandardExample(zone: Zone, ref: int)
    requires ref == DateUtc(2024, 11, 22, 2, 48, 0)
    requires SteadyOffset(zone, -300, ref - MsPerDay, ref + 8 * MsPerDay)
    ensures SecondsToNextSundayMidnight(zone, ref) == 7920
  {
    assert ref == 20079 * MsPerDay + 2 * MsPerHour + 48 * MsPerMinute by {
      DateUtcInYear(2024, 11, 22, 2, 48, 0);
    }
    assert WeekDay(20078) == 6;
    SteadyZoneSeconds(zone, -300, ref, 20078, 21 * MsPerHour + 48 * MsPerMinute);
  }

  /**
   * Before the year 100 the offset is wrong even in a zone reading UTC:
   * Date.UTC takes the wall-clock year 50 for 1950, so getOffset at
   * 0050-01-01T00:00Z reports the minutes between the two New Year's days
   * instead of 0.
   */
  lemma TwoDigitYearOffset(zone: Zone, t: int)
    requires t == DayFromYear(50) * MsPerDay
    requires ReadsUtc(zone(t), t)
    ensures GetOffset(zone, t) == ((DayFromYear(1950) - DayFromYear(50)) * 1440) as real
  {
    var c := zone(t);
    assert Date(c.year, c.month, c.day) == Date(50, 1, 1) by {
      assert Day(t) == DayFromYear(50);
      assert IsDateOfDay(Date(50, 1, 1), DayFromYear(50));
      DateOfDayUnique(Date(c.year, c.month, c.day), Date(50, 1, 1), DayFromYear(50));
    }
    ReadingAtMidnight(c, DayFromYear(50));
    assert LocalTime(zone, t) == DayFromYear(1950) * MsPerDay by {
      MakeDayInYear(1950, 0, 1);
    }
  }

  /** A UTC reading of an instant one to seven days into the year 50 shows a date of the year 50. */
  lemma ReadingInYear50(c: Civil, ms: int)
    requires ReadsUtc(c, ms)
    requires DayFromYear(50) < Day(ms) < DayFromYear(50) + 8
    ensures c.year == 50 && 1 <= c.month <= 12 && 1 <= c.day
  {
    DayOfYearBound(c.year, c.month - 1, c.day);
    YearUnique(c.year, 50, Day(ms));
  }

  /** An instant one to seven whole days after midnight of day n lies in days n + 1 to n + 7. */
  lemma WholeDaysLater(n: int, t: int)
    requires n * MsPerDay + MsPerDay <= t <= n * MsPerDay + 7 * MsPerDay
    requires (t - n * MsPerDay) % MsPerDay == 0
    ensures n < Day(t) < n + 8
  {
    var d := (t - n * MsPerDay) / MsPerDay;
    assert t == (n + d) * MsPerDay;
  }

  /**
   * In a zone reading UTC for the week from 0050-01-01T00:00Z, the target
   * date still reads a date of the year 50, which Date.UTC takes for 1950:
   * the rebuilt midnight lies in 1950 or later.
   */
  lemma TwoDigitYearMidnight(zone: Zone, ref: int)
    requires ref == DayFromYear(50) * MsPerDay
    requires SteadyOffset(zone, 0, ref, ref + 7 * MsPerDay)
    ensures TargetMidnightUtc(zone, TargetDate(zone, ref)) >= DayFromYear(1950) * MsPerDay
  {
    var t := TargetDate(zone, ref);
    var c := zone(t);
    assert c.year == 50 && 1 <= c.month <= 12 && 1 <= c.day by {
      assert InWindow(t, ref, ref + 7 * MsPerDay);
      WholeDaysLater(DayFromYear(50), t);
      ReadingInYear50(c, t + 0 * MsPerMinute);
    }
    var lead := MonthStart(c.month - 1, InLeapYear(1950)) + c.day - 1;
    assert TargetMidnightUtc(zone, t) == (DayFromYear(1950) + lead) * MsPerDay by {
      DateUtcTwoDigitYear(c.year, c.month - 1, c.day, 0, 0, 0);
    }
    assert lead * MsPerDay >= 0;
  }

  /** In a zone reading UTC, the offset correction leaves a midnight from the year 100 on unchanged. */
  lemma UtcTimestampOfMidnight(midnight: int)
    requires midnight % MsPerDay == 0
    requires DayFromYear(100) * MsPerDay <= midnight
    ensures TargetUtcTimestamp(FixedOffset(0), midnight) == midnight as real
  {
    FixedOffsetReads(0, midnight);
    assert midnight == Day(midnight) * MsPerDay;
    MidnightWholeSecond(Day(midnight));
    TargetUtcTimestampOfSteadyZone(FixedOffset(0), 0, midnight);
  }

  /**
   * Before the year 100 the calculator's result leaves 0..604800: in a zone
   * reading UTC, asked at 0050-01-01T00:00Z, it answers at least the seconds
   * of the 1900 years between 0050 and 1950.
   */
  lemma TwoDigitYearResult(ref: int)
    requires ref == DayFromYear(50) * MsPerDay
    ensures SecondsToNextSundayMidnight(FixedOffset(0), ref) >= (DayFromYear(1950) - DayFromYear(50)) * 86400
    ensures SecondsToNextSundayMidnight(FixedOffset(0), ref) > 604800
  {
    var midnight := TargetMidnightUtc(FixedOffset(0), TargetDate(FixedOffset(0), ref));
    FixedOffsetIsSteady(0, ref, ref + 7 * MsPerDay);
    TwoDigitYearMidnight(FixedOffset(0), ref);
    UtcTimestampOfMidnight(midnight);
    SecondsOfTimestamp(FixedOffset(0), ref, midnight);
  }
}
