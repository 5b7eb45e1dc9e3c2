# seconds-to-next-sunday-midnight, modelled in Dafny

The library exports one function, `secondsToNextSundayMidnight(localeDate, timeZone)`.
It returns the whole seconds from an instant to the next Sunday 00:00:00 on the wall clock
of a named time zone. It works in these steps:

1. It asks an `Intl.DateTimeFormat` for the zone's short weekday name and turns the name into
   an index with `getWeekdayIndex`.
2. It computes `daysUntilSunday = (7 - w) % 7` and replaces 0 by 7.
3. It adds that many 86400000 ms to the instant and reads the zone's calendar date there.
4. It builds UTC midnight of that date with `Date.UTC`.
5. It moves that midnight back by the offset `getOffset` finds there. `getOffset` rebuilds the
   zone's wall-clock fields as if they were UTC and subtracts.
6. It floor-divides the distance by 1000.

The project has three modules:

- `Calendar` (calendar.dfy) covers the time arithmetic of ECMA-262 section 21.4.1 (Day,
  DayFromYear, InLeapYear, MakeTime, MakeDay, MakeDate, WeekDay) and Date.UTC of section
  21.4.3.4, including its rule that a year from 0 to 99 means 1900 + year. It works on
  unbounded integers of milliseconds since the epoch. It also proves the inverse map from a
  day number to its proleptic Gregorian date.
- `Formatter` (formatter.dfy) covers the zone formatter. A zone is any function from an
  instant to the fields the formatter reports: year, month, day, hour, minute, second and the
  short weekday name. `ReadsUtc` says what the wall clock of UTC shows. `SteadyOffset` says that
  a zone reads k minutes ahead of UTC throughout a window of instants. `FixedOffset(k)` is a
  concrete zone that is steady everywhere.
- `NextSunday` (next_sunday.dfy) covers `getWeekdayIndex`, `getOffset` and
  `secondsToNextSundayMidnight`, each intermediate value of the calculator as its own function,
  and the properties proved about them.

`getOffset` returns a JavaScript Number. It is modelled as a `real`, so that dividing by 60000
and multiplying back is exact. The distance passed to `Math.floor` is a real as well.

The main theorem is `NextSunday.SteadyZoneNextSunday`. It applies to a zone that reads a
steady k minutes ahead of UTC from one day before the reference instant to eight days after
it, with |k| below a day. For such a zone the calculator's corrected timestamp is exactly the
instant at which the zone's clock next shows Sunday 00:00:00, and the zone's formatter reads
that instant as Sunday 00:00:00. The result is the whole seconds to that instant, between 0
and 604800, and it equals 604800 exactly when the reference is itself a local Sunday midnight.

Because the result is rounded down to whole seconds, the reference plus the result lands on
that Sunday midnight only when the reference is a whole second (`SteadyZoneLanding`). Then the
zone reads the landing instant as Sunday 00:00:00, and asking again there gives 604800
(`WholeSecondLandsOnSunday`, `WholeSecondAskedAgain`). When the reference has milliseconds, the
landing instant falls less than a second before the Sunday midnight. There the zone still
shows the Saturday, and asking again gives 0 (`SubSecondAskedAgain`).

## Model

| member | source | states |
|---|---|---|
| NextSunday.GetWeekdayIndex | index.js:11-14 | The index lies in -1..6. It is -1 exactly when the name is not one of the seven. Otherwise it is the first position holding the name. |
| NextSunday.WeekdayIndexOfName | index.js:11-14 | "Sun" through "Sat" map to 0 through 6 in order. |
| NextSunday.ReadingWeekdayIndex | index.js:76-77 | The weekday a UTC reading shows is looked up as the weekday number of its day. |
| NextSunday.DaysUntilSunday | index.js:80-83 | For an index in -1..6 the day count lies in 1..7, never 0. It equals 7 exactly on a Sunday. Adding it to the weekday lands on a Sunday, a multiple of 7. |
| NextSunday.DaysUntilSundayFromWeekDay | index.js:80-83 | For a weekday index w in 0..6 the day count is 7 - w. |
| NextSunday.GetOffset | index.js:43-58 | The utc instant plus the offset times 60000 gives back the wall-clock reading rebuilt as UTC. |
| NextSunday.LocalTimeOfReading | index.js:44-53 | Date.UTC of the fields of a UTC reading, from the year 100 on, is the read instant truncated to the second. |
| NextSunday.GetOffsetOfSteadyZone | index.js:43-58 | The offset of a zone reading k minutes ahead is k minus the instant's milliseconds as a fraction of a minute. On a whole-second instant it is exactly k. |
| NextSunday.TwoDigitYearOffset | index.js:44-56 | getOffset asked at 0050-01-01T00:00Z in a zone reading UTC returns the minutes between 0050-01-01 and 1950-01-01 rather than 0, because Date.UTC reads year 50 as 1950. |
| NextSunday.LocalTime | index.js:44-53 | Date.UTC of the zone's reading at an instant. It is pinned down by LocalTimeOfReading: for a UTC reading from the year 100 on it is the instant truncated to the second. |
| NextSunday.TargetDate | index.js:86-88 | The target instant lies one to seven whole days of 86400000 ms after the reference. |
| NextSunday.TargetDateOfSteadyZone | index.js:76-88 | For a zone reading k minutes ahead at the reference, the target is the reference plus the days from the local weekday to Sunday. |
| NextSunday.TargetMidnightUtc | index.js:111-113 | The rebuilt midnight is a multiple of 86400000 ms. |
| NextSunday.MidnightOfReading | index.js:111-113 | Date.UTC of a UTC reading's date at 00:00:00, from the year 100 on, is midnight of the read day. |
| NextSunday.TargetMidnightOfSteadyZone | index.js:106-113 | The rebuilt midnight is UTC midnight of the day the zone's clock shows at the target. |
| NextSunday.TargetUtcTimestamp | index.js:116-119 | The corrected timestamp is the midnight minus the zone's lead over UTC at that midnight, a whole number of milliseconds. |
| NextSunday.TargetUtcTimestampOfSteadyZone | index.js:116-119 | For a zone reading k minutes ahead at a whole-second midnight, the corrected timestamp is the midnight minus k minutes. |
| NextSunday.SecondsToNextSundayMidnight | index.js:122-124 | The result is the floor of the distance in seconds: it is bracketed within one second below the distance. |
| NextSunday.FloorOfThousandth | index.js:122-124 | Math.floor of a whole number of milliseconds over 1000 is integer floor division, negative distances included. |
| NextSunday.SecondsOfTimestamp | index.js:122-126 | When the corrected timestamp is a whole millisecond, the result is the distance floor-divided by 1000. |
| NextSunday.NextSundayMidnight | index.js:80-88 | Reference definition: the first Sunday 00:00 strictly after a local instant. It lies within seven days, is a Sunday midnight, and is exactly seven days on if and only if the instant is itself a Sunday midnight. |
| NextSunday.NextSundayMidnightIsFirst | index.js:80-88 | No Sunday midnight lies strictly between an instant and its next Sunday midnight. |
| NextSunday.NextSundayOfDayTime | index.js:80-88 | From a local clock at a given time into a day, the next Sunday midnight is 7 - weekday days on, less that time. |
| NextSunday.SecondsToNextSundayBounds | index.js:122-126 | The whole seconds to the next Sunday midnight lie in 0..604800. They equal 604800 exactly at a Sunday midnight. |
| NextSunday.TargetMidnightDaysAhead | index.js:86-113 | In a steady zone, UTC midnight of the date read d days after the reference is midnight of the local day d days on. |
| NextSunday.SteadyZoneMidnight | index.js:76-113 | In a steady zone the rebuilt midnight is UTC midnight of the local next Sunday. |
| NextSunday.SteadyZoneTimestamp | index.js:111-119 | In a steady zone the corrected timestamp is the instant of the local next Sunday midnight. |
| NextSunday.SteadyZoneReadsSunday | index.js:116-119 | In a steady zone the formatter reads the corrected instant as Sunday 00:00:00. |
| NextSunday.SteadyZoneNextSunday | index.js:69-127 | For a zone steady over the week ahead: the corrected timestamp is the local next Sunday midnight, the result is the whole seconds to it, in 0..604800, and 604800 exactly when the reference is a local Sunday midnight. The zone reads that instant as Sunday 00:00:00. |
| NextSunday.SteadyZoneSeconds | index.js:69-127 | Read off the local clock, the result is (7 - weekday) days less the local time of day, in whole seconds. |
| NextSunday.SecondsLanding | index.js:122-124 | Flooring the distance to a whole-second instant to whole seconds lands at most 999 ms short of it, and exactly on it if and only if the start is a whole second. |
| NextSunday.NextSundayWholeSecond | index.js:116-119 | The local next Sunday midnight moved back by a whole number of minutes is a whole second. |
| NextSunday.SteadyZoneLanding | index.js:69-127 | In a steady zone, the reference plus the result in seconds lands within one second before the corrected timestamp, and on it if and only if the reference is a whole second. |
| NextSunday.WholeSecondLandsOnSunday | index.js:69-127 | In a steady zone, from a whole-second reference, the zone reads the reference plus the result in seconds as Sunday 00:00:00. |
| NextSunday.WholeSecondAskedAgain | index.js:69-127 | In a zone steady over two weeks, from a whole-second reference, asking again at the reference plus the result in seconds gives 604800. |
| NextSunday.JustBeforeSundayMidnight | index.js:80-88 | From any local instant less than a day before a Sunday midnight, that midnight is the next one. |
| NextSunday.AskedJustBeforeSunday | index.js:69-127 | In a steady zone, asked less than a second before a local Sunday midnight, the calculator answers 0. |
| NextSunday.SubSecondLanding | index.js:69-127 | From a reference with milliseconds, the reference plus the result in seconds lies within the week ahead and less than a second before the local Sunday midnight. |
| NextSunday.SubSecondAskedAgain | index.js:69-127 | From a reference with milliseconds, the reference plus the result in seconds falls short of the corrected timestamp by under a second, and asking again there gives 0, not 604800. |
| NextSunday.AtNextSundayAFullWeek | index.js:80-83 | Asked again at the instant it points to, the calculator answers a full week, 604800: it always advances strictly past the current Sunday. |
| NextSunday.UtcResultBounds | index.js:122-126 | Under the UTC zone the result lies in 0..604800. |
| NextSunday.WholeDaysLater | index.js:86-88 | An instant one to seven whole days after a midnight lies on one of the seven following days. |
| NextSunday.ReadingInYear50 | index.js:98-108 | A UTC reading of one of the first days of the year 50 reports year 50 and a valid month and date. |
| NextSunday.TwoDigitYearMidnight | index.js:106-113 | In a zone reading UTC, from 0050-01-01T00:00Z the target date reads a date of the year 50, and Date.UTC rebuilds its midnight in 1950 or later. |
| NextSunday.UtcTimestampOfMidnight | index.js:115-119 | In a zone reading UTC, the offset correction leaves a midnight from the year 100 on unchanged. |
| NextSunday.TwoDigitYearResult | index.js:106-124 | In a zone reading UTC, asked at 0050-01-01T00:00Z, the result is at least the seconds of the 1900 years from 0050 to 1950, far above 604800. |
| NextSunday.UtcTuesdayExample | test.js:8-12 | UTC, 2024-04-23T10:00Z gives 396000. |
| NextSunday.UtcSundayMidnightExample | test.js:15-21 | UTC, 2024-04-28T00:00Z, a Sunday midnight, gives 604800. |
| NextSunday.EasternDaylightExample | test.js:23-29 | A zone four hours behind UTC, 2024-04-23T10:00-04:00, gives 396000. |
| NextSunday.EasternStandardExample | test.js:31-36 | A zone five hours behind UTC, 2024-12-22T02:48Z, gives 7920. |
| NextSunday.UtcYearEndExample | test.js:39-44 | UTC, 2024-12-30T23:59Z, across the new year, gives 432060. |
| Formatter.WallClock | index.js:24-41 | The UTC reading of an instant: the proleptic Gregorian date of its day, the hour, minute and second truncated, and the weekday name. From the year 1 on these are the fields a formatter reports for UTC. |
| Formatter.FixedOffset | index.js:24-35 | A zone whose clock is a fixed number of minutes ahead of UTC. It is pinned down by FixedOffsetReads and FixedOffsetIsSteady. |
| Formatter.ReadingTime | index.js:44-53 | A UTC reading's hour, minute and second are in range and rebuild the time of day less its milliseconds. |
| Formatter.DateUtcOfReading | index.js:44-53 | Date.UTC of a UTC reading's fields, from the year 100 on, gives back the instant truncated to the second. |
| Formatter.FixedOffsetReads | index.js:24-35 | A fixed-offset zone reads its offset ahead of UTC at every instant. |
| Formatter.FixedOffsetIsSteady | index.js:24-35 | A fixed-offset zone is steady over every window. |
| Formatter.SteadyOffsetWithin | index.js:24-35 | A zone steady over a window is steady over every window inside it. |
| Calendar.WeekDay | index.js:71-77 | The weekday of a day number lies in 0..6, Sunday = 0. |
| Calendar.DateUtc | index.js:44-53 | Date.UTC of ECMA-262 section 21.4.3.4. It is pinned down by DateUtcInYear, DateUtcTwoDigitYear, CivilOfMakeDay and DateUtcNextDay, DateUtcNextMonth and DateUtcNextYear. |
| Calendar.DateUtcTwoDigitYear | index.js:111-113 | Date.UTC of a year from 0 to 99 with a month in range counts the days of the year 1900 + year. |
| Calendar.MakeDay | index.js:111-113 | MakeDay of ECMA-262 section 21.4.1. It is pinned down by MakeDayInYear, MakeDayMonthOverflow and CivilOfMakeDay. |
| Calendar.DateUtcInYear | index.js:44-53 | Date.UTC of a year outside 0..99 with a month in range is the day count of the date in whole days plus the time of day. |
| Calendar.MakeDayInYear | index.js:111-113 | With the month in 0..11, MakeDay is the first day of the year plus the days of the earlier months plus the date. |
| Calendar.DayFromYearStep | index.js:44-53 | Consecutive years start a year's length of days apart, 366 in a Gregorian leap year. |
| Calendar.DayFromYearMonotone | index.js:44-53 | Later years start at least 365 days per year later. |
| Calendar.YearOfDay | index.js:98-108 | Civil-from-days: the year whose days contain a given day number. |
| Calendar.DateInYear | index.js:98-108 | The month and date of a day of the year, valid for that year. |
| Calendar.CivilOfDay | index.js:98-108 | Civil-from-days: the calendar date of a day number is valid and has that day number. |
| Calendar.DateOfDayUnique | index.js:98-108 | A day number has only one valid calendar date. |
| Calendar.CivilOfMakeDay | index.js:111-113 | Days-from-civil followed by civil-from-days is the identity on valid dates. |
| Calendar.YearFrom | index.js:44-53 | A valid date whose day number lies from January 1 of a year on has at least that year. |
| Calendar.DayOfShift | index.js:86-88 | Adding n whole days of 86400000 ms adds n to the day number. |
| Calendar.DateUtcNextDay | index.js:44-53 | Hour 24 rolls forward to 00:00 of the next day. |
| Calendar.DateUtcNextMonth | index.js:44-53 | Hour 24 on the last day of a month rolls forward to the first of the next month. |
| Calendar.DateUtcNextYear | index.js:44-53 | Hour 24 on December 31 rolls forward to January 1 of the next year. |
| Calendar.MakeDayMonthOverflow | index.js:111-113 | A date past the end of a month is the same day as the matching date of the next month, through December into January. |

## Left out

- `Intl.DateTimeFormat` and the IANA time-zone database are foreign code. A zone is an abstract function from instants to formatter fields. Fixed-offset zones are given concretely as `FixedOffset`.
- The `formatToParts` → map → `parseInt` plumbing is not modelled: the zone returns integer fields directly.
- Floating-point rounding of JavaScript Numbers is not modelled. Instants are unbounded integers, and the offset and the distance are exact reals.
- TimeClip, the ±8.64e15 ms range of a Date, is not modelled, so no result is NaN.
- An engine whose en-US formatter prints hour "24" at midnight with `hour12: false` is not modelled. A UTC reading in the model shows hour 0.
- A zone whose offset changes within the week ahead (a daylight-saving transition) is not proved correct. The theorems assume a steady offset over that week, and the examples assume it for New York.
- SteadyZoneNextSunday: proved only for a UTC reference from 0100-01-03T00:00Z on, so the zone's own reading may start on 0100-01-02. Before the year 100 the date read at the target has a two-digit year, which Date.UTC moves to 19xx. The rebuilt midnight then lies about 1900 years later, and the result is far above 604800. The offset found at that rebuilt midnight is right; the rebuilt midnight itself is wrong. TwoDigitYearResult shows this at 0050-01-01T00:00Z.
- WallClock: before the year 1 it reports the proleptic year (0, -1, …), whereas an ECMA-402 formatter prints the year of the era, 1 - year, with an era field. This is a second reason, besides Date.UTC's two-digit years, why the theorems start at the year 100.
- UtcResultBounds: proved for references from 0100-01-03T00:00Z on rather than for every instant: at 0050-01-01T00:00Z the result is far above 604800 (TwoDigitYearResult).
- GetOffsetOfSteadyZone: proved from the year 100 on only. Asked at an instant before it, getOffset itself is wrong, because Date.UTC reads the two-digit year as 19xx (TwoDigitYearOffset).
- The test.js harness (mocha and assert) is not modelled. Its five vectors are lemmas over any zone that is steady around them.
