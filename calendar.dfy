/**
 * Time arithmetic of ECMA-262 section 21.4.1 (Day, DayFromYear, InLeapYear,
 * MakeTime, MakeDay, MakeDate, WeekDay) and the Date.UTC function of
 * section 21.4.3.4, on unbounded integers of milliseconds since
 * 1970-01-01T00:00:00Z, together with the inverse map from a day number to
 * its proleptic Gregorian calendar date.
 */
module Calendar {

  const MsPerSecond: int := 1000
  const MsPerMinute: int := 60000
  const MsPerHour: int := 3600000
  const MsPerDay: int := 86400000

  /** A calendar date; `month` counts from 1 (January) as a formatter prints it. */
  datatype Date = Date(year: int, month: int, day: int)

  /** The day number of an instant: floor(t / msPerDay). */
  function Day(t: int): int {
    t / MsPerDay
  }

  /** Milliseconds since the start of the instant's day. */
  function TimeWithinDay(t: int): int {
    t % MsPerDay
  }

  /** Day number of January 1 of year y. */
  function DayFromYear(y: int): int {
    365 * (y - 1970) + (y - 1969) / 4 - (y - 1901) / 100 + (y - 1601) / 400
  }

  predicate InLeapYear(y: int) {
    y % 4 == 0 && (y % 100 != 0 || y % 400 == 0)
  }

  function DaysInYear(y: int): int {
    if InLeapYear(y) then 366 else 365
  }

  /** Days from January 1 to the first day of month m (0 = January, 12 = the next January 1). */
  function MonthStart(m: int, leap: bool): int
    requires 0 <= m <= 12
  {
    var l := if leap then 1 else 0;
    if m < 6 then
      if m < 3 then (if m == 0 then 0 else if m == 1 then 31 else 59 + l)
      else (if m == 3 then 90 + l else if m == 4 then 120 + l else 151 + l)
    else if m < 9 then (if m == 6 then 181 + l else if m == 7 then 212 + l else 243 + l)
    else (if m == 9 then 273 + l else if m == 10 then 304 + l else if m == 11 then 334 + l else 365 + l)
  }

  /** Length of month m (0 = January) of year y. */
  function DaysInMonth(y: int, m: int): int
    requires 0 <= m < 12
  {
    MonthStart(m + 1, InLeapYear(y)) - MonthStart(m, InLeapYear(y))
  }

  /** Day of the week, 0 = Sunday; day 0 (1970-01-01) was a Thursday. */
  function WeekDay(day: int): (w: int)
    ensures 0 <= w < 7
  {
    (day + 4) % 7
  }

  function MakeTime(hour: int, min: int, sec: int, ms: int): int {
    hour * MsPerHour + min * MsPerMinute + sec * MsPerSecond + ms
  }

  /**
   * The day number of day `date` of month `month` (0 = January) of `year`.
   * A month outside 0..11 moves into another year, and a date outside the
   * month moves into another month, both by plain addition.
   */
  function MakeDay(year: int, month: int, date: int): int {
    var ym := year + month / 12;
    var mn := month % 12;
    DayFromYear(ym) + MonthStart(mn, InLeapYear(ym)) + date - 1
  }

  function MakeDate(day: int, time: int): int {
    day * MsPerDay + time
  }

  /**
   * Date.UTC(year, month, date, hours, minutes, seconds): the instant whose
   * UTC reading is the given fields; a year from 0 to 99 is read as 1900 + year.
   */
  function DateUtc(year: int, month: int, date: int, hours: int, minutes: int, seconds: int): int {
    var yr := if 0 <= year <= 99 then 1900 + year else year;
    MakeDate(MakeDay(yr, month, date), MakeTime(hours, minutes, seconds, 0))
  }

  /** Within months 0..11 MakeDay stays in the given year. */
  lemma MakeDayInYear(y: int, m: int, d: int)
    requires 0 <= m < 12
    ensures MakeDay(y, m, d) == DayFromYear(y) + MonthStart(m, InLeapYear(y)) + d - 1
  {
    assert m / 12 == 0 && m % 12 == m;
  }

  /**
   * Date.UTC of a year outside 0..99 and a month in range: the day count of
   * the date, in whole days, plus the time of day.
   */
  lemma DateUtcInYear(y: int, m: int, d: int, h: int, mi: int, s: int)
    requires !(0 <= y <= 99) && 0 <= m < 12
    ensures DateUtc(y, m, d, h, mi, s)
      == (DayFromYear(y) + MonthStart(m, InLeapYear(y)) + d - 1) * MsPerDay + MakeTime(h, mi, s, 0)
  {
    MakeDayInYear(y, m, d);
  }

  /** Date.UTC of a year from 0 to 99 counts the days of the year 1900 + year instead. */
  lemma DateUtcTwoDigitYear(y: int, m: int, d: int, h: int, mi: int, s: int)
    requires 0 <= y <= 99 && 0 <= m < 12
    ensures DateUtc(y, m, d, h, mi, s)
      == (DayFromYear(1900 + y) + MonthStart(m, InLeapYear(1900 + y)) + d - 1) * MsPerDay + MakeTime(h, mi, s, 0)
  {
    MakeDayInYear(1900 + y, m, d);
  }

  /** Adding whole seconds leaves the milliseconds within the second unchanged. */
  lemma ModSecondShift(a: int, b: int)
    ensures (MsPerSecond * a + b) % MsPerSecond == b % MsPerSecond
  {
    assert MsPerSecond * a + b == MsPerSecond * (a + b / MsPerSecond) + b % MsPerSecond;
  }

  /** Moving an instant by n whole days moves its day number by n. */
  lemma DayOfShift(t: int, n: int)
    ensures Day(t + n * MsPerDay) == Day(t) + n
  {
    assert t + n * MsPerDay == MsPerDay * (Day(t) + n) + TimeWithinDay(t);
  }

  /** A midnight is a whole second. */
  lemma MidnightWholeSecond(day: int)
    ensures (day * MsPerDay) % MsPerSecond == 0
  {
    assert day * MsPerDay == MsPerSecond * (day * 86400);
  }

  /** Consecutive years are DaysInYear apart. */
  lemma DayFromYearStep(y: int)
    ensures DayFromYear(y + 1) == DayFromYear(y) + DaysInYear(y)
  {
    var fours := (y + 1 - 1969) / 4 - (y - 1969) / 4;
    var hundreds := (y + 1 - 1901) / 100 - (y - 1901) / 100;
    var fourHundreds := (y + 1 - 1601) / 400 - (y - 1601) / 400;
    assert fours == if y % 4 == 0 then 1 else 0 by {
      FloorStep(y - 1969, 4);
      assert (y - 1968) % 4 == y % 4;
    }
    assert hundreds == if y % 100 == 0 then 1 else 0 by {
      FloorStep(y - 1901, 100);
      assert (y - 1900) % 100 == y % 100;
    }
    assert fourHundreds == if y % 400 == 0 then 1 else 0 by {
      FloorStep(y - 1601, 400);
      assert (y - 1600) % 400 == y % 400;
    }
    assert DaysInYear(y) == 365 + fours - hundreds + fourHundreds by {
      LeapDivisors(y);
    }
  }

  /** A multiple of 400 is a multiple of 100, and a multiple of 100 one of 4. */
  lemma LeapDivisors(y: int)
    ensures y % 400 == 0 ==> y % 100 == 0
    ensures y % 100 == 0 ==> y % 4 == 0
  {
    if y % 400 == 0 {
      DivUnique(y, 100, 4 * (y / 400), 0);
    }
    if y % 100 == 0 {
      DivUnique(y, 4, 25 * (y / 100), 0);
    }
  }

  /** Quotient and remainder are the only ones with the remainder in range. */
  lemma DivUnique(a: int, n: int, q: int, r: int)
    requires 0 <= r < n && a == n * q + r
    ensures a / n == q && a % n == r
  {
    var q', r' := a / n, a % n;
    assert n * (q - q') == r' - r;
    if q > q' {
      MulAtLeast(n, q - q');
    } else if q < q' {
      MulAtLeast(n, q' - q);
    }
  }

  /** A positive multiple of n is at least n. */
  lemma MulAtLeast(n: int, k: int)
    requires 0 < n && 1 <= k
    ensures n <= n * k
  {
  }

  /** Floor division by n goes up by one exactly where the next number is a multiple of n. */
  lemma FloorStep(a: int, n: int)
    requires 0 < n
    ensures (a + 1) / n - a / n == if (a + 1) % n == 0 then 1 else 0
  {
    var q, r := a / n, a % n;
    if r == n - 1 {
      DivUnique(a + 1, n, q + 1, 0);
    } else {
      DivUnique(a + 1, n, q, r + 1);
    }
  }

  /** Later years start at least 365 days per year later. */
  lemma {:induction false} DayFromYearMonotone(a: int, b: int)
    requires a <= b
    ensures DayFromYear(b) - DayFromYear(a) >= 365 * (b - a)
    decreases b - a
  {
    if a < b {
      DayFromYearMonotone(a + 1, b);
      DayFromYearStep(a);
    }
  }

  /** The year containing a day is unique. */
  lemma YearUnique(a: int, b: int, n: int)
    requires DayFromYear(a) <= n < DayFromYear(a) + DaysInYear(a)
    requires DayFromYear(b) <= n < DayFromYear(b) + DaysInYear(b)
    ensures a == b
  {
    if a < b {
      DayFromYearStep(a);
      DayFromYearMonotone(a + 1, b);
    } else if b < a {
      DayFromYearStep(b);
      DayFromYearMonotone(b + 1, a);
    }
  }

  /**
   * January 1 of year 1601 + 400e + 100c + 4q + yy, counted through
   * 400-year eras (146097 days), centuries (36524 days), four-year blocks
   * (1461 days) and years.
   */
  lemma EraDecomposition(e: int, c: int, q: int, yy: int)
    requires 0 <= c <= 3 && 0 <= q <= 24 && 0 <= yy <= 3
    ensures DayFromYear(1601 + 400 * e + 100 * c + 4 * q + yy)
              == 146097 * e + 36524 * c + 1461 * q + 365 * yy - 134774
  {
    var y := 1601 + 400 * e + 100 * c + 4 * q + yy;
    assert (y - 1969) / 4 == 100 * e + 25 * c + q - 92;
    assert (y - 1901) / 100 == 4 * e + c - 3;
    assert (y - 1601) / 400 == e;
  }

  /**
   * Splits a day offset r within a 400-year era that starts on January 1 of
   * a year 1601 + 400k into centuries c, four-year blocks q, years yy and a
   * remaining day of the year.
   */
  function EraSplit(r: int): (s: (int, int, int, int))
    requires 0 <= r < 146097
    ensures var (c, q, yy, doy) := s;
      && 0 <= c <= 3 && 0 <= q <= 24 && 0 <= yy <= 3 && 0 <= doy <= 365
      && r == 36524 * c + 1461 * q + 365 * yy + doy
      && (doy == 365 ==> yy == 3 && (q < 24 || c == 3))
  {
    var c := if r / 36524 < 3 then r / 36524 else 3;
    var r2 := r - 36524 * c;
    var q := r2 / 1461;
    var r3 := r2 % 1461;
    var yy := if r3 / 365 < 3 then r3 / 365 else 3;
    (c, q, yy, r3 - 365 * yy)
  }

  /** The last year of a four-year block is a leap year, except at the end of a century not divisible by 400. */
  lemma LeapAtBlockEnd(e: int, c: int, q: int)
    requires 0 <= c <= 3 && 0 <= q <= 24 && (q < 24 || c == 3)
    ensures InLeapYear(1604 + 400 * e + 100 * c + 4 * q)
  {
    var y := 1604 + 400 * e + 100 * c + 4 * q;
    if q == 24 {
      assert y == 400 * (e + 5);
    } else {
      assert y == 100 * (4 * e + c + 16) + (4 + 4 * q);
      assert y % 100 == 4 + 4 * q;
    }
  }

  /** The year containing day n. */
  function YearOfDay(n: int): (y: int)
    ensures DayFromYear(y) <= n < DayFromYear(y) + DaysInYear(y)
  {
    var z := n + 134774;  // days since 1601-01-01
    var era := z / 146097;
    var (c, q, yy, doy) := EraSplit(z % 146097);
    var y := 1601 + 400 * era + 100 * c + 4 * q + yy;
    EraDecomposition(era, c, q, yy);
    assert doy == 365 ==> InLeapYear(y) by {
      if doy == 365 {
        LeapAtBlockEnd(era, c, q);
      }
    }
    y
  }

  /** The month (0 = January) containing day-of-year `doy`, searching down from month m. */
  function MonthContaining(doy: int, leap: bool, m: int): (month: int)
    requires 0 <= m < 12 && 0 <= doy < MonthStart(m + 1, leap)
    ensures 0 <= month <= m
    ensures MonthStart(month, leap) <= doy < MonthStart(month + 1, leap)
    decreases m
  {
    if m == 0 || MonthStart(m, leap) <= doy then m else MonthContaining(doy, leap, m - 1)
  }

  /** The date of day-of-year `doy` (0 = January 1) of year y. */
  function DateInYear(y: int, doy: int): (d: Date)
    requires 0 <= doy < DaysInYear(y)
    ensures d.year == y && 1 <= d.month <= 12 && 1 <= d.day <= DaysInMonth(y, d.month - 1)
    ensures doy == MonthStart(d.month - 1, InLeapYear(y)) + d.day - 1
  {
    var leap := InLeapYear(y);
    var m := MonthContaining(doy, leap, 11);
    Date(y, m + 1, doy - MonthStart(m, leap) + 1)
  }

  /** d is a valid calendar date and n is its day number. */
  predicate IsDateOfDay(d: Date, n: int) {
    && 1 <= d.month <= 12 && 1 <= d.day <= DaysInMonth(d.year, d.month - 1)
    && n == DayFromYear(d.year) + MonthStart(d.month - 1, InLeapYear(d.year)) + d.day - 1
  }

  /** The calendar date of day number n. */
  function CivilOfDay(n: int): (d: Date)
    ensures IsDateOfDay(d, n)
  {
    var y := YearOfDay(n);
    DateInYear(y, n - DayFromYear(y))
  }

  /** Months start strictly later in the year, one after another. */
  lemma {:induction false} MonthStartIncreasing(i: int, j: int, leap: bool)
    requires 0 <= i < j <= 12
    ensures MonthStart(i, leap) < MonthStart(j, leap)
    decreases j - i
  {
    if i + 1 < j {
      MonthStartIncreasing(i + 1, j, leap);
    }
  }

  /** The month containing a day of the year is unique. */
  lemma MonthUnique(a: int, b: int, leap: bool, doy: int)
    requires 0 <= a < 12 && MonthStart(a, leap) <= doy < MonthStart(a + 1, leap)
    requires 0 <= b < 12 && MonthStart(b, leap) <= doy < MonthStart(b + 1, leap)
    ensures a == b
  {
    if a < b {
      MonthStartIncreasing(a + 1, b, leap);
    } else if b < a {
      MonthStartIncreasing(b + 1, a, leap);
    }
  }

  /** A valid date lies within its year. */
  lemma DayOfYearBound(y: int, m: int, d: int)
    requires 0 <= m < 12 && 1 <= d <= DaysInMonth(y, m)
    ensures 0 <= MonthStart(m, InLeapYear(y)) + d - 1 < DaysInYear(y)
  {
    if m < 11 {
      MonthStartIncreasing(m + 1, 12, InLeapYear(y));
    }
  }

  /** A day number has one calendar date. */
  lemma DateOfDayUnique(a: Date, b: Date, n: int)
    requires IsDateOfDay(a, n) && IsDateOfDay(b, n)
    ensures a == b
  {
    assert a.year == b.year by {
      DayOfYearBound(a.year, a.month - 1, a.day);
      DayOfYearBound(b.year, b.month - 1, b.day);
      YearUnique(a.year, b.year, n);
    }
    MonthUnique(a.month - 1, b.month - 1, InLeapYear(a.year), n - DayFromYear(a.year));
  }

  /** MakeDay of a valid date gives its day number, whose calendar date is that date again. */
  lemma CivilOfMakeDay(y: int, m: int, d: int)
    requires 0 <= m < 12 && 1 <= d <= DaysInMonth(y, m)
    ensures IsDateOfDay(Date(y, m + 1, d), MakeDay(y, m, d))
    ensures CivilOfDay(MakeDay(y, m, d)) == Date(y, m + 1, d)
  {
    MakeDayInYear(y, m, d);
    DateOfDayUnique(CivilOfDay(MakeDay(y, m, d)), Date(y, m + 1, d), MakeDay(y, m, d));
  }

  /** A day on or after January 1 of year y has a date in year y or later. */
  lemma YearFrom(d: Date, n: int, y: int)
    requires IsDateOfDay(d, n) && DayFromYear(y) <= n
    ensures d.year >= y
  {
    if d.year < y {
      DayOfYearBound(d.year, d.month - 1, d.day);
      DayFromYearStep(d.year);
      DayFromYearMonotone(d.year + 1, y);
    }
  }

  /** Hour 24 of a date that is not the last of its month is 00:00 of the next date. */
  lemma DateUtcNextDay(y: int, m: int, d: int)
    requires !(0 <= y <= 99)
    requires 0 <= m < 12 && 1 <= d < DaysInMonth(y, m)
    ensures DateUtc(y, m, d, 24, 0, 0) == DateUtc(y, m, d + 1, 0, 0, 0)
  {
  }

  /** Hour 24 of the last day of a month other than December is 00:00 on the first of the next month. */
  lemma DateUtcNextMonth(y: int, m: int)
    requires !(0 <= y <= 99)
    requires 0 <= m < 11
    ensures DateUtc(y, m, DaysInMonth(y, m), 24, 0, 0) == DateUtc(y, m + 1, 1, 0, 0, 0)
  {
    MakeDayMonthOverflow(y, m, 1);
  }

  /** Hour 24 of December 31 is 00:00 on January 1 of the next year. */
  lemma DateUtcNextYear(y: int)
    requires y < -1 || 99 < y
    ensures DateUtc(y, 11, 31, 24, 0, 0) == DateUtc(y + 1, 0, 1, 0, 0, 0)
  {
    assert MakeDay(y, 11, 32) == MakeDay(y + 1, 0, 1) by {
      MakeDayMonthOverflow(y, 11, 1);
      assert MakeDay(y, 12, 1) == MakeDay(y + 1, 0, 1);
    }
    assert DateUtc(y, 11, 31, 24, 0, 0) == MakeDay(y, 11, 32) * MsPerDay;
  }

  /** A day past the end of a month is the same day as the first of the next month. */
  lemma MakeDayMonthOverflow(y: int, m: int, extra: int)
    requires 0 <= m < 12
    ensures MakeDay(y, m, DaysInMonth(y, m) + extra) == MakeDay(y, m + 1, extra)
  {
    if m < 11 {
      MakeDayInYear(y, m, DaysInMonth(y, m) + extra);
      MakeDayInYear(y, m + 1, extra);
    } else {
      assert MakeDay(y, 11, DaysInMonth(y, 11) + extra) == DayFromYear(y) + DaysInYear(y) + extra - 1 by {
        MakeDayInYear(y, 11, DaysInMonth(y, 11) + extra);
      }
      assert MakeDay(y, 12, extra) == DayFromYear(y) + DaysInYear(y) + extra - 1 by {
        DayFromYearStep(y);
      }
    }
  }
}
