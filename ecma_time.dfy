/**
 * The time-value arithmetic of ECMA-262 section 21.4.1 ("Overview of Date
 * Objects and Definitions of Abstract Operations") on integers: a time value
 * is a count of milliseconds since 1970-01-01T00:00:00Z, and Day, YearFromTime,
 * MonthFromTime, DateFromTime, HourFromTime, MinFromTime, SecFromTime and
 * WeekDay take it apart. MakeTime, MakeDay and MakeDate put it back together.
 *
 * Dafny's `/` and `%` with a positive divisor are floor division and a
 * non-negative remainder, exactly the `floor(x / y)` and `x modulo y` of the
 * standard.
 */
module EcmaTime {
  import opened Common

  const MsPerSecond: int := 1000
  const MsPerMinute: int := 60_000
  const MsPerHour: int := 3_600_000
  const MsPerDay: int := 86_400_000
  /** Days in 400 Gregorian years. */
  const DaysPer400Years: int := 146_097
  /** The largest magnitude of a time value (section 21.4.1.1, "Time Values and Time Range"). */
  const MaxTimeValue: int := 8_640_000_000_000_000

  /** TimeClip (section 21.4.1.31) on an integer: values out of range become NaN (None). */
  function TimeClip(t: int): (r: Option<int>)
    ensures r.Some? <==> -MaxTimeValue <= t <= MaxTimeValue
    ensures r.Some? ==> r.value == t
  {
    if t < -MaxTimeValue || MaxTimeValue < t then None else Some(t)
  }

  // ---------------------------------------------------------------------
  // Integer division facts
  // ---------------------------------------------------------------------

  /** Floor division and modulo are determined by the decomposition a == n * q + r. */
  lemma DivModUnique(a: int, n: int, q: int, r: int)
    requires 0 < n && a == n * q + r && 0 <= r < n
    ensures a / n == q && a % n == r
  {
    var q', r' := a / n, a % n;
    assert a == n * q' + r' && 0 <= r' < n;
    if q' < q {
      assert n * q - n * q' == n * (q - q');
      MulAtLeast(n, q - q');
    } else if q < q' {
      assert n * q' - n * q == n * (q' - q);
      MulAtLeast(n, q' - q);
    }
  }

  lemma MulAtLeast(n: int, k: int)
    requires 0 < n && 1 <= k
    ensures n <= n * k
  {
  }

  /** Adding one to the numerator raises the floor quotient exactly when it hits a multiple. */
  lemma FloorStep(a: int, n: int)
    requires 0 < n
    ensures (a + 1) / n == a / n + (if (a + 1) % n == 0 then 1 else 0)
  {
    var q, r := a / n, a % n;
    if r == n - 1 {
      DivModUnique(a + 1, n, q + 1, 0);
    } else {
      DivModUnique(a + 1, n, q, r + 1);
    }
  }

  // ---------------------------------------------------------------------
  // Days and years (sections 21.4.1.3 to 21.4.1.10)
  // ---------------------------------------------------------------------

  /** Day(t): the number of the day that contains time value t. */
  function Day(t: int): int {
    t / MsPerDay
  }

  /** DaysInYear(y): the Gregorian leap-year rule. */
  function DaysInYear(y: int): int {
    if y % 4 != 0 then 365
    else if y % 100 != 0 then 366
    else if y % 400 != 0 then 365
    else 366
  }

  /** InLeapYear as 0 or 1. */
  function LeapDays(y: int): (r: int)
    ensures r == DaysInYear(y) - 365
  {
    if DaysInYear(y) == 366 then 1 else 0
  }

  /** DayFromYear(y): the day number of the first day of year y. */
  function DayFromYear(y: int): int {
    365 * (y - 1970) + (y - 1969) / 4 - (y - 1901) / 100 + (y - 1601) / 400
  }

  /** Moving past year y adds one to the count of multiples of n exactly when n divides y. */
  lemma MultipleCountStep(y: int, n: int, j: int)
    requires 0 < n
    ensures (y - n * j) / n == (y - n * j - 1) / n + (if y % n == 0 then 1 else 0)
  {
    FloorStep(y - n * j - 1, n);
    DivModUnique(y - n * j, n, y / n - j, y % n);
  }

  /** A multiple of a * b is a multiple of a. */
  lemma MultipleOfFactor(y: int, a: int, b: int)
    requires 0 < a && 0 < b && y % (a * b) == 0
    ensures y % a == 0
  {
    DivModUnique(y, a, b * (y / (a * b)), 0);
  }

  /** The closed formula of DayFromYear agrees with the leap-year rule of DaysInYear. */
  lemma DaysInYearStep(y: int)
    ensures DayFromYear(y + 1) == DayFromYear(y) + DaysInYear(y)
  {
    MultipleCountStep(y, 4, 492);
    MultipleCountStep(y, 100, 19);
    MultipleCountStep(y, 400, 4);
    if y % 100 == 0 {
      MultipleOfFactor(y, 4, 25);
    }
    if y % 400 == 0 {
      MultipleOfFactor(y, 100, 4);
    }
  }

  /** Every 400 years the calendar repeats, 146097 days later. */
  lemma CycleStart(q: int)
    ensures DayFromYear(1970 + 400 * q) == DaysPer400Years * q
  {
    DivModUnique(1 + 400 * q, 4, 100 * q, 1);
    DivModUnique(69 + 400 * q, 100, 4 * q, 69);
    DivModUnique(369 + 400 * q, 400, q, 369);
  }

  lemma {:induction false} DayFromYearMonotone(a: int, b: int)
    requires a < b
    ensures DayFromYear(a + 1) <= DayFromYear(b)
    decreases b - a
  {
    DaysInYearStep(a);
    if a + 1 < b {
      DayFromYearMonotone(a + 1, b);
      DaysInYearStep(a + 1);
    }
  }

  /** Walks forward from a year that starts no later than day d. */
  function YearSearch(d: int, y: int): (r: int)
    requires DayFromYear(y) <= d
    ensures y <= r
    ensures DayFromYear(r) <= d < DayFromYear(r + 1)
    decreases d - DayFromYear(y)
  {
    DaysInYearStep(y);
    if d < DayFromYear(y + 1) then y else YearSearch(d, y + 1)
  }

  /** The year that contains day number d. */
  function YearFromDay(d: int): (y: int)
    ensures DayFromYear(y) <= d < DayFromYear(y + 1)
  {
    var q := d / DaysPer400Years;
    CycleStart(q);
    YearSearch(d, 1970 + 400 * q)
  }

  /**
   * YearFromTime(t) is "the largest integral Number y (closest to +infinity)
   * such that TimeFromYear(y) <= t": no later year starts on or before its day,
   * and it is the only year whose days contain that day.
   */
  lemma YearFromDayIsLargest(d: int, y: int)
    ensures DayFromYear(y) <= d ==> y <= YearFromDay(d)
    ensures DayFromYear(y) <= d < DayFromYear(y + 1) ==> y == YearFromDay(d)
  {
    var r := YearFromDay(d);
    if r < y {
      DayFromYearMonotone(r, y);
    }
    if y < r {
      DayFromYearMonotone(y, r);
    }
  }

  function YearFromTime(t: int): int {
    YearFromDay(Day(t))
  }

  /** DayWithinYear(t) */
  function DayWithinYear(t: int): (r: int)
    ensures 0 <= r < DaysInYear(YearFromTime(t))
  {
    var y := YearFromTime(t);
    DaysInYearStep(y);
    Day(t) - DayFromYear(y)
  }

  // ---------------------------------------------------------------------
  // Months, dates and weekdays (sections 21.4.1.11 to 21.4.1.13)
  // ---------------------------------------------------------------------

  /** The day within the year on which month m (0 = January) starts; MonthStart(12, _) is the year's length. */
  function MonthStart(m: int, leap: int): int
    requires 0 <= m <= 12 && 0 <= leap <= 1
  {
    var base := [0, 31, 59, 90, 120, 151, 181, 212, 243, 273, 304, 334, 365][m];
    if m >= 2 then base + leap else base
  }

  /** Months start in order, the first on day 0, and the year ends after the last. */
  lemma MonthStartOrdered(m: int, leap: int)
    requires 0 <= m < 12 && 0 <= leap <= 1
    ensures 0 <= MonthStart(m, leap) < MonthStart(m + 1, leap) <= MonthStart(12, leap) == 365 + leap
  {
  }

  /** The number of days of month m. */
  function DaysInMonth(m: int, leap: int): int
    requires 0 <= m < 12 && 0 <= leap <= 1
  {
    MonthStart(m + 1, leap) - MonthStart(m, leap)
  }

  /** The chain of comparisons of MonthFromTime, on the day within the year. */
  function MonthOfDay(dwy: int, leap: int): (m: int)
    requires 0 <= leap <= 1 && 0 <= dwy < 365 + leap
    ensures 0 <= m < 12
    ensures MonthStart(m, leap) <= dwy < MonthStart(m + 1, leap)
  {
    if dwy < 31 then 0
    else if dwy < 59 + leap then 1
    else if dwy < 90 + leap then 2
    else if dwy < 120 + leap then 3
    else if dwy < 151 + leap then 4
    else if dwy < 181 + leap then 5
    else if dwy < 212 + leap then 6
    else if dwy < 243 + leap then 7
    else if dwy < 273 + leap then 8
    else if dwy < 304 + leap then 9
    else if dwy < 334 + leap then 10
    else 11
  }

  /** Month starts increase with the month, so a day belongs to one month only. */
  lemma MonthOfDayUnique(dwy: int, leap: int, m: int)
    requires 0 <= leap <= 1 && 0 <= m < 12
    requires MonthStart(m, leap) <= dwy < MonthStart(m + 1, leap)
    ensures MonthOfDay(dwy, leap) == m
  {
  }

  /** MonthFromTime(t): 0 for January through 11 for December. */
  function MonthFromTime(t: int): (m: int)
    ensures 0 <= m < 12
  {
    var y := YearFromTime(t);
    MonthOfDay(DayWithinYear(t), LeapDays(y))
  }

  /** DateFromTime(t): the day of the month, from 1. */
  function DateFromTime(t: int): (d: int)
    ensures 1 <= d <= DaysInMonth(MonthFromTime(t), LeapDays(YearFromTime(t)))
  {
    var leap := LeapDays(YearFromTime(t));
    DayWithinYear(t) - MonthStart(MonthFromTime(t), leap) + 1
  }

  /** WeekDay(t): 0 for Sunday; 1970-01-01 was a Thursday. */
  function WeekDay(t: int): (w: int)
    ensures 0 <= w < 7
  {
    (Day(t) + 4) % 7
  }

  // ---------------------------------------------------------------------
  // Hours, minutes, seconds and milliseconds (sections 21.4.1.14 to 21.4.1.17)
  // ---------------------------------------------------------------------

  function HourFromTime(t: int): (h: int)
    ensures 0 <= h < 24
  {
    (t / MsPerHour) % 24
  }

  function MinFromTime(t: int): (m: int)
    ensures 0 <= m < 60
  {
    (t / MsPerMinute) % 60
  }

  function SecFromTime(t: int): (s: int)
    ensures 0 <= s < 60
  {
    (t / MsPerSecond) % 60
  }

  function MsFromTime(t: int): (ms: int)
    ensures 0 <= ms < 1000
  {
    t % MsPerSecond
  }

  // ---------------------------------------------------------------------
  // Decomposition and its inverse (sections 21.4.1.27 to 21.4.1.29)
  // ---------------------------------------------------------------------

  /** The calendar fields of a time value in UTC; month counts from 0. */
  datatype DateTimeFields = DateTimeFields(
    year: int, month: int, date: int,
    hours: int, minutes: int, seconds: int, ms: int)

  /** Fields that name an existing instant: a real month, a date inside it, a time inside the day. */
  predicate ValidFields(f: DateTimeFields) {
    && 0 <= f.month < 12
    && 1 <= f.date <= DaysInMonth(f.month, LeapDays(f.year))
    && 0 <= f.hours < 24 && 0 <= f.minutes < 60 && 0 <= f.seconds < 60 && 0 <= f.ms < 1000
  }

  function Decompose(t: int): (f: DateTimeFields)
    ensures ValidFields(f)
  {
    DateTimeFields(YearFromTime(t), MonthFromTime(t), DateFromTime(t),
                   HourFromTime(t), MinFromTime(t), SecFromTime(t), MsFromTime(t))
  }

  /** MakeTime(hour, min, sec, ms) on integers. */
  function MakeTime(h: int, m: int, s: int, ms: int): int {
    h * MsPerHour + m * MsPerMinute + s * MsPerSecond + ms
  }

  /** MakeDay(year, month, date) for a month already in 0..11. */
  function MakeDay(y: int, m: int, date: int): int
    requires 0 <= m < 12
  {
    DayFromYear(y) + MonthStart(m, LeapDays(y)) + date - 1
  }

  /** MakeDate(day, time) */
  function MakeDate(day: int, time: int): int {
    day * MsPerDay + time
  }

  function Compose(f: DateTimeFields): int
    requires 0 <= f.month < 12
  {
    MakeDate(MakeDay(f.year, f.month, f.date), MakeTime(f.hours, f.minutes, f.seconds, f.ms))
  }

  /** A time value is its day number and the hours, minutes, seconds and milliseconds into that day. */
  lemma TimeOfDayParts(t: int)
    ensures t == Day(t) * MsPerDay
               + MakeTime(HourFromTime(t), MinFromTime(t), SecFromTime(t), MsFromTime(t))
  {
    var s, ms := t / 1000, t % 1000;
    var mi, sec := s / 60, s % 60;
    var h, min := mi / 60, mi % 60;
    var d, hr := h / 24, h % 24;
    DivModUnique(t, MsPerMinute, mi, 1000 * sec + ms);
    DivModUnique(t, MsPerHour, h, 60_000 * min + 1000 * sec + ms);
    DivModUnique(t, MsPerDay, d, 3_600_000 * hr + 60_000 * min + 1000 * sec + ms);
  }

  /** Decomposing a time value and composing the fields gives the time value back. */
  lemma ComposeDecompose(t: int)
    ensures Compose(Decompose(t)) == t
  {
    TimeOfDayParts(t);
  }

  /** The time-of-day half of DecomposeCompose. */
  lemma TimeFieldsRoundTrip(day: int, h: int, mi: int, sec: int, ms: int)
    requires 0 <= h < 24 && 0 <= mi < 60 && 0 <= sec < 60 && 0 <= ms < 1000
    ensures var t := MakeDate(day, MakeTime(h, mi, sec, ms));
      Day(t) == day && HourFromTime(t) == h && MinFromTime(t) == mi
      && SecFromTime(t) == sec && MsFromTime(t) == ms
  {
    var t := MakeDate(day, MakeTime(h, mi, sec, ms));
    var s := 86_400 * day + 3600 * h + 60 * mi + sec;
    DivModUnique(t, MsPerDay, day, MakeTime(h, mi, sec, ms));
    DivModUnique(t, MsPerSecond, s, ms);
    DivModUnique(s, 60, 1440 * day + 60 * h + mi, sec);
    DivModUnique(t, MsPerMinute, 1440 * day + 60 * h + mi, 1000 * sec + ms);
    DivModUnique(1440 * day + 60 * h + mi, 60, 24 * day + h, mi);
    DivModUnique(t, MsPerHour, 24 * day + h, 60_000 * mi + 1000 * sec + ms);
    DivModUnique(24 * day + h, 24, day, h);
  }

  /** A day made from a year, month and date lies in that year. */
  lemma DayFieldsYear(y: int, m: int, date: int)
    requires 0 <= m < 12 && 1 <= date <= DaysInMonth(m, LeapDays(y))
    ensures YearFromDay(MakeDay(y, m, date)) == y
  {
    var d := MakeDay(y, m, date);
    DaysInYearStep(y);
    MonthStartOrdered(m, LeapDays(y));
    assert DayFromYear(y) <= d < DayFromYear(y + 1);
    YearFromDayIsLargest(d, y);
  }

  /** ... and in that month of the year. */
  lemma DayFieldsMonth(y: int, m: int, date: int)
    requires 0 <= m < 12 && 1 <= date <= DaysInMonth(m, LeapDays(y))
    ensures MonthOfDay(MakeDay(y, m, date) - DayFromYear(y), LeapDays(y)) == m
  {
    MonthStartOrdered(m, LeapDays(y));
    MonthOfDayUnique(MakeDay(y, m, date) - DayFromYear(y), LeapDays(y), m);
  }

  /** Composing valid fields and decomposing the result gives the fields back. */
  lemma DecomposeCompose(f: DateTimeFields)
    requires ValidFields(f)
    ensures Decompose(Compose(f)) == f
  {
    TimeFieldsRoundTrip(MakeDay(f.year, f.month, f.date), f.hours, f.minutes, f.seconds, f.ms);
    DayFieldsYear(f.year, f.month, f.date);
    DayFieldsMonth(f.year, f.month, f.date);
  }
}
