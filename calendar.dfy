/**
 * The part of Python's `datetime` arithmetic that the date-range resolver
 * relies on: proleptic-Gregorian dates in years 1..9999, day ordinals
 * (0001-01-01 is day 1), Monday-based weekdays, shifting a date by whole
 * days, and instants (a date plus a time of day in microseconds) shifted by
 * a number of microseconds. A shift that leaves the representable range
 * yields `None`, where Python raises `OverflowError`.
 */
module Calendar {
  import opened Wrappers

  const MinYear := 1
  const MaxYear := 9999
  /** Ordinal of 9999-12-31, the last representable date. */
  const MaxOrdinal := 3652059
  const MicrosPerSecond := 1000000
  const MicrosPerDay := 86400000000

  datatype Date = Date(year: int, month: int, day: int)

  predicate IsLeap(y: int) {
    y % 4 == 0 && (y % 100 != 0 || y % 400 == 0)
  }

  function DaysInMonth(y: int, m: int): int
    requires 1 <= m <= 12
  {
    if m == 2 then (if IsLeap(y) then 29 else 28)
    else if m == 4 || m == 6 || m == 9 || m == 11 then 30
    else 31
  }

  function DaysInYear(y: int): int {
    if IsLeap(y) then 366 else 365
  }

  /** A date Python's `date` type can hold. */
  predicate ValidDate(d: Date) {
    && MinYear <= d.year <= MaxYear
    && 1 <= d.month <= 12
    && 1 <= d.day <= DaysInMonth(d.year, d.month)
  }

  /** Number of days in the years before year `y`, in closed form. */
  function DaysBeforeYear(y: int): int
    requires y >= 1
  {
    var p := y - 1;
    p * 365 + p / 4 - p / 100 + p / 400
  }

  /** Number of days in year `y` before the first of month `m`. */
  function DaysBeforeMonth(y: int, m: int): int
    requires 1 <= m <= 12
  {
    [0, 31, 59, 90, 120, 151, 181, 212, 243, 273, 304, 334][m - 1]
    + (if m > 2 && IsLeap(y) then 1 else 0)
  }

  /** Day number of a date; 0001-01-01 is day 1 (Python's `toordinal`). */
  function Ordinal(d: Date): int
    requires ValidDate(d)
  {
    DaysBeforeYear(d.year) + DaysBeforeMonth(d.year, d.month) + d.day
  }

  /** Day of the week of the day with ordinal `o`, Monday = 0 and Sunday = 6. */
  function WeekdayOf(o: int): int {
    (o + 6) % 7
  }

  /** Day of the week with Monday = 0 and Sunday = 6 (Python's `weekday`). */
  function Weekday(d: Date): int
    requires ValidDate(d)
  {
    WeekdayOf(Ordinal(d))
  }

  /** Moving `k` days, from day `o` to day `o2`, moves the weekday by `k`, modulo seven. */
  lemma WeekdayStep(o: int, k: int, o2: int)
    requires o2 == o + k
    ensures WeekdayOf(o2) == (WeekdayOf(o) + k) % 7
  {
  }

  lemma DivStep4(q: int)
    ensures q / 4 - (q - 1) / 4 == if q % 4 == 0 then 1 else 0
  {
  }

  lemma DivStep100(q: int)
    ensures q / 100 - (q - 1) / 100 == if q % 100 == 0 then 1 else 0
  {
  }

  lemma DivStep400(q: int)
    ensures q / 400 - (q - 1) / 400 == if q % 400 == 0 then 1 else 0
  {
  }

  /** Divisibility by 400 implies divisibility by 100, which implies divisibility by 4. */
  lemma LeapDivisibility(y: int)
    ensures y % 400 == 0 ==> y % 100 == 0
    ensures y % 100 == 0 ==> y % 4 == 0
  {
    var q := y / 400;
    var r := y / 100;
    assert y == 400 * q + y % 400;
    assert y == 100 * r + y % 100;
    assert y == 100 * (4 * q) + y % 400;
    assert y == 4 * (25 * r) + y % 100;
  }

  /** The closed form advances by the length of each year. */
  lemma DaysBeforeNextYear(y: int)
    requires y >= 1
    ensures DaysBeforeYear(y + 1) == DaysBeforeYear(y) + DaysInYear(y)
  {
    var a := y / 4 - (y - 1) / 4;
    var b := y / 100 - (y - 1) / 100;
    var c := y / 400 - (y - 1) / 400;
    assert DaysBeforeYear(y + 1) == DaysBeforeYear(y) + 365 + a - b + c;
    DivStep4(y);
    DivStep100(y);
    DivStep400(y);
    LeapDivisibility(y);
  }

  lemma {:induction false} DaysBeforeYearMonotone(y1: int, y2: int)
    requires 1 <= y1 <= y2
    ensures DaysBeforeYear(y1) + 365 * (y2 - y1) <= DaysBeforeYear(y2)
    decreases y2 - y1
  {
    if y1 < y2 {
      DaysBeforeYearMonotone(y1, y2 - 1);
      DaysBeforeNextYear(y2 - 1);
    }
  }

  lemma MonthFitsInYear(y: int, m: int)
    requires 1 <= m <= 12
    ensures DaysBeforeMonth(y, m) + DaysInMonth(y, m) <= DaysInYear(y)
    ensures m < 12 ==> DaysBeforeMonth(y, m + 1) == DaysBeforeMonth(y, m) + DaysInMonth(y, m)
    ensures m == 12 ==> DaysBeforeMonth(y, m) + DaysInMonth(y, m) == DaysInYear(y)
  {
  }

  lemma OrdinalLower(d: Date)
    requires ValidDate(d)
    ensures 1 <= Ordinal(d)
    ensures Ordinal(d) == 1 <==> d == Date(MinYear, 1, 1)
  {
    DaysBeforeYearMonotone(1, d.year);
  }

  lemma OrdinalUpper(d: Date)
    requires ValidDate(d)
    ensures Ordinal(d) <= MaxOrdinal
    ensures Ordinal(d) == MaxOrdinal <==> d == Date(MaxYear, 12, 31)
  {
    MonthFitsInYear(d.year, d.month);
    DaysBeforeNextYear(d.year);
    DaysBeforeYearMonotone(d.year + 1, MaxYear + 1);
  }

  /** Every valid date has an ordinal in 1..MaxOrdinal; only the first and last dates reach the ends. */
  lemma OrdinalBounds(d: Date)
    requires ValidDate(d)
    ensures 1 <= Ordinal(d) <= MaxOrdinal
    ensures Ordinal(d) == 1 <==> d == Date(MinYear, 1, 1)
    ensures Ordinal(d) == MaxOrdinal <==> d == Date(MaxYear, 12, 31)
  {
    OrdinalLower(d);
    OrdinalUpper(d);
  }

  /** The first of a month follows the last day of the month before, within one year. */
  lemma OrdinalNextMonth(y: int, m: int)
    requires MinYear <= y <= MaxYear && 1 <= m < 12
    ensures ValidDate(Date(y, m, DaysInMonth(y, m))) && ValidDate(Date(y, m + 1, 1))
    ensures Ordinal(Date(y, m + 1, 1)) == Ordinal(Date(y, m, DaysInMonth(y, m))) + 1
  {
    MonthFitsInYear(y, m);
  }

  /** New Year's Day follows the 31st of December of the year before. */
  lemma OrdinalNextYear(y: int)
    requires MinYear <= y < MaxYear
    ensures ValidDate(Date(y, 12, 31)) && ValidDate(Date(y + 1, 1, 1))
    ensures Ordinal(Date(y + 1, 1, 1)) == Ordinal(Date(y, 12, 31)) + 1
  {
    MonthFitsInYear(y, 12);
    DaysBeforeNextYear(y);
  }

  /** The month of year `y` holding its day `dayOfYear`, searched upwards from month `m`. */
  function MonthOfDay(y: int, dayOfYear: int, m: int): (r: int)
    requires 1 <= m <= 12 && DaysBeforeMonth(y, m) < dayOfYear <= DaysInYear(y)
    ensures m <= r <= 12
    ensures DaysBeforeMonth(y, r) < dayOfYear <= DaysBeforeMonth(y, r) + DaysInMonth(y, r)
    decreases 12 - m
  {
    MonthFitsInYear(y, m);
    if dayOfYear <= DaysBeforeMonth(y, m) + DaysInMonth(y, m) then m
    else MonthOfDay(y, dayOfYear, m + 1)
  }

  /** The date with ordinal `n`, its year searched upwards from year `y`. */
  function DateOfOrdinalFrom(n: int, y: int): (d: Date)
    requires MinYear <= y <= MaxYear && DaysBeforeYear(y) < n <= MaxOrdinal
    ensures ValidDate(d) && Ordinal(d) == n
    decreases MaxYear - y
  {
    DaysBeforeNextYear(y);
    DaysBeforeYearMonotone(y + 1, MaxYear + 1);
    if n <= DaysBeforeYear(y) + DaysInYear(y) then
      var dayOfYear := n - DaysBeforeYear(y);
      var m := MonthOfDay(y, dayOfYear, 1);
      Date(y, m, dayOfYear - DaysBeforeMonth(y, m))
    else DateOfOrdinalFrom(n, y + 1)
  }

  /** The date with ordinal `n` (Python's `date.fromordinal`). */
  function FromOrdinal(n: int): (d: Date)
    requires 1 <= n <= MaxOrdinal
    ensures ValidDate(d) && Ordinal(d) == n
  {
    DateOfOrdinalFrom(n, MinYear)
  }

  /**
   * `d + timedelta(days=k)`: the date whose ordinal is `Ordinal(d) + k`, or
   * `None` (Python's `OverflowError`) when no valid date has that ordinal.
   */
  function ShiftDays(d: Date, k: int): (r: Option<Date>)
    requires ValidDate(d)
    ensures r.Some? ==> ValidDate(r.value) && Ordinal(r.value) == Ordinal(d) + k
    ensures r.None? <==> !(1 <= Ordinal(d) + k <= MaxOrdinal)
  {
    var n := Ordinal(d) + k;
    if 1 <= n <= MaxOrdinal then Some(FromOrdinal(n)) else None
  }

  /** Going back in time fails only below day 1. */
  lemma ShiftDaysBackward(d: Date, k: int)
    requires ValidDate(d) && k <= 0
    ensures ShiftDays(d, k).None? <==> Ordinal(d) + k < 1
  {
    OrdinalUpper(d);
  }

  /** Going forward in time fails only beyond 9999-12-31. */
  lemma ShiftDaysForward(d: Date, k: int)
    requires ValidDate(d) && k >= 0
    ensures ShiftDays(d, k).None? <==> Ordinal(d) + k > MaxOrdinal
  {
    OrdinalLower(d);
  }

  /** Two valid dates with the same ordinal are the same date. */
  lemma OrdinalInjective(a: Date, b: Date)
    requires ValidDate(a) && ValidDate(b)
    requires Ordinal(a) == Ordinal(b)
    ensures a == b
  {
    if a.year < b.year {
      OrdinalBelowNextYear(a);
      DaysBeforeYearMonotone(a.year + 1, b.year);
      assert false;
    } else if b.year < a.year {
      OrdinalBelowNextYear(b);
      DaysBeforeYearMonotone(b.year + 1, a.year);
      assert false;
    } else if a.month != b.month {
      MonthsOrdered(a.year, a.month, b.month);
      MonthsOrdered(a.year, b.month, a.month);
      assert false;
    }
  }

  /** Converting a date to its ordinal and back gives the same date. */
  lemma FromOrdinalRoundTrip(d: Date)
    requires ValidDate(d)
    ensures 1 <= Ordinal(d) <= MaxOrdinal && FromOrdinal(Ordinal(d)) == d
  {
    OrdinalBounds(d);
    OrdinalInjective(FromOrdinal(Ordinal(d)), d);
  }

  lemma OrdinalBelowNextYear(d: Date)
    requires ValidDate(d)
    ensures Ordinal(d) <= DaysBeforeYear(d.year + 1)
  {
    MonthFitsInYear(d.year, d.month);
    DaysBeforeNextYear(d.year);
  }

  /** Every day of an earlier month comes before the first of a later one. */
  lemma MonthsOrdered(y: int, m1: int, m2: int)
    requires 1 <= m1 < m2 <= 12
    ensures DaysBeforeMonth(y, m1) + DaysInMonth(y, m1) <= DaysBeforeMonth(y, m2)
  {
  }

  /** An instant: a date plus a time of day in microseconds since midnight. */
  datatype Instant = Instant(date: Date, micros: int)

  predicate ValidInstant(t: Instant) {
    ValidDate(t.date) && 0 <= t.micros < MicrosPerDay
  }

  /** Microseconds since midnight of `time(hour, minute, second, microsecond)`. */
  function TimeOfDay(hour: int, minute: int, second: int, microsecond: int): int {
    ((hour * 60 + minute) * 60 + second) * MicrosPerSecond + microsecond
  }

  /** `datetime.combine(d, t)` for a time of day `t` in microseconds. */
  function Combine(d: Date, tod: int): Instant {
    Instant(d, tod)
  }

  /** Position of an instant on one time line, in microseconds; it orders instants as Python does. */
  function Timestamp(t: Instant): int
    requires ValidInstant(t)
  {
    Ordinal(t.date) * MicrosPerDay + t.micros
  }

  /** `t.replace(microsecond=0)`: the instant truncated to its whole second. */
  function TruncateToSecond(t: Instant): (r: Instant)
    requires ValidInstant(t)
    ensures ValidInstant(r) && r.date == t.date
    ensures r.micros % MicrosPerSecond == 0
    ensures 0 <= Timestamp(t) - Timestamp(r) < MicrosPerSecond
  {
    Instant(t.date, t.micros - t.micros % MicrosPerSecond)
  }

  /** Splitting a microsecond count into whole days and the rest of a day. */
  lemma DaySplit(k: int, rest: int)
    requires 0 <= rest < MicrosPerDay
    ensures (k * MicrosPerDay + rest) / MicrosPerDay == k
    ensures (k * MicrosPerDay + rest) % MicrosPerDay == rest
  {
  }

  /**
   * `t + timedelta(microseconds=delta)`: the carry into whole days is a
   * floor division, as in Python's timedelta normalisation.
   */
  function ShiftMicros(t: Instant, delta: int): (r: Option<Instant>)
    requires ValidInstant(t)
    ensures r.Some? ==> ValidInstant(r.value) && Timestamp(r.value) == Timestamp(t) + delta
    ensures r.None? <==> !(MicrosPerDay <= Timestamp(t) + delta < (MaxOrdinal + 1) * MicrosPerDay)
  {
    var total := t.micros + delta;
    var days := total / MicrosPerDay;
    DaySplit(days, total % MicrosPerDay);
    match ShiftDays(t.date, days)
    case None => None
    case Some(d) => Some(Instant(d, total % MicrosPerDay))
  }
}
