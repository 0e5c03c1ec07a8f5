/**
 * Resolution of the named scopes of the sessions window into a date range
 * (dtimetracker/gui/sessions.py). The selected menu label and today's date
 * are parameters instead of the widget variable and the clock.
 */
module Sessions {
  import opened Wrappers
  import opened Calendar

  datatype Scope = Today | Yesterday | ThisWeek | LastWeek | ThisMonth | LastMonth | Last7Days | Last30Days

  /** The menu labels, in the order the time menu lists them. */
  const TimeStrings: seq<string> :=
    ["Today", "Yesterday", "This week", "Last week", "This month", "Last month", "Last 7 days", "Last 30 days"]

  function Label(scope: Scope): string {
    match scope
    case Today => "Today"
    case Yesterday => "Yesterday"
    case ThisWeek => "This week"
    case LastWeek => "Last week"
    case ThisMonth => "This month"
    case LastMonth => "Last month"
    case Last7Days => "Last 7 days"
    case Last30Days => "Last 30 days"
  }

  /** The `case` of the `match` a selected label falls into, if any. */
  function ParseScope(selected: string): (r: Option<Scope>)
    ensures r.Some? <==> selected in TimeStrings
    ensures forall scope :: r == Some(scope) <==> Label(scope) == selected
  {
    if selected == "Today" then Some(Today)
    else if selected == "Yesterday" then Some(Yesterday)
    else if selected == "This week" then Some(ThisWeek)
    else if selected == "Last week" then Some(LastWeek)
    else if selected == "This month" then Some(ThisMonth)
    else if selected == "Last month" then Some(LastMonth)
    else if selected == "Last 7 days" then Some(Last7Days)
    else if selected == "Last 30 days" then Some(Last30Days)
    else None
  }

  /**
   * What `get_date_range` produces: a start date and an end instant; `None`
   * when no case matches; or the `OverflowError` Python raises when the
   * arithmetic leaves the years 1..9999.
   */
  datatype RangeOutcome = Range(start: Date, end: Instant) | NoMatch | OutOfRange

  /** `time(23, 59, 59, 999)`: the last argument counts microseconds. */
  const EndOfDayTime := TimeOfDay(23, 59, 59, 999)

  /** `datetime.combine(d, time(23, 59, 59, 999))`. */
  function DayEnd(d: Date): Instant {
    Combine(d, EndOfDayTime)
  }

  /** `datetime.combine(d, time())`. */
  function Midnight(d: Date): Instant {
    Combine(d, 0)
  }

  /** `date.replace(day=1)`. */
  function FirstOfMonth(d: Date): Date {
    d.(day := 1)
  }

  /** `case "Today"`: all of today, up to 23:59:59 and 999 microseconds. */
  function TodayRange(today: Date): (r: RangeOutcome)
    requires ValidDate(today)
    ensures r.Range? && r.start == today && r.end.date == today
    ensures r.end.micros == 86399 * MicrosPerSecond + 999
  {
    Range(today, DayEnd(today))
  }

  /** Only 0001-01-01 has no day before it. */
  lemma YesterdayExists(today: Date)
    requires ValidDate(today)
    ensures ShiftDays(today, -1).None? <==> today == Date(MinYear, 1, 1)
  {
    OrdinalLower(today);
    ShiftDaysBackward(today, -1);
  }

  /** `case "Yesterday"`: the day before today, to that day's end; there is none before 0001-01-01. */
  function YesterdayRange(today: Date): (r: RangeOutcome)
    requires ValidDate(today)
    ensures !r.NoMatch?
    ensures r.OutOfRange? <==> today == Date(MinYear, 1, 1)
    ensures r.Range? ==> ValidDate(r.start) && Ordinal(r.start) == Ordinal(today) - 1 && r.end == DayEnd(r.start)
  {
    YesterdayExists(today);
    match ShiftDays(today, -1)
    case None => OutOfRange
    case Some(yesterday) => Range(yesterday, DayEnd(yesterday))
  }

  /** Going back by its weekday from any day lands on a Monday, never before day 1. */
  lemma MondayOrdinal(o: int)
    requires o >= 1
    ensures 0 <= WeekdayOf(o) <= 6
    ensures 1 <= o - WeekdayOf(o)
    ensures WeekdayOf(o - WeekdayOf(o)) == 0
  {
    assert (o + 6) % 7 == (o - 1) % 7;
  }

  /** `today - timedelta(days=today.weekday())` always exists and is the Monday of today's week. */
  lemma MondayOfWeek(today: Date)
    requires ValidDate(today)
    ensures 0 <= Weekday(today) <= 6
    ensures ShiftDays(today, -Weekday(today)).Some?
    ensures var m := ShiftDays(today, -Weekday(today)).value;
      ValidDate(m) && Weekday(m) == 0 && Ordinal(m) == Ordinal(today) - Weekday(today)
  {
    OrdinalLower(today);
    MondayOrdinal(Ordinal(today));
    ShiftDaysBackward(today, -Weekday(today));
  }

  /** `case "This week"`: from the Monday of today's week, which always exists, to the end of today. */
  function ThisWeekRange(today: Date): (r: RangeOutcome)
    requires ValidDate(today)
    ensures r.Range? && ValidDate(r.start) && Weekday(r.start) == 0
    ensures Ordinal(today) - Ordinal(r.start) == Weekday(today) && 0 <= Weekday(today) <= 6
    ensures r.end == DayEnd(today)
  {
    MondayOfWeek(today);
    match ShiftDays(today, -Weekday(today))
    case None => OutOfRange
    case Some(lastMonday) => Range(lastMonday, DayEnd(today))
  }

  /** The Monday seven days before a Monday is a Monday. */
  lemma MondayBefore(monday: Date)
    requires ValidDate(monday) && Weekday(monday) == 0
    requires ShiftDays(monday, -7).Some?
    ensures Weekday(ShiftDays(monday, -7).value) == 0
  {
    WeekdayStep(Ordinal(monday), -7, Ordinal(ShiftDays(monday, -7).value));
  }

  /** Six days after a Monday is a Sunday. */
  lemma SundayAfter(monday: Date)
    requires ValidDate(monday) && Weekday(monday) == 0
    requires Ordinal(monday) + 6 <= MaxOrdinal
    ensures ShiftDays(monday, 6).Some?
    ensures Weekday(ShiftDays(monday, 6).value) == 6
  {
    OrdinalLower(monday);
    WeekdayStep(Ordinal(monday), 6, Ordinal(ShiftDays(monday, 6).value));
  }

  /** Adding six days to the end of a day gives the end of the day six days later. */
  lemma DayEndSixDaysLater(d: Date)
    requires ValidDate(d) && ShiftDays(d, 6).Some?
    ensures ShiftMicros(DayEnd(d), 6 * MicrosPerDay) == Some(DayEnd(ShiftDays(d, 6).value))
  {
    var total := EndOfDayTime + 6 * MicrosPerDay;
    assert total / MicrosPerDay == 6 && total % MicrosPerDay == EndOfDayTime;
  }

  /**
   * `case "Last week"`: from the Monday seven days before this week's
   * Monday to the Sunday six days later, at 23:59:59 and 999 microseconds.
   */
  function LastWeekRange(today: Date): (r: RangeOutcome)
    requires ValidDate(today)
    ensures !r.NoMatch?
    ensures r.OutOfRange? <==> Ordinal(today) - Weekday(today) - 7 < 1
    ensures r.Range? ==>
      && ValidDate(r.start) && Weekday(r.start) == 0
      && Ordinal(r.start) == Ordinal(today) - Weekday(today) - 7
      && ValidDate(r.end.date)
      && Ordinal(r.end.date) == Ordinal(r.start) + 6
      && Weekday(r.end.date) == 6
      && r.end.micros == EndOfDayTime
  {
    MondayOfWeek(today);
    OrdinalUpper(today);
    match ShiftDays(today, -Weekday(today))
    case None => OutOfRange
    case Some(thisMonday) =>
      match ShiftDays(thisMonday, -7)
      case None => OutOfRange
      case Some(lastSecondMonday) =>
        MondayBefore(thisMonday);
        SundayAfter(lastSecondMonday);
        DayEndSixDaysLater(lastSecondMonday);
        match ShiftMicros(DayEnd(lastSecondMonday), 6 * MicrosPerDay)
        case None => OutOfRange
        case Some(end) => Range(lastSecondMonday, end)
  }

  /** `case "This month"`: from the first of today's month to the end of today. */
  function ThisMonthRange(today: Date): (r: RangeOutcome)
    requires ValidDate(today)
    ensures r.Range? && r.start == Date(today.year, today.month, 1) && ValidDate(r.start)
    ensures Ordinal(today) - Ordinal(r.start) == today.day - 1
    ensures r.end == DayEnd(today)
  {
    Range(FirstOfMonth(today), DayEnd(today))
  }

  /** The month before month `m` of year `y`; January goes back to December of the year before. */
  function PreviousMonth(y: int, m: int): (r: (int, int))
    requires 1 <= m <= 12
    ensures 1 <= r.1 <= 12
    ensures r.0 * 12 + r.1 == y * 12 + m - 1
  {
    if m == 1 then (y - 1, 12) else (y, m - 1)
  }

  /** Within a year, the day before the first of a month is the last day of the month before. */
  lemma DayBeforeFirstOfMonth(y: int, m: int)
    requires MinYear <= y <= MaxYear && 1 < m <= 12
    ensures ShiftDays(Date(y, m, 1), -1) == Some(Date(y, m - 1, DaysInMonth(y, m - 1)))
  {
    OrdinalNextMonth(y, m - 1);
    OrdinalInjective(ShiftDays(Date(y, m, 1), -1).value, Date(y, m - 1, DaysInMonth(y, m - 1)));
  }

  /** The day before New Year's Day is the 31st of December of the year before. */
  lemma DayBeforeNewYear(y: int)
    requires MinYear < y <= MaxYear
    ensures ShiftDays(Date(y, 1, 1), -1) == Some(Date(y - 1, 12, 31))
  {
    OrdinalNextYear(y - 1);
    OrdinalInjective(ShiftDays(Date(y, 1, 1), -1).value, Date(y - 1, 12, 31));
  }

  /** The day before the first of a month is the last day of the previous month. */
  lemma DayBeforeFirst(first: Date)
    requires ValidDate(first) && first.day == 1
    ensures var p := PreviousMonth(first.year, first.month);
      ShiftDays(first, -1) == if p.0 < MinYear then None else Some(Date(p.0, p.1, DaysInMonth(p.0, p.1)))
  {
    if first.month > 1 {
      assert PreviousMonth(first.year, first.month) == (first.year, first.month - 1);
      DayBeforeFirstOfMonth(first.year, first.month);
    } else if first.year > MinYear {
      assert PreviousMonth(first.year, first.month) == (first.year - 1, 12);
      DayBeforeNewYear(first.year);
    } else {
      assert first == Date(MinYear, 1, 1);
      assert Ordinal(first) == 1;
    }
  }

  /** One microsecond before midnight is the last microsecond of the day before. */
  lemma MidnightMinusOne(d: Date)
    requires ValidDate(d) && ShiftDays(d, -1).Some?
    ensures ShiftMicros(Midnight(d), -1) == Some(Instant(ShiftDays(d, -1).value, MicrosPerDay - 1))
  {
    DaySplit(-1, MicrosPerDay - 1);
    assert 0 + -1 == -1 * MicrosPerDay + (MicrosPerDay - 1);
  }

  /**
   * `case "Last month"`: from the first of the previous month (January
   * wraps to December of the year before) to its last day at
   * 23:59:59.999999, one microsecond before the first of this month.
   */
  function LastMonthRange(today: Date): (r: RangeOutcome)
    requires ValidDate(today)
    ensures !r.NoMatch?
    ensures r.OutOfRange? <==> today.year == MinYear && today.month == 1
    ensures r.Range? ==>
      var p := PreviousMonth(today.year, today.month);
      && r.start == Date(p.0, p.1, 1)
      && r.end == Instant(Date(p.0, p.1, DaysInMonth(p.0, p.1)), MicrosPerDay - 1)
      && ValidInstant(r.end)
      && Timestamp(r.end) + 1 == Timestamp(Midnight(FirstOfMonth(today)))
  {
    var firstOfThisMonth := FirstOfMonth(today);
    DayBeforeFirst(firstOfThisMonth);
    match ShiftDays(firstOfThisMonth, -1)
    case None => OutOfRange
    case Some(lastOfLastMonth) =>
      MidnightMinusOne(firstOfThisMonth);
      match ShiftMicros(Midnight(firstOfThisMonth), -1)
      case None => OutOfRange
      case Some(end) => Range(FirstOfMonth(lastOfLastMonth), end)
  }

  /**
   * `case "Last 7 days"` as written: it starts six days before today but
   * ends on that same start day, because the end combines `start` with
   * the end of day; so the range never reaches today.
   */
  function Last7DaysRange(today: Date): (r: RangeOutcome)
    requires ValidDate(today)
    ensures !r.NoMatch?
    ensures r.OutOfRange? <==> Ordinal(today) <= 6
    ensures r.Range? ==>
      && ValidDate(r.start) && Ordinal(r.start) == Ordinal(today) - 6
      && r.end == DayEnd(r.start)
      && r.end.date != today
  {
    ShiftDaysBackward(today, -6);
    match ShiftDays(today, -6)
    case None => OutOfRange
    case Some(start) => Range(start, DayEnd(start))
  }

  /** `case "Last 30 days"`: from 29 days before today to the end of today. */
  function Last30DaysRange(today: Date): (r: RangeOutcome)
    requires ValidDate(today)
    ensures !r.NoMatch?
    ensures r.OutOfRange? <==> Ordinal(today) <= 29
    ensures r.Range? ==> ValidDate(r.start) && Ordinal(r.start) == Ordinal(today) - 29 && r.end == DayEnd(today)
  {
    ShiftDaysBackward(today, -29);
    match ShiftDays(today, -29)
    case None => OutOfRange
    case Some(start) => Range(start, DayEnd(today))
  }

  /** The `match` in `get_date_range`, for a recognised scope: the arm of that scope. */
  function Resolve(scope: Scope, today: Date): RangeOutcome
    requires ValidDate(today)
  {
    match scope
    case Today => TodayRange(today)
    case Yesterday => YesterdayRange(today)
    case ThisWeek => ThisWeekRange(today)
    case LastWeek => LastWeekRange(today)
    case ThisMonth => ThisMonthRange(today)
    case LastMonth => LastMonthRange(today)
    case Last7Days => Last7DaysRange(today)
    case Last30Days => Last30DaysRange(today)
  }

  /** `SessionsWindow.get_date_range` for the selected label and today's date. */
  function GetDateRange(selected: string, today: Date): (r: RangeOutcome)
    requires ValidDate(today)
    ensures r.NoMatch? <==> selected !in TimeStrings
    ensures forall scope :: selected == Label(scope) ==> r == Resolve(scope, today)
  {
    match ParseScope(selected)
    case None => NoMatch
    case Some(scope) => Resolve(scope, today)
  }

  /** Each scope's label is recognised as that scope, and the menu lists exactly these labels. */
  lemma LabelsRoundTrip(scope: Scope)
    ensures ParseScope(Label(scope)) == Some(scope)
    ensures Label(scope) in TimeStrings
  {
  }

  /** A well-formed range: a valid start date taken at midnight, no later than a valid end. */
  predicate Ordered(r: RangeOutcome) {
    r.Range? ==>
      && ValidDate(r.start) && ValidInstant(r.end)
      && Timestamp(Midnight(r.start)) <= Timestamp(r.end)
  }

  /**
   * Every recognised scope yields an ordered range that starts no later
   * than today and ends no later than the end of today.
   */
  lemma ResolveOrdered(scope: Scope, today: Date)
    requires ValidDate(today)
    ensures Ordered(Resolve(scope, today))
    ensures Resolve(scope, today).Range? ==>
      && Ordinal(Resolve(scope, today).start) <= Ordinal(today)
      && Timestamp(Resolve(scope, today).end) <= Timestamp(DayEnd(today))
  {
  }

  /**
   * The end time 23:59:59 plus 999 microseconds still admits every
   * whole-second instant of the day: a whole-second instant lies at or
   * before `DayEnd(d)` exactly when it falls on `d` or earlier.
   */
  lemma DayEndAdmitsWholeSeconds(t: Instant, d: Date)
    requires ValidInstant(t) && ValidDate(d)
    requires t.micros % MicrosPerSecond == 0
    ensures Timestamp(t) <= Timestamp(DayEnd(d)) <==> Ordinal(t.date) <= Ordinal(d)
  {
    assert t.micros <= MicrosPerDay - MicrosPerSecond;
  }

  /** "Last 7 days" as evidently intended: the six days before today and today itself. */
  function Last7DaysIntended(today: Date): (r: RangeOutcome)
    requires ValidDate(today)
    ensures !r.NoMatch?
    ensures r.OutOfRange? <==> Ordinal(today) <= 6
    ensures r.Range? ==> ValidDate(r.start) && Ordinal(today) - Ordinal(r.start) == 6 && r.end == DayEnd(today)
  {
    ShiftDaysBackward(today, -6);
    match ShiftDays(today, -6)
    case None => OutOfRange
    case Some(start) => Range(start, DayEnd(today))
  }

  /** The resolver with the "Last 7 days" arm corrected and every other arm as written. */
  function ResolveIntended(scope: Scope, today: Date): (r: RangeOutcome)
    requires ValidDate(today)
    ensures scope != Last7Days ==> r == Resolve(scope, today)
    ensures Ordered(r)
    ensures r.Range? && scope !in {Yesterday, LastWeek, LastMonth} ==> r.end == DayEnd(today)
  {
    ResolveOrdered(scope, today);
    if scope == Last7Days then Last7DaysIntended(today) else Resolve(scope, today)
  }
}
