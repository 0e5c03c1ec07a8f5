# dtimetracker core in Dafny

A model of the computing core of dtimetracker, a small desktop time tracker.
Projects own work sessions. A session starts when it is created and ends when it is stopped.

The model covers two parts:

- **Durations** (`dtimetracker/core.py`). A project or session is created with no store id. A new session's start is the clock reading cut to its whole second. `compute_duration` reports the elapsed time of a session as a pair (hours, minutes).
  - Hours are the whole hours elapsed, rounded down and clamped at zero.
  - Minutes are what is left in the last hour, divided by sixty.
  - An open session is measured up to the current clock reading, also cut to its whole second.
  - A session whose `end` is neither `None` nor a `datetime` counts as (0, 0).
- **Date ranges** (`dtimetracker/gui/sessions.py`). The sessions window offers eight named time scopes ("Today" … "Last 30 days"). `get_date_range` turns the selected scope into a start date and an end date-time, using Python's `datetime` arithmetic.

Files:

- `wrappers.dfy`: the `Option` type.
- `calendar.dfy`: the part of Python's `datetime` that the core relies on.
  - Proleptic-Gregorian dates in the years 1 to 9999, and day ordinals where 0001-01-01 is day 1.
  - Weekdays, with Monday as 0.
  - `date ± timedelta(days=k)`. It yields `None` where Python raises `OverflowError`.
  - `datetime.combine`, `replace(microsecond=0)`, and `datetime ± timedelta(microseconds=k)` with Python's floor-division carry.
- `core.dfy`: projects, sessions, `_compute_time_difference` and `compute_duration`.
- `sessions.dfy`: the scope labels and `get_date_range`. Each `case` arm of its `match` is a function of its own, and those functions carry the arm's properties.

The clock is a parameter: `now` for `datetime.now()` and `today` for `date.today()`.

## Model

| member | source | states |
|---|---|---|
| Core.NewProject | dtimetracker/core.py:5-8 | a new project has no id and keeps the given name |
| Core.NewSession | dtimetracker/core.py:11-16 | a new session has no id, belongs to the given project and is open. Its start is a valid instant on the clock's date, on a whole second, less than one second before the clock reading |
| Core.ModHour | dtimetracker/core.py:39 | Python's float `x % 3600` lies in [0, 3600) and leaves a whole number of hours in `x` |
| Core.TimeDifference | dtimetracker/core.py:36-41 | minutes lie in [0, 60), and hours·3600 + minutes·60 gives back the elapsed seconds exactly, for negative spans too |
| Core.ComputeDuration | dtimetracker/core.py:22-34 | hours ≥ 0 and minutes in [0, 60). An end that is not a `datetime` gives (0, 0) |
| Core.DurationReconstructsElapsed | dtimetracker/core.py:36-41 | for a non-negative elapsed time, the reported pair gives back the elapsed seconds exactly |
| Core.DurationHours | dtimetracker/core.py:34-39 | hours are the floor of the elapsed hours when non-negative. When the end lies before the start, hours are 0 and minutes are the floor-modulo remainder of the negative span |
| Core.ZeroLengthSession | dtimetracker/core.py:30-34 | a session ended at its own start lasts (0, 0) |
| Core.OpenMatchesEnded | dtimetracker/core.py:26-32 | an open session measures the same as one ended at the whole-second clock reading |
| Core.WholeSecondTimeDifference | dtimetracker/core.py:36-41 | between whole-second instants, minutes·60 is a whole number of seconds |
| Core.WholeSecondMinutes | dtimetracker/core.py:22-34 | the same holds for the duration of a session that starts and ends on whole seconds |
| Core.ThreeHoursThirtyThree | tests/test_core.py:23-56 | 3 h 33 min elapsed gives (3, 33), for an ended session and for an open one |
| Core.SaturatingDuration | dtimetracker/core.py:34 | corrected policy: a negative span gives (0, 0). Every other session gets exactly `compute_duration`'s result |
| Core.NegativeSpanKeepsMinutes | dtimetracker/core.py:34 | as written, an end before the start, other than by whole hours, gives hours 0 and positive minutes. The saturating policy gives (0, 0) |
| Core.OneMinuteBeforeStart | dtimetracker/core.py:34 | an end 60 s before the start gives (0, 59) as written and (0, 0) when saturating |
| Calendar.TruncateToSecond | dtimetracker/core.py:15 | `replace(microsecond=0)` stays on the same date, on a whole second, less than one second earlier |
| Calendar.FromOrdinal | dtimetracker/gui/sessions.py:156 | every ordinal in 1..3652059 is the ordinal of a valid date |
| Calendar.OrdinalInjective | dtimetracker/gui/sessions.py:156 | two valid dates with the same ordinal are equal |
| Calendar.FromOrdinalRoundTrip | dtimetracker/gui/sessions.py:156 | date → ordinal → date gives back the date |
| Calendar.OrdinalBounds | dtimetracker/gui/sessions.py:156 | valid dates have ordinals in 1..3652059. Only 0001-01-01 and 9999-12-31 reach the ends |
| Calendar.ShiftDays | dtimetracker/gui/sessions.py:156 | `d ± timedelta(days=k)` is the valid date whose ordinal is `Ordinal(d) + k`. It fails exactly when that ordinal leaves 1..3652059 |
| Calendar.ShiftDaysBackward | dtimetracker/gui/sessions.py:193 | going back fails exactly when the ordinal drops below 1 |
| Calendar.ShiftDaysForward | dtimetracker/gui/sessions.py:169-171 | going forward fails exactly when the ordinal passes 9999-12-31 |
| Calendar.WeekdayStep | dtimetracker/gui/sessions.py:166-168 | moving k days moves `weekday()` by k, modulo 7 |
| Calendar.ShiftMicros | dtimetracker/gui/sessions.py:186-188 | adding microseconds moves the instant by exactly that many microseconds on one time line. It fails exactly outside the representable days |
| Sessions.ParseScope | dtimetracker/gui/sessions.py:150-200 | a label is recognised iff it is one of the eight menu labels, and it is recognised as the scope whose label it is |
| Sessions.LabelsRoundTrip | dtimetracker/gui/sessions.py:132-142 | every scope's label is in the menu and is recognised as that scope |
| Sessions.TodayRange | dtimetracker/gui/sessions.py:151-154 | today, from the date to 23:59:59 plus 999 microseconds of the same day |
| Sessions.YesterdayExists | dtimetracker/gui/sessions.py:156 | only 0001-01-01 has no day before it |
| Sessions.YesterdayRange | dtimetracker/gui/sessions.py:155-158 | the day with ordinal one less, up to that day's end. Out of range exactly on 0001-01-01. Never the `None` of an unknown label |
| Sessions.MondayOfWeek | dtimetracker/gui/sessions.py:161 | `today - timedelta(days=today.weekday())` always exists and is the Monday of today's week, 0 to 6 days back |
| Sessions.ThisWeekRange | dtimetracker/gui/sessions.py:159-163 | never out of range. Starts on a Monday, `weekday()` days before today, and ends at the end of today |
| Sessions.MondayBefore | dtimetracker/gui/sessions.py:166-168 | seven days before a Monday is a Monday |
| Sessions.SundayAfter | dtimetracker/gui/sessions.py:169-171 | six days after a Monday is a Sunday |
| Sessions.DayEndSixDaysLater | dtimetracker/gui/sessions.py:169-171 | the end of a day plus six days is the end of the day six days later |
| Sessions.LastWeekRange | dtimetracker/gui/sessions.py:164-172 | out of range iff the previous Monday precedes day 1. Otherwise it runs from that Monday to the Sunday six days later, at 23:59:59 plus 999 µs. Never the `None` of an unknown label |
| Sessions.ThisMonthRange | dtimetracker/gui/sessions.py:173-177 | from the first of today's month, `day - 1` days back, to the end of today |
| Sessions.PreviousMonth | dtimetracker/gui/sessions.py:181-185 | the month before, with January wrapping to December of the year before |
| Sessions.DayBeforeFirst | dtimetracker/gui/sessions.py:181-185 | the day before the first of a month is the last day of the previous month. There is none in January of year 1 |
| Sessions.MidnightMinusOne | dtimetracker/gui/sessions.py:186-188 | one microsecond before midnight is 23:59:59.999999 of the day before |
| Sessions.LastMonthRange | dtimetracker/gui/sessions.py:178-190 | out of range iff today is in January of year 1. Otherwise it runs from the first to the last day of the previous month, ending one microsecond before this month's first midnight. Never the `None` of an unknown label |
| Sessions.Last7DaysRange | dtimetracker/gui/sessions.py:191-195 | as written: starts six days back, ends on that same start day, and so never reaches today. Never the `None` of an unknown label |
| Sessions.Last30DaysRange | dtimetracker/gui/sessions.py:196-200 | from 29 days back to the end of today. Out of range iff fewer than 29 days precede today. Never the `None` of an unknown label |
| Sessions.GetDateRange | dtimetracker/gui/sessions.py:149-200 | `None` iff the label is not a menu label. Otherwise it gives the range of the scope with that label |
| Sessions.ResolveOrdered | dtimetracker/gui/sessions.py:149-200 | every scope gives valid dates, and its start's midnight is no later than its end. The start is no later than today and the end no later than the end of today |
| Sessions.DayEndAdmitsWholeSeconds | dtimetracker/gui/sessions.py:153 | a whole-second instant lies at or before 23:59:59 plus 999 µs of a day iff its date is that day or earlier |
| Sessions.Last7DaysIntended | dtimetracker/gui/sessions.py:191-195 | corrected: six days back to the end of today. Out of range iff fewer than 6 days precede today. Never the `None` of an unknown label |
| Sessions.ResolveIntended | dtimetracker/gui/sessions.py:149-200 | corrected resolver: it agrees with `get_date_range` on every other scope and is ordered. Every scope except "Yesterday", "Last week" and "Last month" now ends at the end of today |

## Left out

- The tkinter windows, menus, labels and widget state of `dtimetracker/gui/sessions.py` are not part of this model, apart from `get_date_range` and the list of scope labels. The same goes for the session summaries the window shows, `dtimetracker/gui/main.py`, `dtimetracker/gui/projects.py`, `dtimetracker/gui/child.py` and `main.py`. They are user interface.
- `dtimetracker/persistence.py` is not part of this model; it is storage I/O.
- The `Session.end()` method (`dtimetracker/core.py:18-19`) is not modelled. The constructor assigns `self.end = None` on every instance, which hides the method, so no session can call it.
- `project_has_no_open_sessions` (`dtimetracker/core.py:43-44`) is not modelled. It has no body beyond `pass`.
- Clock reads become parameters. `datetime.now()` becomes `now`, and `date.today()` becomes `today`.
  - The "Today" arm reads `date.today()` twice. The model uses one reading, so a midnight passing between the two reads is not captured.
- Floating point: `total_seconds()`, `/ 3600`, `% 3600` and `/ 60` are modelled on exact reals. Rounding is not modelled, including the float `%` that can round up to 3600 for a tiny negative operand.
- Calendar.FromOrdinal: it finds the date year by year instead of by Python's 400-year cycles. The result is the same date.
- Behaviour kept as the code has it:
  - `time(23, 59, 59, 999)` is 999 microseconds, not 999 milliseconds. `Sessions.DayEndAdmitsWholeSeconds` shows this makes no difference for the whole-second instants sessions are created at (`dtimetracker/core.py:15`, `dtimetracker/core.py:27`).
  - An unknown scope label makes `get_date_range` fall out of its `match` and return `None`.
  - Negative spans are not saturated to (0, 0); see the findings below.
- The start of a range is a `date` and its end a `datetime`. Python refuses to compare the two directly. `Sessions.Ordered` reads the start as that date's midnight.
- Naive datetimes only. The source uses no time zones or daylight-saving shifts.

## Findings

| source | as written | input that shows it | evidently intended | confidence | as-written member | corrected member |
|---|---|---|---|---|---|---|
| dtimetracker/core.py:34 | `max(minutes, 0)` never changes anything, because float `%` already keeps minutes in [0, 60). Only hours are clamped. | a session that ends 60 seconds before its start gives (0, 59.0) | a negative span counts as (0, 0) | medium; not executed | Core.OneMinuteBeforeStart | Core.SaturatingDuration |
| dtimetracker/gui/sessions.py:194 | the "Last 7 days" end is `datetime.combine(start, …)`, the end of the first day of the range | today = 2024-03-15 gives 2024-03-09 up to 2024-03-09 23:59:59.000999; today is never included | `datetime.combine(today, …)`, as in the "Last 30 days" arm | high; not executed | Sessions.Last7DaysRange | Sessions.Last7DaysIntended |
