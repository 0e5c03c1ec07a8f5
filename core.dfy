/**
 * Projects, sessions and the duration of a session (dtimetracker/core.py).
 * The clock read by the Python code is the parameter `now`; the floating
 * point arithmetic on `timedelta.total_seconds()` is modelled on exact reals.
 */
module Core {
  import opened Wrappers
  import opened Calendar

  /** A project; `id` stays `None` until the store assigns one. */
  datatype Project = Project(id: Option<int>, name: string)

  /**
   * What a session's `end` attribute holds: `None` while the session is
   * open, a `datetime` once it has ended, or some other value (for instance
   * a plain `date`), which the type test in `compute_duration` rejects.
   */
  datatype SessionEnd = Open | Ended(at: Instant) | NotDatetime

  datatype Session = Session(id: Option<int>, project: Project, start: Instant, end: SessionEnd)

  /** `Project(name)`: no id yet, the given name. */
  function NewProject(name: string): (p: Project)
    ensures p.id.None? && p.name == name
  {
    Project(None, name)
  }

  /** `Session(project)` created at clock reading `now`: open, no id, started at `now` cut to its whole second. */
  function NewSession(project: Project, now: Instant): (s: Session)
    requires ValidInstant(now)
    ensures s.id.None? && s.project == project && s.end.Open?
    ensures ValidInstant(s.start) && s.start.date == now.date
    ensures s.start.micros % MicrosPerSecond == 0
    ensures 0 <= Timestamp(now) - Timestamp(s.start) < MicrosPerSecond
  {
    Session(None, project, TruncateToSecond(now), Open)
  }

  const SecondsPerHour: real := 3600.0
  const SecondsPerMinute: real := 60.0

  /** `timedelta.total_seconds()` of `end - start`. */
  function ElapsedSeconds(start: Instant, end: Instant): real
    requires ValidInstant(start) && ValidInstant(end)
  {
    (Timestamp(end) - Timestamp(start)) as real / MicrosPerSecond as real
  }

  /** Python's `x % 3600` on floats: what is left after the last whole hour, never negative. */
  function ModHour(x: real): (r: real)
    ensures 0.0 <= r < SecondsPerHour
    ensures ((x - r) / SecondsPerHour).Floor as real == (x - r) / SecondsPerHour
  {
    x - SecondsPerHour * (x / SecondsPerHour).Floor as real
  }

  /**
   * `_compute_time_difference(start, end)`: whole hours, rounded towards
   * minus infinity, and the minutes left over in the last (partial) hour.
   */
  function TimeDifference(start: Instant, end: Instant): (r: (int, real))
    requires ValidInstant(start) && ValidInstant(end)
    ensures 0.0 <= r.1 < 60.0
    ensures r.0 as real * SecondsPerHour + r.1 * SecondsPerMinute == ElapsedSeconds(start, end)
  {
    var seconds := ElapsedSeconds(start, end);
    ((seconds / SecondsPerHour).Floor, ModHour(seconds) / SecondsPerMinute)
  }

  function MaxInt(a: int, b: int): int { if a >= b then a else b }
  function MaxReal(a: real, b: real): real { if a >= b then a else b }

  /** The instant a session is measured up to, if its end has a usable type. */
  function MeasuredEnd(s: Session, now: Instant): Option<Instant>
    requires ValidInstant(now)
  {
    match s.end
    case Open => Some(TruncateToSecond(now))
    case Ended(e) => Some(e)
    case NotDatetime => None
  }

  predicate WellFormed(s: Session) {
    ValidInstant(s.start) && (s.end.Ended? ==> ValidInstant(s.end.at))
  }

  /** The (hours, minutes) pair before the clamping on the last line of `compute_duration`. */
  function UnclampedDuration(s: Session, now: Instant): (int, real)
    requires WellFormed(s) && ValidInstant(now)
  {
    match MeasuredEnd(s, now)
    case Some(e) => TimeDifference(s.start, e)
    case None => (0, 0.0)
  }

  /**
   * `Session.compute_duration` with the clock reading `now`: an open session
   * is measured up to `now` cut to its whole second, an ended one up to its
   * end; an end of any other type gives (0, 0). Both parts are then clamped
   * at zero.
   */
  function ComputeDuration(s: Session, now: Instant): (r: (int, real))
    requires WellFormed(s) && ValidInstant(now)
    ensures r.0 >= 0 && 0.0 <= r.1 < 60.0
    ensures MeasuredEnd(s, now).None? ==> r == (0, 0.0)
  {
    var (hours, minutes) := UnclampedDuration(s, now);
    (MaxInt(hours, 0), MaxReal(minutes, 0.0))
  }

  /** Elapsed seconds a session is measured over, when it has a usable end. */
  function Elapsed(s: Session, now: Instant): real
    requires WellFormed(s) && ValidInstant(now)
    requires MeasuredEnd(s, now).Some?
  {
    ElapsedSeconds(s.start, MeasuredEnd(s, now).value)
  }

  /** For a non-negative elapsed time the pair gives back the elapsed seconds exactly. */
  lemma DurationReconstructsElapsed(s: Session, now: Instant)
    requires WellFormed(s) && ValidInstant(now)
    requires MeasuredEnd(s, now).Some? && Elapsed(s, now) >= 0.0
    ensures ComputeDuration(s, now).0 as real * SecondsPerHour
            + ComputeDuration(s, now).1 * SecondsPerMinute == Elapsed(s, now)
  {
    var r := TimeDifference(s.start, MeasuredEnd(s, now).value);
    assert r.0 >= 0;
  }

  /**
   * The hours are the whole hours elapsed, floored, and clamped at zero;
   * the minutes are the rest of the last hour, even when the end lies
   * before the start.
   */
  lemma DurationHours(s: Session, now: Instant)
    requires WellFormed(s) && ValidInstant(now)
    requires MeasuredEnd(s, now).Some?
    ensures var r := ComputeDuration(s, now);
      && (Elapsed(s, now) >= 0.0 ==>
            r.0 as real * SecondsPerHour <= Elapsed(s, now) < (r.0 + 1) as real * SecondsPerHour)
      && (Elapsed(s, now) < 0.0 ==>
            r.0 == 0 && r.1 * SecondsPerMinute == ModHour(Elapsed(s, now)))
  {
  }

  /** A session that ends at its start lasts (0, 0). */
  lemma ZeroLengthSession(s: Session, now: Instant)
    requires WellFormed(s) && ValidInstant(now)
    requires s.end == Ended(s.start)
    ensures ComputeDuration(s, now) == (0, 0.0)
  {
    var r := TimeDifference(s.start, s.start);
    assert r.0 as real * SecondsPerHour + r.1 * SecondsPerMinute == 0.0;
  }

  /** An open session measures the same as one ended at the truncated clock reading. */
  lemma OpenMatchesEnded(s: Session, now: Instant)
    requires WellFormed(s) && ValidInstant(now)
    ensures ComputeDuration(s.(end := Open), now)
            == ComputeDuration(s.(end := Ended(TruncateToSecond(now))), now)
  {
  }

  lemma WholeSecondElapsed(start: Instant, end: Instant)
    requires ValidInstant(start) && ValidInstant(end)
    requires start.micros % MicrosPerSecond == 0 && end.micros % MicrosPerSecond == 0
    ensures ElapsedSeconds(start, end) == ((Timestamp(end) - Timestamp(start)) / MicrosPerSecond) as real
  {
    var micros := Timestamp(end) - Timestamp(start);
    var days := Ordinal(end.date) - Ordinal(start.date);
    var secs := days * 86400 + end.micros / MicrosPerSecond - start.micros / MicrosPerSecond;
    assert micros == secs * MicrosPerSecond;
    assert micros / MicrosPerSecond == secs;
  }

  /** Between whole-second instants, the minutes times sixty are a whole number of seconds. */
  lemma WholeSecondTimeDifference(start: Instant, end: Instant)
    requires ValidInstant(start) && ValidInstant(end)
    requires start.micros % MicrosPerSecond == 0 && end.micros % MicrosPerSecond == 0
    ensures var m := TimeDifference(start, end).1 * SecondsPerMinute; m.Floor as real == m
  {
    WholeSecondElapsed(start, end);
    var secs := (Timestamp(end) - Timestamp(start)) / MicrosPerSecond;
    var r := TimeDifference(start, end);
    assert r.1 * SecondsPerMinute == (secs - 3600 * r.0) as real;
  }

  /** A session between whole-second instants reports minutes that are a whole number of seconds. */
  lemma WholeSecondMinutes(s: Session, now: Instant)
    requires WellFormed(s) && ValidInstant(now)
    requires MeasuredEnd(s, now).Some?
    requires s.start.micros % MicrosPerSecond == 0
    requires MeasuredEnd(s, now).value.micros % MicrosPerSecond == 0
    ensures var m := ComputeDuration(s, now).1 * SecondsPerMinute; m.Floor as real == m
  {
    var e := MeasuredEnd(s, now).value;
    WholeSecondTimeDifference(s.start, e);
    assert ComputeDuration(s, now).1 == TimeDifference(s.start, e).1;
  }

  /** 3 h 33 min elapsed gives (3, 33), for an ended session and for an open one alike. */
  lemma ThreeHoursThirtyThree(s: Session, now: Instant)
    requires WellFormed(s) && ValidInstant(now)
    requires MeasuredEnd(s, now).Some?
    requires Timestamp(MeasuredEnd(s, now).value) - Timestamp(s.start) == (3 * 3600 + 33 * 60) * MicrosPerSecond
    ensures ComputeDuration(s, now) == (3, 33.0)
  {
    assert Elapsed(s, now) == 12780.0;
    DurationHours(s, now);
    DurationReconstructsElapsed(s, now);
  }

  /**
   * The evidently intended policy for a negative span: the session counts
   * as (0, 0). It differs from `ComputeDuration` only there.
   */
  function SaturatingDuration(s: Session, now: Instant): (r: (int, real))
    requires WellFormed(s) && ValidInstant(now)
    ensures r.0 >= 0 && 0.0 <= r.1 < 60.0
    ensures MeasuredEnd(s, now).Some? && Elapsed(s, now) < 0.0 ==> r == (0, 0.0)
    ensures !(MeasuredEnd(s, now).Some? && Elapsed(s, now) < 0.0) ==> r == ComputeDuration(s, now)
  {
    var (hours, minutes) := UnclampedDuration(s, now);
    if hours < 0 then (0, 0.0) else (hours, minutes)
  }

  /**
   * As written, a session whose end lies before its start by anything other
   * than whole hours keeps a positive minute count, where the saturating
   * policy gives (0, 0).
   */
  lemma NegativeSpanKeepsMinutes(s: Session, now: Instant)
    requires WellFormed(s) && ValidInstant(now)
    requires MeasuredEnd(s, now).Some? && Elapsed(s, now) < 0.0
    requires ModHour(Elapsed(s, now)) != 0.0
    ensures ComputeDuration(s, now).0 == 0 && ComputeDuration(s, now).1 > 0.0
    ensures SaturatingDuration(s, now) == (0, 0.0)
  {
    DurationHours(s, now);
  }

  /** An end one minute before the start: (0, 59) as written, (0, 0) when saturating. */
  lemma OneMinuteBeforeStart()
    ensures var start := Instant(Date(2024, 1, 1), TimeOfDay(10, 0, 0, 0));
      var s := Session(None, NewProject("p"), start, Ended(Instant(Date(2024, 1, 1), TimeOfDay(9, 59, 0, 0))));
      ComputeDuration(s, start) == (0, 59.0) && SaturatingDuration(s, start) == (0, 0.0)
  {
    var start := Instant(Date(2024, 1, 1), TimeOfDay(10, 0, 0, 0));
    var s := Session(None, NewProject("p"), start, Ended(Instant(Date(2024, 1, 1), TimeOfDay(9, 59, 0, 0))));
    assert Elapsed(s, start) == -60.0;
    assert ModHour(-60.0) == 3540.0;
  }
}
