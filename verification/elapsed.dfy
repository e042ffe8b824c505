/** `timeFromDate` and `yearsFromBirthday`: an elapsed time in milliseconds
    split into years of exactly 365 days, days, hours, minutes and seconds
    by repeated floor division. The current time and the reference instant
    enter as the integer difference `msDiff`. */
module Elapsed {

  const SecondMs: int := 1000
  const MinuteMs: int := 60 * SecondMs
  const HourMs: int := 60 * MinuteMs
  const DayMs: int := 24 * HourMs
  const YearMs: int := 365 * DayMs

  datatype Span = Span(years: int, days: int, hours: int, minutes: int, seconds: int)

  /** The milliseconds a decomposition accounts for. */
  function Recompose(e: Span): int {
    e.years * YearMs + e.days * DayMs + e.hours * HourMs + e.minutes * MinuteMs + e.seconds * SecondMs
  }

  predicate InRange(e: Span) {
    && 0 <= e.days < 365
    && 0 <= e.hours < 24
    && 0 <= e.minutes < 60
    && 0 <= e.seconds < 60
  }

  /** `Math.floor(n / d)` for a positive divisor: Dafny's division rounds
      toward negative infinity when the divisor is positive. */
  function FloorDiv(n: int, d: int): (q: int)
    requires d > 0
    ensures q * d <= n < q * d + d
  {
    n / d
  }

  lemma MulAtLeastOnce(k: int, d: int)
    requires k >= 1 && d > 0
    ensures k * d >= d
  {
    assert k * d == (k - 1) * d + d;
  }

  /** The floor quotient is the only q with q*d <= n < q*d + d. */
  lemma FloorDivUnique(n: int, d: int, q: int)
    requires d > 0 && q * d <= n < q * d + d
    ensures q == FloorDiv(n, d)
  {
    var f := FloorDiv(n, d);
    if q < f {
      assert (f - q) * d == f * d - q * d;
      MulAtLeastOnce(f - q, d);
    } else if q > f {
      assert (q - f) * d == q * d - f * d;
      MulAtLeastOnce(q - f, d);
    }
  }

  /** `timeFromDate()` for `msDiff = now - reference`: every unit below the
      year stays within its range (also for a negative difference, where
      only the year count is negative), and together the parts account for
      the difference up to the dropped sub-second remainder. */
  function TimeFromDate(msDiff: int): (e: Span)
    ensures InRange(e)
    ensures Recompose(e) <= msDiff < Recompose(e) + SecondMs
  {
    var years := FloorDiv(msDiff, YearMs);
    var afterYears := msDiff - years * YearMs;
    var days := FloorDiv(afterYears, DayMs);
    var afterDays := afterYears - days * DayMs;
    var hours := FloorDiv(afterDays, HourMs);
    var afterHours := afterDays - hours * HourMs;
    var minutes := FloorDiv(afterHours, MinuteMs);
    var afterMinutes := afterHours - minutes * MinuteMs;
    var seconds := FloorDiv(afterMinutes, SecondMs);
    Span(years, days, hours, minutes, seconds)
  }

  /** The decomposition is unique: any span in range that accounts for
      `msDiff` to the second is the one `timeFromDate` returns. */
  lemma TimeFromDateUnique(msDiff: int, e: Span)
    requires InRange(e)
    requires Recompose(e) <= msDiff < Recompose(e) + SecondMs
    ensures e == TimeFromDate(msDiff)
  {
    var rest := msDiff - e.years * YearMs;
    assert 0 <= rest < YearMs;
    FloorDivUnique(msDiff, YearMs, e.years);
    var rest1 := rest - e.days * DayMs;
    assert 0 <= rest1 < DayMs;
    FloorDivUnique(rest, DayMs, e.days);
    var rest2 := rest1 - e.hours * HourMs;
    FloorDivUnique(rest1, HourMs, e.hours);
    var rest3 := rest2 - e.minutes * MinuteMs;
    FloorDivUnique(rest2, MinuteMs, e.minutes);
    FloorDivUnique(rest3, SecondMs, e.seconds);
  }

  /** `yearsFromBirthday()` for `msDiff = now - birthday`: whole 365-day
      years elapsed, rounded down. */
  function YearsFromBirthday(msDiff: int): (years: int)
    ensures years * YearMs <= msDiff < (years + 1) * YearMs
  {
    FloorDiv(msDiff, YearMs)
  }

  /** Both functions agree on the year count of the same difference. */
  lemma YearsAgree(msDiff: int)
    ensures YearsFromBirthday(msDiff) == TimeFromDate(msDiff).years
  {
  }

  /** 400 days after the reference: one 365-day year and 35 days. */
  lemma FourHundredDays()
    ensures TimeFromDate(400 * DayMs) == Span(1, 35, 0, 0, 0)
  {
    TimeFromDateUnique(400 * DayMs, Span(1, 35, 0, 0, 0));
  }

  /** One millisecond before the reference: the year count is -1 and the
      remaining parts are the last second of a 365-day year. */
  lemma OneMillisecondBefore()
    ensures TimeFromDate(-1) == Span(-1, 364, 23, 59, 59)
  {
    TimeFromDateUnique(-1, Span(-1, 364, 23, 59, 59));
  }
}
