/** Timestamps, local-day buckets and calendar parts.

    A timestamp is an integer number of milliseconds since the Unix epoch, as
    `Date.getTime()` returns it. Local time is UTC shifted by one fixed offset,
    `LocalOffsetMs`, whose value is left open: every result in this project holds
    whatever it is. Real time-zone rules (daylight saving) are not modelled. */
module Clock {

  const SecondMs: int := 1000
  const MinuteMs: int := 60_000
  const HourMs: int := 3_600_000
  const DayMs: int := 86_400_000

  /** Offset of local time from UTC, in milliseconds (left unspecified). */
  const LocalOffsetMs: int

  /** What `new Date(x)` produces: a valid instant, or an Invalid Date whose
      time value is NaN. */
  datatype DateValue = At(ms: int) | InvalidDate

  /** A calendar date with JavaScript's conventions: `month` is 0..11 as
      `getMonth()` returns it, `day` is 1..31 as `getDate()` returns it. */
  datatype CivilDate = CivilDate(year: int, month: int, day: int)

  // ---------------------------------------------------------------------------
  // Day buckets

  /** Number of the local day that contains `t` (days since 1970-01-01 local). */
  function LocalDay(t: int): int
  {
    (t + LocalOffsetMs) / DayMs
  }

  /** `new Date(t).setHours(0, 0, 0, 0)`: the local midnight starting t's day. */
  function Midnight(t: int): (m: int)
    ensures m <= t < m + DayMs
    ensures (m + LocalOffsetMs) % DayMs == 0
    ensures m == LocalDay(t) * DayMs - LocalOffsetMs
  {
    t - (t + LocalOffsetMs) % DayMs
  }

  /** `new Date(t).setHours(23, 59, 59, 999)`: the last millisecond of t's local day. */
  function EndOfDay(t: int): (e: int)
    ensures Midnight(t) <= t <= e
    ensures e == Midnight(t) + DayMs - 1
  {
    Midnight(t) + 23 * HourMs + 59 * MinuteMs + 59 * SecondMs + 999
  }

  /** Adding less than a day to a multiple of DayMs leaves that amount as remainder. */
  lemma ModOfOffset(x: int, k: int)
    requires x % DayMs == 0
    requires 0 <= k < DayMs
    ensures (x + k) % DayMs == k
  {
    var q := x / DayMs;
    assert x == q * DayMs;
    assert x + k == q * DayMs + k;
  }

  /** Local midnight is a fixed point of `setHours(0, 0, 0, 0)`. */
  lemma MidnightIdempotent(t: int)
    ensures Midnight(Midnight(t)) == Midnight(t)
  {
    var m := Midnight(t);
    ModOfOffset(m + LocalOffsetMs, 0);
  }

  /** Two instants fall in the same bucket exactly when the second lies in the
      24 hours that start at the first one's midnight. */
  lemma {:induction false} SameBucketIff(a: int, b: int)
    ensures Midnight(a) == Midnight(b) <==> Midnight(a) <= b < Midnight(a) + DayMs
  {
    var m := Midnight(a);
    if m <= b < m + DayMs {
      ModOfOffset(m + LocalOffsetMs, b - m);
      assert (b + LocalOffsetMs) % DayMs == b - m;
    }
  }

  /** Equal buckets are equal local day numbers. */
  lemma SameBucketSameDay(a: int, b: int)
    requires Midnight(a) == Midnight(b)
    ensures LocalDay(a) == LocalDay(b)
  {
    assert LocalDay(a) * DayMs == LocalDay(b) * DayMs;
  }

  // ---------------------------------------------------------------------------
  // Calendar parts

  /** Proleptic Gregorian date of day number `z` (days since 1970-01-01), by the
      era/year-of-era decomposition in 400-year cycles of 146097 days; the
      computed year starts on March 1 and is shifted back to January at the end. */
  function CivilFromDays(z: int): (c: CivilDate)
    ensures 1 <= c.day <= 31
  {
    var z0 := z + 719468;
    var era := z0 / 146097;
    var doe := z0 % 146097;
    var yoe := (doe - doe / 1460 + doe / 36524 - doe / 146096) / 365;
    var doy := doe - (365 * yoe + yoe / 4 - yoe / 100);
    var mp := (5 * doy + 2) / 153;
    var d := doy - (153 * mp + 2) / 5 + 1;
    var m := if mp < 10 then mp + 3 else mp - 9;
    DayOfMonthBounds(doy, mp);
    CivilDate(yoe + era * 400 + (if m <= 2 then 1 else 0), m - 1, d)
  }

  /** The day-of-month step of `CivilFromDays` lands in 1..31 for any day of year. */
  lemma DayOfMonthBounds(doy: int, mp: int)
    requires mp == (5 * doy + 2) / 153
    ensures 1 <= doy - (153 * mp + 2) / 5 + 1 <= 31
  {
    assert 153 * mp <= 5 * doy + 2 < 153 * mp + 153;
    var q := (153 * mp + 2) / 5;
    assert 5 * q <= 153 * mp + 2 < 5 * q + 5;
  }

  /** The local calendar date containing `t`. */
  function Calendar(t: int): CivilDate
  {
    CivilFromDays(LocalDay(t))
  }

  /** `getDate()`: day of the month, 1..31. */
  function GetDate(t: int): (d: int)
    ensures 1 <= d <= 31
  {
    Calendar(t).day
  }

  /** `getMonth()`: month of the year, counted from 0. */
  function GetMonth(t: int): int
  {
    Calendar(t).month
  }

  /** `getFullYear()`. */
  function GetFullYear(t: int): int
  {
    Calendar(t).year
  }

  /** Two instants in the same local-day bucket have the same calendar date. */
  lemma SameBucketSameCalendar(a: int, b: int)
    requires Midnight(a) == Midnight(b)
    ensures GetDate(a) == GetDate(b) && GetMonth(a) == GetMonth(b) && GetFullYear(a) == GetFullYear(b)
  {
    SameBucketSameDay(a, b);
  }

  /** An anchor of the calendar: day 0 is 1970-01-01. */
  lemma EpochIsJanuaryFirst1970()
    ensures CivilFromDays(0) == CivilDate(1970, 0, 1)
  {
    assert 719468 / 146097 == 4 && 719468 % 146097 == 135080;
    assert (135080 - 135080 / 1460 + 135080 / 36524 - 135080 / 146096) / 365 == 369;
    assert 135080 - (365 * 369 + 369 / 4 - 369 / 100) == 306;
    assert (5 * 306 + 2) / 153 == 10 && (153 * 10 + 2) / 5 == 306;
  }
}
