/**
 Naive (timezone-free) date and time arithmetic on the proleptic Gregorian
 calendar, as Python's `datetime` module does it. An instant is a count of
 seconds since 0001-01-01 00:00:00, the first instant `datetime` can
 represent; `ToInstant` and `FromInstant` convert between instants and
 calendar fields and are proved to be inverse to each other.
 */
module Calendar {
  import opened Config

  const SecondsPerMinute: nat := 60
  /** The length of a clock hour. It is fixed; the configurable `SECONDS_PER_HOUR` is unrelated. */
  const SecondsPerClockHour: nat := 3600
  const SecondsPerDay: nat := 86400
  const MinYear: int := 1
  const MaxYear: int := 9999

  type Instant = nat

  datatype DateTime = DateTime(year: int, month: int, day: int, hour: int, minute: int, second: int)

  predicate IsLeapYear(y: int) {
    y % 4 == 0 && (y % 100 != 0 || y % 400 == 0)
  }

  function DaysInYear(y: int): nat {
    if IsLeapYear(y) then 366 else 365
  }

  function DaysInMonth(y: int, m: int): nat
    requires 1 <= m <= 12
  {
    if m == 2 then (if IsLeapYear(y) then 29 else 28)
    else if m == 4 || m == 6 || m == 9 || m == 11 then 30
    else 31
  }

  /** Days in the months of year `y` that come before month `m` (`m == 13` gives the whole year). */
  function DaysBeforeMonth(y: int, m: int): nat
    requires 1 <= m <= 13
  {
    if m == 1 then 0 else DaysBeforeMonth(y, m - 1) + DaysInMonth(y, m - 1)
  }

  /** Days from 0001-01-01 to January 1 of year `y`, in the closed form Python uses. */
  function DaysBeforeYear(y: int): int
    requires y >= 1
  {
    var x := y - 1;
    x * 365 + x / 4 - x / 100 + x / 400
  }

  predicate ValidDateTime(dt: DateTime) {
    && dt.year >= MinYear
    && 1 <= dt.month <= 12
    && 1 <= dt.day <= DaysInMonth(dt.year, dt.month)
    && 0 <= dt.hour < 24
    && 0 <= dt.minute < 60
    && 0 <= dt.second < 60
  }

  /** The fields `datetime.datetime` accepts: valid ones, in years 1 to 9999. */
  predicate InDatetimeRange(dt: DateTime) {
    ValidDateTime(dt) && dt.year <= MaxYear
  }

  // ---------------------------------------------------------------------------
  // Arithmetic helpers

  lemma DivModUnique(a: int, k: int, q: int, r: int)
    requires k > 0 && 0 <= r < k && a == q * k + r
    ensures a / k == q && a % k == r
  {
    var q', r' := a / k, a % k;
    assert a == q' * k + r';
    if q' > q {
      assert q' * k >= (q + 1) * k by { MulMonotone(q + 1, q', k); }
    } else if q' < q {
      assert q * k >= (q' + 1) * k by { MulMonotone(q' + 1, q, k); }
    }
  }

  lemma MulMonotone(a: int, b: int, k: int)
    requires a <= b && k >= 0
    ensures a * k <= b * k
  {
    assert b * k - a * k == (b - a) * k;
  }

  /** Moving from `x` to `x + 1` adds one to `x / k` exactly when `k` divides `x + 1`. */
  lemma DivStep(x: int, k: int)
    requires k > 0
    ensures (x + 1) / k - x / k == if (x + 1) % k == 0 then 1 else 0
  {
    var q, r := x / k, x % k;
    if r == k - 1 {
      DivModUnique(x + 1, k, q + 1, 0);
    } else {
      DivModUnique(x + 1, k, q, r + 1);
    }
  }

  lemma DivisibleBy(y: int, big: int, small: int)
    requires small > 0 && big % small == 0 && big > 0 && y % big == 0
    ensures y % small == 0
  {
    var p := big / small;
    DivModUnique(big, small, p, 0);
    var q := y / big;
    assert y == q * big;
    assert y == (q * p) * small;
    DivModUnique(y, small, q * p, 0);
  }

  // ---------------------------------------------------------------------------
  // Year and month tables

  /** The closed form counts exactly the days of the years before: it grows by one year's length per year. */
  lemma DaysBeforeYearStep(y: int)
    requires y >= 1
    ensures DaysBeforeYear(y + 1) == DaysBeforeYear(y) + DaysInYear(y)
  {
    DivStep(y - 1, 4);
    DivStep(y - 1, 100);
    DivStep(y - 1, 400);
    if y % 400 == 0 { DivisibleBy(y, 400, 100); }
    if y % 100 == 0 { DivisibleBy(y, 100, 4); }
  }

  lemma {:induction false} DaysBeforeYearGap(a: int, b: int)
    requires 1 <= a < b
    ensures DaysBeforeYear(a) + DaysInYear(a) <= DaysBeforeYear(b)
    decreases b - a
  {
    DaysBeforeYearStep(a);
    if a + 1 < b {
      DaysBeforeYearGap(a + 1, b);
    }
  }

  lemma DaysBeforeYearNonNegative(y: int)
    requires y >= 1
    ensures DaysBeforeYear(y) >= 0
  {
    if y > 1 { DaysBeforeYearGap(1, y); }
  }

  lemma DaysBeforeMonthTotal(y: int)
    ensures DaysBeforeMonth(y, 13) == DaysInYear(y)
  {
    var feb := DaysInMonth(y, 2);
    assert DaysBeforeMonth(y, 2) == 31;
    assert DaysBeforeMonth(y, 3) == 31 + feb;
    assert DaysBeforeMonth(y, 4) == 62 + feb;
    assert DaysBeforeMonth(y, 5) == 92 + feb;
    assert DaysBeforeMonth(y, 6) == 123 + feb;
    assert DaysBeforeMonth(y, 7) == 153 + feb;
    assert DaysBeforeMonth(y, 8) == 184 + feb;
    assert DaysBeforeMonth(y, 9) == 215 + feb;
    assert DaysBeforeMonth(y, 10) == 245 + feb;
    assert DaysBeforeMonth(y, 11) == 276 + feb;
    assert DaysBeforeMonth(y, 12) == 306 + feb;
  }

  lemma {:induction false} DaysBeforeMonthGap(y: int, a: int, b: int)
    requires 1 <= a < b <= 13
    ensures DaysBeforeMonth(y, a) + DaysInMonth(y, a) <= DaysBeforeMonth(y, b)
    decreases b - a
  {
    if a + 1 < b {
      DaysBeforeMonthGap(y, a + 1, b);
    }
  }

  /**
   Splits a count of days since January 1 of year `y` into a year and a day
   of that year (0-based).
   */
  function YearOf(days: nat, y: int): (r: (int, nat))
    requires y >= 1
    ensures r.0 >= y && r.1 < DaysInYear(r.0)
    ensures DaysBeforeYear(r.0) + r.1 == DaysBeforeYear(y) + days
    decreases days
  {
    if days < DaysInYear(y) then (y, days)
    else
      DaysBeforeYearStep(y);
      YearOf(days - DaysInYear(y), y + 1)
  }

  /**
   Splits a day of year `y` counted from the first day of month `m` into a
   month and a day of that month (0-based).
   */
  function MonthOf(days: nat, y: int, m: int): (r: (int, nat))
    requires 1 <= m <= 12 && DaysBeforeMonth(y, m) + days < DaysInYear(y)
    ensures m <= r.0 <= 12 && r.1 < DaysInMonth(y, r.0)
    ensures DaysBeforeMonth(y, r.0) + r.1 == DaysBeforeMonth(y, m) + days
    decreases 12 - m
  {
    if days < DaysInMonth(y, m) then (m, days)
    else
      DaysBeforeMonthTotal(y);
      MonthOf(days - DaysInMonth(y, m), y, m + 1)
  }

  // ---------------------------------------------------------------------------
  // Instants

  /** Days from 0001-01-01 to the day of `dt`. */
  function DayNumber(dt: DateTime): nat
    requires ValidDateTime(dt)
  {
    DaysBeforeYearNonNegative(dt.year);
    DaysBeforeYear(dt.year) + DaysBeforeMonth(dt.year, dt.month) + dt.day - 1
  }

  function ToInstant(dt: DateTime): Instant
    requires ValidDateTime(dt)
  {
    DayNumber(dt) * SecondsPerDay + dt.hour * SecondsPerClockHour + dt.minute * SecondsPerMinute + dt.second
  }

  function FromInstant(t: Instant): (dt: DateTime)
    ensures ValidDateTime(dt)
  {
    var days, secs := t / SecondsPerDay, t % SecondsPerDay;
    var (y, dayOfYear) := YearOf(days, 1);
    var (m, dayOfMonth) := MonthOf(dayOfYear, y, 1);
    DateTime(y, m, dayOfMonth + 1, secs / SecondsPerClockHour,
             secs % SecondsPerClockHour / SecondsPerMinute, secs % SecondsPerMinute)
  }

  /** Splitting the seconds of a day into hour, minute and second and joining them back is the identity. */
  lemma ClockFields(secs: int, h: int, mi: int, s: int)
    requires 0 <= h < 24 && 0 <= mi < 60 && 0 <= s < 60
    requires secs == h * 3600 + mi * 60 + s
    ensures secs / 3600 == h && secs % 3600 / 60 == mi && secs % 60 == s
  {
    DivModUnique(secs, 3600, h, mi * 60 + s);
    DivModUnique(mi * 60 + s, 60, mi, s);
    DivModUnique(secs, 60, h * 60 + mi, s);
  }

  lemma {:induction false} FromToInstant(dt: DateTime)
    requires ValidDateTime(dt)
    ensures FromInstant(ToInstant(dt)) == dt
  {
    var t := ToInstant(dt);
    var secs := dt.hour * 3600 + dt.minute * 60 + dt.second;
    DivModUnique(t, SecondsPerDay, DayNumber(dt), secs);
    ClockFields(secs, dt.hour, dt.minute, dt.second);
    var r := YearOf(DayNumber(dt), 1);
    var dayOfYear := DaysBeforeMonth(dt.year, dt.month) + dt.day - 1;
    DaysBeforeMonthGap(dt.year, dt.month, 13);
    DaysBeforeMonthTotal(dt.year);
    YearUnique(r.0, r.1, dt.year, dayOfYear);
    var s := MonthOf(dayOfYear, dt.year, 1);
    MonthUnique(dt.year, s.0, s.1, dt.month, dt.day - 1);
  }

  lemma ToFromInstant(t: Instant)
    ensures ToInstant(FromInstant(t)) == t
  {
    var days, secs := t / SecondsPerDay, t % SecondsPerDay;
    var r := YearOf(days, 1);
    var s := MonthOf(r.1, r.0, 1);
    assert DaysBeforeYear(1) == 0 && DaysBeforeMonth(r.0, 1) == 0;
    var dt := DateTime(r.0, s.0, s.1 + 1, secs / 3600, secs % 3600 / 60, secs % 60);
    assert FromInstant(t) == dt;
    assert DayNumber(dt) == days;
    ClockJoin(secs);
    assert t == days * SecondsPerDay + secs;
  }

  /** The hour, minute and second of a count of seconds join back into it. */
  lemma ClockJoin(secs: nat)
    ensures secs == secs / 3600 * 3600 + secs % 3600 / 60 * 60 + secs % 60
  {
    var h, rest := secs / 3600, secs % 3600;
    var mi, s := rest / 60, rest % 60;
    assert rest == mi * 60 + s;
    assert secs == (h * 60 + mi) * 60 + s;
    DivModUnique(secs, 60, h * 60 + mi, s);
  }

  lemma YearUnique(a: int, i: int, b: int, j: int)
    requires a >= 1 && b >= 1 && 0 <= i < DaysInYear(a) && 0 <= j < DaysInYear(b)
    requires DaysBeforeYear(a) + i == DaysBeforeYear(b) + j
    ensures a == b && i == j
  {
    if a < b { DaysBeforeYearGap(a, b); }
    if b < a { DaysBeforeYearGap(b, a); }
  }

  lemma MonthUnique(y: int, a: int, i: int, b: int, j: int)
    requires 1 <= a <= 12 && 1 <= b <= 12 && 0 <= i < DaysInMonth(y, a) && 0 <= j < DaysInMonth(y, b)
    requires DaysBeforeMonth(y, a) + i == DaysBeforeMonth(y, b) + j
    ensures a == b && i == j
  {
    if a < b { DaysBeforeMonthGap(y, a, b); }
    if b < a { DaysBeforeMonthGap(y, b, a); }
  }

  // ---------------------------------------------------------------------------
  // What the time grid reads off an instant

  /** `time_stamp.year`. */
  function Year(t: Instant): (y: int)
    ensures y >= MinYear
  {
    FromInstant(t).year
  }

  /** `datetime.datetime(year, 1, 1, 0, 0)` as an instant. */
  function YearStart(y: int): (t: Instant)
    requires y >= 1
    ensures t % SecondsPerDay == 0
  {
    DaysBeforeYearNonNegative(y);
    DaysBeforeYear(y) * SecondsPerDay
  }

  /** `time_stamp.hour`: the wall-clock hour, midnight to midnight. */
  function HourOfDay(t: Instant): (h: nat)
    ensures h < 24
  {
    FromInstant(t).hour
  }

  /** An instant lies in year `y` exactly when it is between the starts of `y` and `y + 1`. */
  lemma {:induction false} YearCharacterised(t: Instant, y: int)
    requires y >= 1
    ensures Year(t) == y <==> YearStart(y) <= t < YearStart(y + 1)
  {
    var days := t / SecondsPerDay;
    var r := YearOf(days, 1);
    DaysBeforeYearStep(y);
    DaysBeforeYearStep(r.0);
    DaysBeforeYearNonNegative(y);
    if YearStart(y) <= t < YearStart(y + 1) {
      DivModUnique(t, SecondsPerDay, days, t % SecondsPerDay);
      assert DaysBeforeYear(y) <= days < DaysBeforeYear(y + 1);
      YearUnique(r.0, r.1, y, days - DaysBeforeYear(y));
    }
    if Year(t) == y {
      assert r.0 == y;
      MulMonotone(DaysBeforeYear(y), days, SecondsPerDay);
      MulMonotone(days + 1, DaysBeforeYear(y + 1), SecondsPerDay);
    }
  }

  /** Year `y + 1` starts one length of year `y` after year `y` starts. */
  lemma YearStartStep(y: int)
    requires y >= 1
    ensures YearStart(y + 1) == YearStart(y) + DaysInYear(y) * SecondsPerDay
  {
    var a, b := DaysBeforeYear(y), DaysInYear(y);
    DaysBeforeYearStep(y);
    assert (a + b) * SecondsPerDay == a * SecondsPerDay + b * SecondsPerDay;
  }

  /** An offset shorter than year `y` from the start of `y` stays in `y`. */
  lemma YearStartOffset(y: int, offset: int)
    requires y >= 1 && 0 <= offset < DaysInYear(y) * SecondsPerDay
    ensures Year(YearStart(y) + offset) == y
  {
    var t: Instant := YearStart(y) + offset;
    YearStartStep(y);
    YearCharacterised(t, y);
  }

  /** The offset of an instant from the start of its own year is less than one year's length. */
  lemma YearOffset(t: Instant)
    ensures Year(t) >= 1
    ensures YearStart(Year(t)) <= t < YearStart(Year(t)) + DaysInYear(Year(t)) * SecondsPerDay
  {
    var y := Year(t);
    YearCharacterised(t, y);
    DaysBeforeYearStep(y);
  }

  /** The hour index read off an instant is the hour field of the date and time it stands for. */
  lemma HourOfDayIsClockHour(dt: DateTime)
    requires ValidDateTime(dt)
    ensures HourOfDay(ToInstant(dt)) == dt.hour
  {
    FromToInstant(dt);
  }

  /**
   `datetime.datetime(year, month, day, hour, minute)`: the instant of the
   given fields, or an error when `datetime` rejects them.
   */
  function MakeInstant(f: DateFields): (r: Result<Instant>)
    ensures r.Ok? <==> InDatetimeRange(DateTime(f.year, f.month, f.day, f.hour, f.minute, 0))
    ensures r.Ok? ==> FromInstant(r.value) == DateTime(f.year, f.month, f.day, f.hour, f.minute, 0)
    ensures r.Err? ==> r.error == InvalidDateTime
  {
    var dt := DateTime(f.year, f.month, f.day, f.hour, f.minute, 0);
    if InDatetimeRange(dt) then
      FromToInstant(dt);
      Ok(ToInstant(dt))
    else Err(InvalidDateTime)
  }
}
