/**
 The time structures of a run: the half-open grid of instants from the run
 start (included) to the run end (excluded) at a fixed step, the hour number
 of each instant (hours since January 1 of the instant's own year, offset by
 `first_hour_number`), the `t%04d` spine labels, and the table scaffold
 indexed by the grid with one empty column per location.
 */
module RunTime {
  import opened Config
  import opened Calendar
  import Format

  // ---------------------------------------------------------------------------
  // The grid

  /** The length in seconds of one unit of a fixed-length pandas offset: `min`, `h` and `D`. */
  function UnitSeconds(u: FrequencyUnit): (r: nat)
    ensures u == Minutes ==> r == 60
    ensures u == Hours ==> r == 3600
    ensures u == Days ==> r == 86400
  {
    match u
    case Minutes => SecondsPerMinute
    case Hours => SecondsPerClockHour
    case Days => SecondsPerDay
  }

  /** The length of one step of the run frequency in seconds; only positive sizes are accepted. */
  function StepSeconds(f: Frequency): (r: Result<nat>)
    ensures r.Ok? <==> f.size > 0
    ensures r.Err? ==> r.error == InvalidFrequency
    ensures r.Ok? ==> r.value > 0 && r.value == f.size * UnitSeconds(f.unit)
  {
    if f.size <= 0 then Err(InvalidFrequency) else Ok(f.size * UnitSeconds(f.unit))
  }

  /** `pd.date_range(start, end, freq=step, inclusive='left')` for a fixed-length step. */
  function Grid(start: Instant, end: Instant, step: nat): (r: seq<Instant>)
    requires step > 0
    ensures forall i :: 0 <= i < |r| ==> start <= r[i] < end
    decreases end - start
  {
    if start < end then [start] + Grid(start + step, end, step) else []
  }

  /** The run's start and end instants and its step, in the order the source builds them. */
  function Schedule(run: RunParameters): (r: Result<(Instant, Instant, nat)>)
    ensures r.Ok? <==> MakeInstant(run.start).Ok? && MakeInstant(run.end).Ok? && run.frequency.size > 0
    ensures r.Ok? ==> r.value.0 == MakeInstant(run.start).value && r.value.1 == MakeInstant(run.end).value
    ensures r.Ok? ==> r.value.2 > 0 && r.value.2 == StepSeconds(run.frequency).value
    ensures MakeInstant(run.start).Err? ==> r == Err(MakeInstant(run.start).error)
    ensures MakeInstant(run.start).Ok? && MakeInstant(run.end).Err? ==> r == Err(MakeInstant(run.end).error)
    ensures MakeInstant(run.start).Ok? && MakeInstant(run.end).Ok? && run.frequency.size <= 0 ==> r == Err(InvalidFrequency)
  {
    match MakeInstant(run.start)
    case Err(e) => Err(e)
    case Ok(start) =>
      match MakeInstant(run.end)
      case Err(e) => Err(e)
      case Ok(end) =>
        match StepSeconds(run.frequency)
        case Err(e) => Err(e)
        case Ok(step) => Ok((start, end, step))
  }

  lemma {:induction false} GridLength(start: Instant, end: Instant, step: nat)
    requires step > 0
    ensures |Grid(start, end, step)| == if start < end then (end - start + step - 1) / step else 0
    decreases end - start
  {
    if start < end {
      GridLength(start + step, end, step);
      var n := end - start;
      if start + step < end {
        DivModUnique(n - 1 + step, step, (n - 1) / step + 1, (n - 1) % step);
      } else {
        DivModUnique(n + step - 1, step, 1, n - 1);
      }
    }
  }

  lemma {:induction false} GridAt(start: Instant, end: Instant, step: nat, i: nat)
    requires step > 0 && i < |Grid(start, end, step)|
    ensures Grid(start, end, step)[i] == start + i * step
    decreases i
  {
    if i > 0 {
      GridAt(start + step, end, step, i - 1);
    }
  }

  /** An instant is on the grid exactly when it is in `[start, end)` a whole number of steps after `start`. */
  lemma {:induction false} GridMembership(start: Instant, end: Instant, step: nat, t: int)
    requires step > 0
    ensures t in Grid(start, end, step) <==> start <= t < end && (t - start) % step == 0
    decreases end - start
  {
    if start < end {
      GridMembership(start + step, end, step, t);
      DivModUnique(t - start, step, (t - start - step) / step + 1, (t - start - step) % step);
      if start < t < start + step {
        DivModUnique(t - start, step, 0, t - start);
      }
    }
  }

  /** The grid is the half-open range `[start, end)`: `start` is on it exactly when the range is not empty, `end` never. */
  lemma GridHalfOpen(start: Instant, end: Instant, step: nat)
    requires step > 0
    ensures forall t :: t in Grid(start, end, step) ==> start <= t < end
    ensures start in Grid(start, end, step) <==> start < end
    ensures end !in Grid(start, end, step)
    ensures Grid(start, end, step) == [] <==> end <= start
  {
    forall t | t in Grid(start, end, step) ensures start <= t < end {
      GridMembership(start, end, step, t);
    }
    GridMembership(start, end, step, start);
    GridMembership(start, end, step, end);
  }

  /** Consecutive instants are exactly one step apart. */
  lemma GridEvenlySpaced(start: Instant, end: Instant, step: nat, i: nat)
    requires step > 0 && i + 1 < |Grid(start, end, step)|
    ensures Grid(start, end, step)[i + 1] == Grid(start, end, step)[i] + step
  {
    GridAt(start, end, step, i);
    GridAt(start, end, step, i + 1);
    assert (i + 1) * step == i * step + step;
  }

  /** The grid is strictly increasing, so it has no duplicates. */
  lemma GridIncreasing(start: Instant, end: Instant, step: nat, i: nat, j: nat)
    requires step > 0 && i < j < |Grid(start, end, step)|
    ensures Grid(start, end, step)[i] < Grid(start, end, step)[j]
  {
    GridAt(start, end, step, i);
    GridAt(start, end, step, j);
    MulMonotone(i + 1, j, step);
    assert (i + 1) * step == i * step + step;
  }

  // ---------------------------------------------------------------------------
  // Hour numbers

  /** `int(a / b)`: the quotient truncated toward zero. */
  function TruncDiv(a: int, b: int): (r: int)
    requires b != 0
    ensures a >= 0 && b > 0 ==> r == a / b
    ensures (a >= 0) == (b > 0) ==> r >= 0
    ensures (a >= 0) != (b > 0) ==> r <= 0
  {
    var q := (if a >= 0 then a else -a) / (if b > 0 then b else -b);
    if (a >= 0) == (b > 0) then q else -q
  }

  /**
   `first_hour_number + int((t - datetime(t.year, 1, 1, 0, 0)).total_seconds() / SECONDS_PER_HOUR)`.
   */
  function HourNumber(t: Instant, secondsPerHour: int, firstHourNumber: int): (r: int)
    requires secondsPerHour != 0
    ensures secondsPerHour > 0 ==> r >= firstHourNumber
  {
    YearOffset(t);
    firstHourNumber + TruncDiv(t - YearStart(Year(t)), secondsPerHour)
  }

  /** The list comprehension over the grid. */
  function HourNumbers(grid: seq<Instant>, secondsPerHour: int, firstHourNumber: int): (r: seq<int>)
    requires secondsPerHour != 0 || grid == []
    ensures |r| == |grid|
    ensures forall i :: 0 <= i < |grid| ==> r[i] == HourNumber(grid[i], secondsPerHour, firstHourNumber)
  {
    if grid == [] then []
    else seq(|grid|, i requires 0 <= i < |grid| => HourNumber(grid[i], secondsPerHour, firstHourNumber))
  }

  /**
   With a positive `SECONDS_PER_HOUR` the hour number counts the whole hours
   between January 1 00:00 of the instant's year and the instant: the offset
   is never negative, so truncation is the floor.
   */
  lemma HourNumberCountsHours(t: Instant, secondsPerHour: int, firstHourNumber: int)
    requires secondsPerHour > 0
    ensures var k := HourNumber(t, secondsPerHour, firstHourNumber) - firstHourNumber;
      && k >= 0
      && YearStart(Year(t)) + k * secondsPerHour <= t < YearStart(Year(t)) + (k + 1) * secondsPerHour
  {
    YearOffset(t);
    var ys := YearStart(Year(t));
    FloorBracket(t - ys, secondsPerHour);
  }

  lemma FloorBracket(a: int, k: int)
    requires a >= 0 && k > 0
    ensures var q := TruncDiv(a, k); q >= 0 && q * k <= a < (q + 1) * k
  {
    var q := a / k;
    assert a == q * k + a % k;
    assert (q + 1) * k == q * k + k;
  }

  /** The numbering starts again each calendar year: January 1 00:00 gets exactly `first_hour_number`. */
  lemma HourNumberYearReset(y: int, secondsPerHour: int, firstHourNumber: int)
    requires y >= 1 && secondsPerHour != 0
    ensures HourNumber(YearStart(y), secondsPerHour, firstHourNumber) == firstHourNumber
  {
    YearStartOffset(y, 0);
    assert TruncDiv(0, secondsPerHour) == 0;
  }

  /** With 3600 seconds per hour the hour numbers of a year run from `first` to at most `first + 8783`. */
  lemma HourNumberRange(t: Instant, firstHourNumber: int)
    ensures firstHourNumber <= HourNumber(t, 3600, firstHourNumber) <= firstHourNumber + 8783
  {
    YearOffset(t);
    var offset := t - YearStart(Year(t));
    assert offset < 366 * 86400;
    DivMonotone(offset, 366 * 86400 - 1, 3600);
  }

  lemma DivMonotone(a: int, b: int, k: int)
    requires 0 <= a <= b && k > 0
    ensures a / k <= b / k
  {
    if a / k > b / k {
      DivModUnique(a, k, a / k, a % k);
      DivModUnique(b, k, b / k, b % k);
      MulMonotone(b / k + 1, a / k, k);
    }
  }

  /** Within one calendar year, later instants never get smaller hour numbers. */
  lemma HourNumberMonotone(t1: Instant, t2: Instant, secondsPerHour: int, firstHourNumber: int)
    requires t1 <= t2 && Year(t1) == Year(t2) && secondsPerHour > 0
    ensures HourNumber(t1, secondsPerHour, firstHourNumber) <= HourNumber(t2, secondsPerHour, firstHourNumber)
  {
    YearOffset(t1);
    DivMonotone(t1 - YearStart(Year(t1)), t2 - YearStart(Year(t2)), secondsPerHour);
  }

  // ---------------------------------------------------------------------------
  // get_time_range

  /**
   `get_time_range`: the grid and its hour numbers. Dividing by a zero
   `SECONDS_PER_HOUR` fails only when there is an instant to number.
   */
  function TimeRange(run: RunParameters): (r: Result<(seq<Instant>, seq<int>)>)
    ensures Schedule(run).Err? ==> r == Err(Schedule(run).error)
    ensures Schedule(run).Ok? ==>
      var (start, end, step) := Schedule(run).value;
      && (r.Ok? <==> run.secondsPerHour != 0 || end <= start)
      && (r.Err? ==> r.error == ZeroSecondsPerHour)
      && (r.Ok? ==> r.value.0 == Grid(start, end, step))
    ensures r.Ok? ==> |r.value.1| == |r.value.0|
    ensures r.Ok? ==> forall i :: 0 <= i < |r.value.0| ==>
      run.secondsPerHour != 0 && r.value.1[i] == HourNumber(r.value.0[i], run.secondsPerHour, run.firstHourNumber)
  {
    match Schedule(run)
    case Err(e) => Err(e)
    case Ok((start, end, step)) =>
      var grid := Grid(start, end, step);
      GridHalfOpen(start, end, step);
      if grid != [] && run.secondsPerHour == 0 then Err(ZeroSecondsPerHour)
      else Ok((grid, HourNumbers(grid, run.secondsPerHour, run.firstHourNumber)))
  }

  /** Every hour number of a run with 3600 seconds per hour lies in `[first, first + 8783]`. */
  lemma TimeRangeHourBounds(run: RunParameters)
    requires TimeRange(run).Ok? && run.secondsPerHour == 3600
    ensures var hours := TimeRange(run).value.1;
      forall i :: 0 <= i < |hours| ==>
        run.firstHourNumber <= hours[i] <= run.firstHourNumber + 8783
  {
    var (grid, hours) := TimeRange(run).value;
    forall i | 0 <= i < |hours| ensures run.firstHourNumber <= hours[i] <= run.firstHourNumber + 8783 {
      HourNumberRange(grid[i], run.firstHourNumber);
    }
  }

  /** Along the grid, hour numbers never decrease within one calendar year. */
  lemma TimeRangeHoursMonotone(run: RunParameters, i: nat, j: nat)
    requires TimeRange(run).Ok? && run.secondsPerHour > 0
    requires i <= j < |TimeRange(run).value.0|
    requires Year(TimeRange(run).value.0[i]) == Year(TimeRange(run).value.0[j])
    ensures TimeRange(run).value.1[i] <= TimeRange(run).value.1[j]
  {
    var grid := TimeRange(run).value.0;
    var (start, end, step) := Schedule(run).value;
    assert grid[i] <= grid[j] by {
      if i < j { GridIncreasing(start, end, step, i, j); }
    }
    HourNumberMonotone(grid[i], grid[j], run.secondsPerHour, run.firstHourNumber);
  }

  /** A grid instant at January 1 00:00 of its year gets exactly `first_hour_number`. */
  lemma TimeRangeHoursReset(run: RunParameters, i: nat)
    requires TimeRange(run).Ok? && i < |TimeRange(run).value.0|
    requires TimeRange(run).value.0[i] == YearStart(Year(TimeRange(run).value.0[i]))
    ensures TimeRange(run).value.1[i] == run.firstHourNumber
  {
    var t := TimeRange(run).value.0[i];
    YearOffset(t);
    HourNumberYearReset(Year(t), run.secondsPerHour, run.firstHourNumber);
  }

  /** A run that is not empty starts at the run start. */
  lemma TimeRangeStart(run: RunParameters)
    requires TimeRange(run).Ok?
    ensures |TimeRange(run).value.0| > 0 ==> TimeRange(run).value.0[0] == MakeInstant(run.start).value
  {
    var (start, end, step) := Schedule(run).value;
    if |TimeRange(run).value.0| > 0 {
      GridAt(start, end, step, 0);
    }
  }

  /**
   Consecutive instants of a run's grid are one configured frequency apart:
   `size` times the length of the frequency's unit.
   */
  lemma TimeRangeSpacing(run: RunParameters, i: nat)
    requires TimeRange(run).Ok? && i + 1 < |TimeRange(run).value.0|
    ensures TimeRange(run).value.0[i + 1] == TimeRange(run).value.0[i] + run.frequency.size * UnitSeconds(run.frequency.unit)
  {
    var (start, end, step) := Schedule(run).value;
    GridEvenlySpaced(start, end, step, i);
  }

  /**
   A run over the first two hours of January 1 at an hourly step, with 3600
   seconds per hour and hours numbered from 1: two instants, numbered 1 and 2.
   */
  lemma TwoHourRun(y: int)
    requires MinYear <= y <= MaxYear
    ensures var run := RunParameters(DateFields(y, 1, 1, 0, 0), DateFields(y, 1, 1, 2, 0), Frequency(1, Hours), 3600, 1);
      && TimeRange(run).Ok?
      && TimeRange(run).value.0 == [YearStart(y), YearStart(y) + 3600]
      && TimeRange(run).value.1 == [1, 2]
  {
    var run := RunParameters(DateFields(y, 1, 1, 0, 0), DateFields(y, 1, 1, 2, 0), Frequency(1, Hours), 3600, 1);
    var s := YearStart(y);
    TwoHourSchedule(y);
    TwoStepGrid(s);
    FirstTwoHourNumbers(y);
    TimeRangeUnfold(run, s, s + 7200, 3600, [s, s + 3600], [1, 2]);
  }

  lemma TwoHourSchedule(y: int)
    requires MinYear <= y <= MaxYear
    ensures var sch := Schedule(RunParameters(DateFields(y, 1, 1, 0, 0), DateFields(y, 1, 1, 2, 0), Frequency(1, Hours), 3600, 1));
      sch.Ok? && sch.value.0 == YearStart(y) && sch.value.1 == YearStart(y) + 7200 && sch.value.2 == 3600
  {
    JanuaryFirstInstants(y);
  }

  lemma TwoStepGrid(s: Instant)
    ensures Grid(s, s + 7200, 3600) == [s, s + 3600]
  {
    assert Grid(s + 7200, s + 7200, 3600) == [];
  }

  /** A run that can be scheduled and numbered is its grid and the grid's hour numbers. */
  lemma TimeRangeUnfold(run: RunParameters, start: Instant, end: Instant, step: nat, grid: seq<Instant>, hours: seq<int>)
    requires Schedule(run).Ok? && run.secondsPerHour != 0
    requires Schedule(run).value.0 == start && Schedule(run).value.1 == end && Schedule(run).value.2 == step
    requires step > 0 && Grid(start, end, step) == grid
    requires HourNumbers(grid, run.secondsPerHour, run.firstHourNumber) == hours
    ensures TimeRange(run).Ok? && TimeRange(run).value.0 == grid && TimeRange(run).value.1 == hours
  {
  }

  /** The first two hours of a year are numbered 1 and 2. */
  lemma FirstTwoHourNumbers(y: int)
    requires y >= 1
    ensures HourNumbers([YearStart(y), YearStart(y) + 3600], 3600, 1) == [1, 2]
  {
    var hours := HourNumbers([YearStart(y), YearStart(y) + 3600], 3600, 1);
    HourNumberYearReset(y, 3600, 1);
    SecondHourNumber(y);
    assert hours[0] == 1 && hours[1] == 2;
  }

  lemma JanuaryFirstInstants(y: int)
    requires MinYear <= y <= MaxYear
    ensures MakeInstant(DateFields(y, 1, 1, 0, 0)) == Ok(YearStart(y))
    ensures MakeInstant(DateFields(y, 1, 1, 2, 0)) == Ok(YearStart(y) + 7200)
  {
    JanuaryFirstAt(y, 0);
    JanuaryFirstAt(y, 2);
  }

  /** `datetime(y, 1, 1, h, 0)` is `h` clock hours after the start of year `y`. */
  lemma JanuaryFirstAt(y: int, h: int)
    requires MinYear <= y <= MaxYear && 0 <= h < 24
    ensures MakeInstant(DateFields(y, 1, 1, h, 0)) == Ok(YearStart(y) + h * 3600)
  {
    var dt := DateTime(y, 1, 1, h, 0, 0);
    assert InDatetimeRange(dt) by {
      assert DaysInMonth(y, 1) == 31;
    }
    var r := MakeInstant(DateFields(y, 1, 1, h, 0));
    ToFromInstant(r.value);
    assert r.value == ToInstant(dt);
    JanuaryFirstClock(y, h);
  }

  lemma JanuaryFirstClock(y: int, h: int)
    requires MinYear <= y && 0 <= h < 24
    ensures ToInstant(DateTime(y, 1, 1, h, 0, 0)) == YearStart(y) + h * 3600
  {
    var dt := DateTime(y, 1, 1, h, 0, 0);
    assert DaysBeforeMonth(y, 1) == 0;
    assert DayNumber(dt) == DaysBeforeYear(y);
  }

  lemma SecondHourNumber(y: int)
    requires y >= 1
    ensures HourNumber(YearStart(y) + 3600, 3600, 1) == 2
  {
    YearStartOffset(y, 3600);
    assert TruncDiv(3600, 3600) == 1;
  }

  // ---------------------------------------------------------------------------
  // Spine labels

  /** `f't{hour_number:04}'`. */
  function SpineLabel(hourNumber: int): (r: string)
    ensures |r| >= 5 && r[0] == 't'
  {
    "t" + Format.ZeroPadded(hourNumber, 4)
  }

  function ParseSpineLabel(s: string): Option<int> {
    if |s| >= 1 && s[0] == 't' then Format.ParseSigned(s[1..]) else None
  }

  /** A label names its hour number: reading it back gives the number, so distinct numbers get distinct labels. */
  lemma SpineLabelRoundTrip(hourNumber: int)
    ensures ParseSpineLabel(SpineLabel(hourNumber)) == Some(hourNumber)
  {
    var s := SpineLabel(hourNumber);
    assert s[1..] == Format.ZeroPadded(hourNumber, 4);
    Format.ZeroPaddedRoundTrip(hourNumber, 4);
  }

  /** For a non-negative number: `t`, then its decimal digits left-padded with zeros to at least four. */
  lemma SpineLabelShape(hourNumber: nat)
    ensures var s := SpineLabel(hourNumber);
      var digits := Format.Decimal(hourNumber);
      && s[0] == 't'
      && |s| == 1 + (if |digits| < 4 then 4 else |digits|)
      && s[1..] == Format.Zeros(4 - |digits|) + digits
      && Format.AllDigits(s[1..])
  {
    Format.ZeroPaddedLength(hourNumber, 4);
    var s := SpineLabel(hourNumber);
    assert s[1..] == Format.ZeroPadded(hourNumber, 4);
  }

  lemma SpineLabelSeven()
    ensures SpineLabel(7) == "t0007"
  {
    assert Format.Decimal(7) == "7";
    assert Format.Zeros(3) == "000" by {
      assert Format.Zeros(1) == "0";
      assert Format.Zeros(2) == "00";
    }
  }

  /** One label per hour number, index for index. */
  function SpineLabels(hours: seq<int>): (r: seq<string>)
    ensures |r| == |hours|
    ensures forall i :: 0 <= i < |hours| ==> r[i] == SpineLabel(hours[i])
    ensures forall i :: 0 <= i < |hours| ==> ParseSpineLabel(r[i]) == Some(hours[i])
  {
    forall i | 0 <= i < |hours| ensures ParseSpineLabel(SpineLabel(hours[i])) == Some(hours[i]) {
      SpineLabelRoundTrip(hours[i]);
    }
    seq(|hours|, i requires 0 <= i < |hours| => SpineLabel(hours[i]))
  }
  /** The labels of a run numbered 1 and 2 are `t0001` and `t0002`. */
  lemma TwoHourLabels()
    ensures SpineLabels([1, 2]) == ["t0001", "t0002"]
  {
    assert Format.Decimal(1) == "1" && Format.Decimal(2) == "2";
    assert Format.Zeros(3) == "000" by {
      assert Format.Zeros(1) == "0";
      assert Format.Zeros(2) == "00";
    }
    var r := SpineLabels([1, 2]);
    assert r[0] == "t0001" && r[1] == "t0002";
  }


  // ---------------------------------------------------------------------------
  // get_time_stamped_dataframe

  /** A cell of the table: an integer, a text, or NaN. */
  datatype Cell = Number(n: int) | Text(s: string) | Missing

  const HourNumberColumn: string := "Hour Number"
  const SpineColumn: string := "SPINE_hour_number"
  const IndexName: string := "Timestamp"

  function NumberCells(values: seq<int>): (r: seq<Cell>)
    ensures |r| == |values| && forall i :: 0 <= i < |values| ==> r[i] == Number(values[i])
  {
    seq(|values|, i requires 0 <= i < |values| => Number(values[i]))
  }

  function TextCells(values: seq<string>): (r: seq<Cell>)
    ensures |r| == |values| && forall i :: 0 <= i < |values| ==> r[i] == Text(values[i])
  {
    seq(|values|, i requires 0 <= i < |values| => Text(values[i]))
  }

  function MissingCells(n: nat): (r: seq<Cell>)
    ensures |r| == n && forall i :: 0 <= i < n ==> r[i] == Missing
  {
    seq(n, _ => Missing)
  }

  /** The column order after assigning `names` one by one: a name not yet present is appended. */
  function AppendNew(columns: seq<string>, names: seq<string>): (r: seq<string>)
    ensures |columns| <= |r| <= |columns| + |names|
  {
    if names == [] then columns
    else
      var before := AppendNew(columns, names[..|names| - 1]);
      if names[|names| - 1] in before then before else before + [names[|names| - 1]]
  }

  /**
   Assigning `names` keeps the existing columns first and in order, ends
   with exactly the old columns and the new names, and never duplicates a
   column.
   */
  lemma {:induction false} AppendNewContents(columns: seq<string>, names: seq<string>)
    ensures var r := AppendNew(columns, names);
      && (forall c :: c in r <==> c in columns || c in names)
      && |columns| <= |r| && r[..|columns|] == columns
      && (Distinct(columns) ==> Distinct(r))
    decreases |names|
  {
    if names != [] {
      var init, last := names[..|names| - 1], names[|names| - 1];
      AppendNewContents(columns, init);
      assert names == init + [last];
      var before := AppendNew(columns, init);
      if last !in before {
        assert (before + [last])[..|columns|] == before[..|columns|];
      }
    }
  }

  /** Extending a prefix of `names` by one name. */
  lemma PrefixStep(names: seq<string>, k: nat)
    requires k < |names|
    ensures names[..k + 1][..k] == names[..k] && names[..k + 1][k] == names[k]
    ensures forall c :: c in names[..k + 1] <==> c in names[..k] || c == names[k]
  {
    assert names[..k + 1] == names[..k] + [names[k]];
  }

  /** Assigning one more name appends it exactly when it is not a column yet. */
  lemma AppendNewStep(columns: seq<string>, names: seq<string>, k: nat)
    requires k < |names|
    ensures var before := AppendNew(columns, names[..k]);
      AppendNew(columns, names[..k + 1]) == if names[k] in before then before else before + [names[k]]
  {
    PrefixStep(names, k);
  }

  /** The data of `df[names] = np.nan` after one more name, from the data before it. */
  lemma MissingStep(start: map<string, seq<Cell>>, data: map<string, seq<Cell>>, names: seq<string>, k: nat, empty: seq<Cell>)
    requires k < |names|
    requires forall c :: c in data <==> c in start || c in names[..k]
    requires forall c :: c in names[..k] ==> data[c] == empty
    requires forall c :: c in start && c !in names[..k] ==> data[c] == start[c]
    ensures var after := data[names[k] := empty];
      && (forall c :: c in after <==> c in start || c in names[..k + 1])
      && (forall c :: c in names[..k + 1] ==> after[c] == empty)
      && (forall c :: c in start && c !in names[..k + 1] ==> after[c] == start[c])
  {
    PrefixStep(names, k);
  }

  /** The DataFrame: an index of instants, a named index, and equally long columns in order. */
  class Frame {
    var index: seq<Instant>
    var indexName: string
    var columns: seq<string>
    var data: map<string, seq<Cell>>

    ghost predicate Valid()
      reads this
    {
      && (forall c :: c in data <==> c in columns)
      && Distinct(columns)
      && (forall c :: c in data ==> |data[c]| == |index|)
    }

    /** `pd.DataFrame(values, columns=[column], index=index)`. */
    constructor (values: seq<int>, column: string, index: seq<Instant>)
      requires |values| == |index|
      ensures Valid()
      ensures this.index == index && indexName == "" && columns == [column]
      ensures data == map[column := NumberCells(values)]
    {
      this.index := index;
      indexName := "";
      columns := [column];
      data := map[column := NumberCells(values)];
    }

    /** `df.index.name = name`. */
    method SetIndexName(name: string)
      requires Valid()
      modifies this
      ensures Valid()
      ensures indexName == name
      ensures index == old(index) && columns == old(columns) && data == old(data)
    {
      indexName := name;
    }

    /** `df[name] = cells`: replaces the column if present, otherwise appends it. */
    method SetColumn(name: string, cells: seq<Cell>)
      requires Valid() && |cells| == |index|
      modifies this
      ensures Valid()
      ensures data == old(data)[name := cells]
      ensures columns == if name in old(columns) then old(columns) else old(columns) + [name]
      ensures index == old(index) && indexName == old(indexName)
    {
      if name !in columns {
        columns := columns + [name];
      }
      data := data[name := cells];
    }

    /** `df[names] = np.nan`: every named column, new or old, holds NaN in every row. */
    method SetMissingColumns(names: seq<string>)
      requires Valid()
      modifies this
      ensures Valid()
      ensures columns == AppendNew(old(columns), names)
      ensures forall c :: c in data <==> c in old(data) || c in names
      ensures forall c :: c in names ==> data[c] == MissingCells(|index|)
      ensures forall c :: c in old(data) && c !in names ==> data[c] == old(data)[c]
      ensures index == old(index) && indexName == old(indexName)
    {
      var empty := MissingCells(|index|);
      for k := 0 to |names|
        invariant Valid()
        invariant index == old(index) && indexName == old(indexName)
        invariant columns == AppendNew(old(columns), names[..k])
        invariant forall c :: c in data <==> c in old(data) || c in names[..k]
        invariant forall c :: c in names[..k] ==> data[c] == empty
        invariant forall c :: c in old(data) && c !in names[..k] ==> data[c] == old(data)[c]
      {
        ghost var before := data;
        AppendNewStep(old(columns), names, k);
        SetColumn(names[k], empty);
        MissingStep(old(data), before, names, k, empty);
      }
      assert names[..|names|] == names;
    }
  }

  /**
   The table `get_time_stamped_dataframe` builds around a grid and its hour
   numbers: the hour numbers, their spine labels, and one column of NaN per
   location name, all indexed by the grid.
   */
  method BuildFrame(grid: seq<Instant>, hours: seq<int>, locationNames: seq<string>) returns (f: Frame)
    requires |hours| == |grid|
    ensures fresh(f) && f.Valid()
    ensures f.index == grid && f.indexName == IndexName
    ensures f.columns == AppendNew([HourNumberColumn, SpineColumn], locationNames)
    ensures forall c :: c in f.data <==> c == HourNumberColumn || c == SpineColumn || c in locationNames
    ensures forall c :: c in locationNames ==> f.data[c] == MissingCells(|grid|)
    ensures HourNumberColumn !in locationNames ==> f.data[HourNumberColumn] == NumberCells(hours)
    ensures SpineColumn !in locationNames ==> f.data[SpineColumn] == TextCells(SpineLabels(hours))
  {
    f := new Frame(hours, HourNumberColumn, grid);
    f.SetIndexName(IndexName);
    assert SpineColumn != HourNumberColumn;
    f.SetColumn(SpineColumn, TextCells(SpineLabels(hours)));
    assert f.columns == [HourNumberColumn, SpineColumn];
    f.SetMissingColumns(locationNames);
  }

  /** `get_time_stamped_dataframe`: fails exactly when `get_time_range` does. */
  method TimeStampedFrame(p: Parameters) returns (r: Result<Frame>)
    ensures TimeRange(p.run).Err? ==> r == Err(TimeRange(p.run).error)
    ensures TimeRange(p.run).Ok? ==> r.Ok?
    ensures r.Ok? ==>
      var (grid, hours) := TimeRange(p.run).value;
      && fresh(r.value) && r.value.Valid()
      && r.value.index == grid && r.value.indexName == IndexName
      && r.value.columns == AppendNew([HourNumberColumn, SpineColumn], p.locationNames)
      && (forall c :: c in r.value.data <==> c == HourNumberColumn || c == SpineColumn || c in p.locationNames)
      && (forall c :: c in p.locationNames ==> r.value.data[c] == MissingCells(|grid|))
      && (HourNumberColumn !in p.locationNames ==> r.value.data[HourNumberColumn] == NumberCells(hours))
      && (SpineColumn !in p.locationNames ==> r.value.data[SpineColumn] == TextCells(SpineLabels(hours)))
    ensures r.Ok? && LocationNamesListed(p) ==>
      && (forall c :: c in r.value.data <==> c == HourNumberColumn || c == SpineColumn || c in p.locations)
      && (forall c :: c in p.locations ==> r.value.data[c] == MissingCells(|r.value.index|))
  {
    var range := TimeRange(p.run);
    if range.Err? {
      r := Err(range.error);
    } else {
      var grid, hours := range.value.0, range.value.1;
      var f := BuildFrame(grid, hours, p.locationNames);
      r := Ok(f);
    }
  }
}
