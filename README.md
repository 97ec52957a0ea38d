# ChaProEV core in Dafny

A model of the two pieces of computation in ChaProEV, with proofs about them:

- **The energy a leg uses** (`define.py`). A leg's electricity use at a
  timestamp is its distance × the vehicle's base consumption × the mean of
  the weather quantity at the start and end locations × the road factor
  weighted by the leg's road-type mix over the road-type registry × the leg's
  factor for the clock hour of the timestamp. The model also covers the
  `Leg`, `Vehicle` and `Location` constructors, which read an entry of the
  parameters document and copy its road-type tables key by key.
- **The time structures of a run** (`run_time.py`).
  - The half-open grid of timestamps from the run start to the run end at a
    fixed step.
  - The hour number of each timestamp: `first_hour_number` plus the whole
    `SECONDS_PER_HOUR` units since January 1 00:00 of that timestamp's own
    year.
  - The `t%04d` spine label of each hour number.
  - The time-stamped table. Its index is the grid, named `Timestamp`. Its
    columns are `Hour Number`, `SPINE_hour_number`, and one empty (NaN)
    column per location name.

Files and modules:

| file | module | contents |
|---|---|---|
| `config.dfy` | `Config` | The parameters document as typed records, the errors a computation can raise, and `Result`/`Option`. |
| `calendar.dfy` | `Calendar` | Python `datetime` arithmetic on the proleptic Gregorian calendar. An instant is a count of seconds since 0001-01-01 00:00:00; `ToInstant`/`FromInstant` are proved inverse. |
| `format.dfy` | `Format` | `format(n, '04')`: decimal digits zero-padded after the sign. A parser is proved to undo it. |
| `run_time.dfy` | `RunTime` | `get_time_range` as the function `TimeRange`. `get_time_stamped_dataframe` as the methods `BuildFrame` and `TimeStampedFrame`, over a `Frame` class that is changed in place the way the DataFrame is. |
| `define.dfy` | `Define` | `Location`, `Vehicle` and `Leg`, their constructors, and `Leg.electricity_use_kWh` as `ElectricityUse`. |

Where the source raises an exception, the model returns
`Err(...)` naming it:

- `UnknownEntry` for a `KeyError` on a document section.
- `RoadTypeMissing` for a `KeyError` on a road-type table.
- `HourFactorMissing` for an `IndexError`.
- `InvalidDateTime` for a rejected `datetime`.
- `ZeroSecondsPerHour` for a `ZeroDivisionError`.
- `LocationNotResolved` for an `AttributeError`.
- `InvalidFrequency` for a frequency size of zero or below. pandas fails on a
  zero step. It accepts a negative step and then yields an empty range, or a
  descending one when start > end; that case is not modelled (see
  "## Left out").

The weather module is a function parameter `Weather` from (latitude,
longitude, instant) to an optional value. `WeatherUnavailable` is its
failure.

`ElectricityUse` is a function, so it cannot change the leg, the vehicle or
the parameters.

The energy formula reads `.latitude` and `.longitude` on a leg's endpoints
(`define.py:78-79`, `88-89`), and the module describes legs as going from a
start location to an end location, with `Location` the class holding
latitude and longitude (`define.py:6-10`, `139-144`). The `Leg` constructor,
however, stores the location *names* (`define.py:42-43`). The model keeps
both: the constructor as written, and a resolution step that looks the names
up in the location table; see the finding below.

## Model

| member | source | states |
|---|---|---|
| `Calendar.MakeInstant` | run_time.py:38-53 | `datetime.datetime(y, m, d, h, mi)` succeeds exactly when the fields form a valid date and time in years 1 to 9999. The instant it gives decodes back to exactly those fields; any other input is `InvalidDateTime`. |
| `Calendar.FromToInstant` | run_time.py:38-53 | Decoding the instant of any valid date and time gives back the same fields. |
| `Calendar.ToFromInstant` | run_time.py:71-79 | Every instant is the encoding of its own decoded date and time. |
| `Calendar.FromInstant` | run_time.py:75 | The fields read off any instant form a valid date and time (month 1-12, day within the month, hour 0-23, ...). |
| `Calendar.YearOf` | run_time.py:75 | Splitting a day count into a year and a day of that year gives a day inside that year, and the split adds back up to the day count. |
| `Calendar.MonthOf` | run_time.py:75 | Splitting a day of the year into a month and a day of that month gives a day inside that month, and the split adds back up. |
| `Calendar.DaysBeforeYearStep` | run_time.py:75 | Python's closed form for the days before a year grows by exactly that year's length (366 in leap years, else 365) from one year to the next. |
| `Calendar.YearCharacterised` | run_time.py:75 | `time_stamp.year == y` exactly when the instant is at or after January 1 00:00 of `y` and before January 1 00:00 of `y + 1`. |
| `Calendar.YearOffset` | run_time.py:75 | `time_stamp - datetime(time_stamp.year, 1, 1, 0, 0)` is never negative and is less than that year's length. |
| `Calendar.YearStartOffset` | run_time.py:75 | Any instant less than a year's length after January 1 00:00 of year `y` lies in year `y`. |
| `Calendar.Year` | run_time.py:75 | `time_stamp.year` is at least 1; `YearCharacterised` pins it as the year whose January 1 starts at or before the instant and whose successor's starts after it. |
| `Calendar.YearStart` | run_time.py:75 | `datetime.datetime(time_stamp.year, 1, 1, 0, 0)` falls on a midnight; `RunTime.JanuaryFirstClock` ties it to the encoding of January 1 00:00 of that year. |
| `Calendar.HourOfDay` | define.py:67 | `time_stamp.hour` is between 0 and 23. |
| `Calendar.HourOfDayIsClockHour` | define.py:67-72 | The hour read off the instant of a date and time is its hour field (the wall-clock hour, midnight to midnight). |
| `Format.Decimal` | run_time.py:98-100 | `str(n)` is a non-empty string of digits with no leading zero unless `n` is 0. |
| `Format.ZeroPaddedRoundTrip` | run_time.py:98-100 | Reading back `f'{n:0w}'` gives `n`, for every integer `n` including negatives, at every width. |
| `Format.ZeroPaddedLength` | run_time.py:98-100 | `f'{n:0w}'` is exactly `max(w, length of sign and digits)` characters long. |
| `RunTime.UnitSeconds` | run_time.py:55-59 | One minute, hour and day of a fixed pandas offset are 60, 3600 and 86400 seconds. |
| `RunTime.StepSeconds` | run_time.py:55-59 | The step is accepted exactly when its size is positive, and is then `size` × the unit's length in seconds; otherwise the error is `InvalidFrequency`. |
| `RunTime.Schedule` | run_time.py:31-59 | The run yields start, end and step exactly when both `datetime` calls succeed and the step is accepted. Start and end are those instants and the step is `StepSeconds` of the frequency. On failure the error is the start's, else the end's, else `InvalidFrequency`, in the order the source meets them. |
| `RunTime.Grid` | run_time.py:61-65 | `pd.date_range(start, end, freq, inclusive='left')` for a fixed step: every instant lies in `[start, end)`. `GridLength`, `GridAt` and `GridMembership` pin it exactly. |
| `RunTime.GridLength` | run_time.py:61-65 | The grid has `ceil((end - start) / step)` instants when `start < end`, and none otherwise. |
| `RunTime.GridAt` | run_time.py:61-65 | The `i`-th instant is `start + i * step`. |
| `RunTime.GridMembership` | run_time.py:61-65 | An instant is on the grid exactly when it is in `[start, end)` and a whole number of steps after `start`. |
| `RunTime.GridHalfOpen` | run_time.py:61-65 | Every instant on the grid is in `[start, end)`. `start` is on it exactly when `start < end`; `end` never is. The grid is empty exactly when `end <= start`. |
| `RunTime.GridEvenlySpaced` | run_time.py:61-65 | Consecutive instants are exactly one step apart. |
| `RunTime.GridIncreasing` | run_time.py:61-65 | The grid is strictly increasing, so no instant repeats. |
| `RunTime.TruncDiv` | run_time.py:73-76 | `int()` of the quotient: the floor quotient for non-negative operands, and a result whose sign is the quotient's (truncation toward zero). |
| `RunTime.HourNumber` | run_time.py:72-77 | One hour number. With positive `SECONDS_PER_HOUR` it is at least `first_hour_number`; `HourNumberCountsHours`, `HourNumberYearReset`, `HourNumberRange` and `HourNumberMonotone` pin it. |
| `RunTime.HourNumbers` | run_time.py:71-79 | One hour number per instant, index for index: the `i`-th is the hour number of the `i`-th instant. |
| `RunTime.HourNumberCountsHours` | run_time.py:71-77 | With a positive `SECONDS_PER_HOUR`, the hour number minus `first_hour_number` is the floor of the offset into the year over `SECONDS_PER_HOUR`. It is never negative, and the instant lies in that unit of the year. |
| `RunTime.HourNumberYearReset` | run_time.py:75-77 | January 1 00:00 of every year gets exactly `first_hour_number`. |
| `RunTime.HourNumberRange` | run_time.py:75-77 | With 3600 seconds per hour every hour number lies in `[first_hour_number, first_hour_number + 8783]`. |
| `RunTime.HourNumberMonotone` | run_time.py:71-79 | Within one calendar year a later instant never gets a smaller hour number. |
| `RunTime.TimeRange` | run_time.py:22-81 | The error of `Schedule` (start, then end, then frequency) propagates unchanged. Otherwise it succeeds exactly when `SECONDS_PER_HOUR` is non-zero or the grid is empty, and a failure is `ZeroSecondsPerHour`. On success it is the grid from start to end and its hour numbers, of equal length and index for index. |
| `RunTime.TimeRangeHourBounds` | run_time.py:71-79 | In a run with 3600 seconds per hour, every hour number lies in `[first_hour_number, first_hour_number + 8783]`. |
| `RunTime.TimeRangeHoursMonotone` | run_time.py:71-79 | Along the grid, hour numbers never decrease between two instants of the same year. |
| `RunTime.TimeRangeHoursReset` | run_time.py:75-77 | A grid instant at January 1 00:00 gets `first_hour_number`. |
| `RunTime.TimeRangeStart` | run_time.py:61-65 | A run whose grid is not empty starts at the run start, whatever the number of instants. |
| `RunTime.TimeRangeSpacing` | run_time.py:55-65 | Consecutive instants of a run's grid are exactly `size` × the unit's length in seconds apart. |
| `RunTime.TwoHourRun` | run_time.py:22-81 | A run over the first two hours of January 1 at a one-hour step, 3600 seconds per hour, numbered from 1, gives two instants one hour apart numbered 1 and 2. |
| `RunTime.FirstTwoHourNumbers` | run_time.py:71-79 | The first two hours of any year are numbered 1 and 2 when numbering starts at 1. |
| `Format.ZeroPadded` | run_time.py:99 | `format(n, '0w')` is at least `w` characters long and starts with `-` exactly when `n` is negative; `ZeroPaddedRoundTrip` and `ZeroPaddedLength` pin it. |
| `RunTime.SpineLabel` | run_time.py:99 | `f't{n:04}'` starts with `t` and is at least five characters long; `SpineLabelShape` and `SpineLabelRoundTrip` pin it. |
| `RunTime.SpineLabelRoundTrip` | run_time.py:98-100 | Reading the hour number back from its label gives it back, so distinct hour numbers get distinct labels. |
| `RunTime.SpineLabelShape` | run_time.py:98-100 | For a non-negative hour number the label is `t` followed by its decimal digits left-padded with zeros to at least 4 characters. |
| `RunTime.SpineLabelSeven` | run_time.py:98-100 | Hour number 7 gets `t0007`. |
| `RunTime.SpineLabels` | run_time.py:98-100 | One label per hour number: the `i`-th label is `f't{h:04}'` of the `i`-th hour number, and it reads back as that number. |
| `RunTime.TwoHourLabels` | run_time.py:98-100 | Hour numbers 1 and 2 get the labels `t0001` and `t0002`. |
| `RunTime.JanuaryFirstClock` | run_time.py:75 | January 1 of year `y` at hour `h`, minute 0, is `h` × 3600 seconds after the start of year `y`. |
| `RunTime.AppendNew` | run_time.py:102-106 | The column order after `df[locations] = ...`: no shorter than before and at most one column longer per name; `AppendNewContents` pins which columns and in what order. |
| `RunTime.MissingCells` | run_time.py:104-106 | A NaN column has one NaN per row. |
| `RunTime.AppendNewContents` | run_time.py:102-106 | After assigning the location columns, the columns are exactly the old ones followed by the new names. The old columns keep their places, and no column appears twice. |
| `RunTime.Frame.constructor` | run_time.py:93-95 | The new table has the given index, a single `Hour Number` column holding the hour numbers, and no index name. |
| `RunTime.Frame.SetIndexName` | run_time.py:96 | Only the index name changes. |
| `RunTime.Frame.SetColumn` | run_time.py:98-100 | The column is replaced, or appended when it is new; nothing else changes, and every column keeps one cell per row. |
| `RunTime.Frame.SetMissingColumns` | run_time.py:102-106 | Every named column holds NaN in every row. New names are appended in order, other columns keep their data, and the index is unchanged. |
| `RunTime.BuildFrame` | run_time.py:93-106 | The table is indexed by the grid and named `Timestamp`. Its columns are `Hour Number`, `SPINE_hour_number` and the location names, in that order and without duplicates. Each location column is all NaN; the hour-number and label columns hold their values unless a location name overwrites them. |
| `RunTime.TimeStampedFrame` | run_time.py:84-108 | Fails exactly when `get_time_range` fails, with the same error. Otherwise it is the table `BuildFrame` states, built over that grid and those hour numbers. When the location names are the keys of `[locations]`, each once, the columns are exactly the hour-number column, the label column and one all-NaN column per location key. |
| `Define.CopyRoadTable` | define.py:44-47 | The copied road-type table has the same keys and, for each key, the same value as the document's table. |
| `Define.NewLocation` | define.py:148-156 | A known name gives a location with the entry's connectivity, charging power, latitude and longitude; an unknown name is `UnknownEntry("locations", name)`. |
| `Define.NewVehicle` | define.py:123-136 | A known name gives a vehicle with the entry's scalar fields and a key-for-key copy of its road factors; an unknown name is `UnknownEntry("vehicles", name)`. |
| `Define.NewLeg` | define.py:33-47 | A known name gives a leg with the entry's scalar fields, the start and end location names, and a key-for-key copy of its road-type mix; an unknown name is `UnknownEntry("legs", name)`. |
| `Define.ResolveEndpoint` | define.py:76-95 | A location name resolves exactly when the location table has it, giving that location's record. A record is kept as it is. |
| `Define.ResolveLeg` | define.py:42-43 | The resolved leg holds location records at both ends and is otherwise unchanged. It fails exactly when an endpoint name is not in the location table. |
| `Define.LoadLeg` | define.py:33-47 | A leg is loaded exactly when its entry and both of its locations exist. It then holds the two location records and the entry's distance, hour factors and road-type mix. |
| `Define.WeightedRoadFactor` | define.py:60-65 | A failure names a registered road type missing from the mix or from the vehicle's factors. `WeightedRoadFactorDefined` pins the value. |
| `Define.EndpointTemperature` | define.py:76-95 | An endpoint holding a location record gives the weather's value at its latitude and longitude at the instant. A name fails with `LocationNotResolved`; a silent weather query fails with `WeatherUnavailable`. |
| `Define.ElectricityUse` | define.py:50-112 | The only failures are a missing road type, a missing factor for the clock hour (when there are fewer factors than that hour needs), an unresolved location and unavailable weather. `ElectricityUseCharacterised` pins the value. |
| `Define.WeightedRoadFactorDefined` | define.py:60-65 | The road factor is defined exactly when every registered road type is in both the mix and the vehicle's factors, and is then the sum over the registry of weight × factor. Otherwise the error names a registered road type missing from one of the tables, so a missing key never counts as zero. |
| `Define.WeightedRoadFactorRegistryOnly` | define.py:60-65 | Table entries for road types outside the registry do not change the road factor. |
| `Define.UnitRoadFactors` | define.py:62-65 | With every registered road factor 1, the road factor is the total mix weight over the registry. |
| `Define.ElectricityUseCharacterised` | define.py:50-112 | For a leg holding location records, the result is defined exactly when: both tables cover the registry, there is an hour factor for the clock hour, and the weather answers at both ends. It is then exactly distance × base consumption × mean endpoint value × road factor × hour factor, with no clamping. |
| `Define.HourFactorIsClockHour` | define.py:67-72 | The hour factor used is the one at the wall-clock hour field of the timestamp. |
| `Define.ElectricityUseSymmetric` | define.py:97-102 | For a leg holding location records, swapping the start and end locations leaves the result, and every failure, unchanged. |
| `Define.ElectricityUseLinearInDistance` | define.py:104-110 | Scaling the distance by `c` scales the result by `c`, and keeps every failure as it is. |
| `Define.ElectricityUseLinearInConsumption` | define.py:104-110 | Scaling the base consumption by `c` scales the result by `c`, and keeps every failure as it is. |
| `Define.ElectricityUseNeutralFactors` | define.py:60-110 | With road factors 1, mix weights summing to 1, hour factor 1 and value 1 at both ends, the result is distance × base consumption. |
| `Define.HighwayExample` | define.py:104-110 | 100 km fully on highway, a base consumption of 0.2, a highway factor of 1.1 and every other factor 1 gives 22 kWh. |
| `Define.UnresolvedLegFails` | define.py:76-85 | A leg whose start is a location name always fails. Once the road and hour factors are found, the failure is the `AttributeError` on that name. |
| `Define.ResolvedLegComputes` | define.py:76-95 | After resolving its locations, a leg whose tables cover the registry and have the hour factor computes a value whenever the weather answers at its two endpoints. |

## Left out

- Reading the TOML parameters file (`cookbook.parameters_from_TOML`). It is foreign code; the model takes the already-parsed document as typed records.
  - A field missing inside an entry cannot be expressed, so those `KeyError`s are not modelled.
  - Neither is a missing `transport_factors.road_types` or `locations` section.
  - A missing named entry (leg, vehicle, location) is modelled.
- The weather module (`weather.get_location_weather_quantity`). It is foreign; it becomes the function parameter `Weather`, and the quantity and output names it is called with are not modelled.
- `ChaProEV.py`. It only prints and calls the weather setup; it has no logic.
- `pd.date_range` frequency aliases and offsets that are not a fixed length (month ends and similar). Only minutes, hours and days are modelled.
  - A frequency size of zero or below is rejected as `InvalidFrequency`.
  - Negative pandas offsets (descending ranges) are left out.
- The pandas `Timestamp` bounds (years 1677 to 2262). Only the `datetime` bounds (years 1 to 9999) are checked.
- Floating point.
  - The kWh product and the road sum are computed on `real`, so rounding is not modelled.
  - The hour number uses exact integer division truncated toward zero, as `int()` does, in place of the float quotient of `total_seconds() / SECONDS_PER_HOUR`.
- Timezones and daylight saving time. The timestamps are naive.
- `np.empty`: the cells it writes are overwritten by NaN on the next line, so the model writes NaN directly.
- pandas index objects and dtypes. A table is an index sequence, a column order and a map from column name to cells.
- `duration`, `battery_capacity`, `solar_panel_size_kWp`, `connectivity` and `charging_power`. They feed no computation; they are record fields with no properties.

## Findings

| source | as written | input that shows it | evidently intended | confidence | as-written member | corrected member |
|---|---|---|---|---|---|---|
| define.py:42-43 | `Leg.__init__` stores the location name string from `locations['start']`/`['end']`. `electricity_use_kWh` then reads `leg.start_location.latitude` (define.py:78-79), which a string does not have. | Any leg built by the constructor whose road-type mix covers the registry, evaluated at an hour its factors cover. For example, road types `["highway"]`, mix and factors both holding `highway`, 24 hour factors, start location `"home"`: the call raises `AttributeError` and never returns a number. | The leg points at the `Location` records named by its entry: the formula reads `.latitude`/`.longitude` on the endpoints (define.py:78-79, 88-89), and the module describes `Location` as the class holding latitude and longitude (define.py:6-10, 139-144). | not executed | `Define.UnresolvedLegFails` (legs from `Define.NewLeg`) | `Define.ResolvedLegComputes` (legs from `Define.ResolveLeg`/`Define.LoadLeg`) |
