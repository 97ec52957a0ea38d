/**
 The already-parsed parameters document that every part of the model reads
 (the `[run]`, `[time]`, `[legs]`, `[vehicles]`, `[locations]` and
 `[transport_factors]` sections), the errors the model can raise, and the
 Result type that carries them.
 */
module Config {

  /** The ways a computation of the model can fail. */
  datatype Error =
    | UnknownEntry(section: string, name: string)  // `parameters[section][name]` raises KeyError
    | InvalidDateTime                              // `datetime.datetime(...)` raises ValueError
    | InvalidFrequency                             // a frequency size that is not positive
    | ZeroSecondsPerHour                           // `... / SECONDS_PER_HOUR` with 0 raises ZeroDivisionError
    | RoadTypeMissing(roadType: string)            // `road_type_mix[r]` or `road_factors[r]` raises KeyError
    | HourFactorMissing(hour: nat)                 // `hour_in_day_factors[hour]` raises IndexError
    | LocationNotResolved(name: string)            // `.latitude` on a location name raises AttributeError
    | WeatherUnavailable                           // propagated from the weather collaborator

  datatype Result<+T> = Ok(value: T) | Err(error: Error)

  datatype Option<+T> = None | Some(value: T)

  /** The calendar fields of `run.start` and `run.end`. */
  datatype DateFields = DateFields(year: int, month: int, day: int, hour: int, minute: int)

  /** The fixed-length units a run frequency may use. */
  datatype FrequencyUnit = Minutes | Hours | Days

  datatype Frequency = Frequency(size: int, unit: FrequencyUnit)

  /** `[run]` and `[time]`. */
  datatype RunParameters = RunParameters(
    start: DateFields,
    end: DateFields,
    frequency: Frequency,
    secondsPerHour: int,
    firstHourNumber: int)

  /** One `[legs.<name>]` entry; `start` and `end` are location names. */
  datatype LegEntry = LegEntry(
    distance: real,
    duration: real,
    hourInDayFactors: seq<real>,
    start: string,
    end: string,
    roadTypeMix: map<string, real>)

  /** One `[vehicles.<name>]` entry. */
  datatype VehicleEntry = VehicleEntry(
    baseConsumption: real,
    batteryCapacity: real,
    solarPanelSizeKWp: real,
    roadFactors: map<string, real>)

  /** One `[locations.<name>]` entry. */
  datatype LocationEntry = LocationEntry(
    connectivity: real,
    chargingPower: real,
    latitude: real,
    longitude: real)

  /**
   The whole document. `locationNames` lists the keys of `[locations]` in the
   order the document declares them (the order `dict.keys()` yields), and
   `roadTypes` is the registry `transport_factors.road_types` as written.
   */
  datatype Parameters = Parameters(
    run: RunParameters,
    legs: map<string, LegEntry>,
    vehicles: map<string, VehicleEntry>,
    locations: map<string, LocationEntry>,
    locationNames: seq<string>,
    roadTypes: seq<string>)

  predicate Distinct(s: seq<string>) {
    forall i, j :: 0 <= i < j < |s| ==> s[i] != s[j]
  }

  /** `locationNames` is `list(parameters['locations'].keys())`: each key of `[locations]` once. */
  ghost predicate LocationNamesListed(p: Parameters) {
    Distinct(p.locationNames) && forall n :: n in p.locationNames <==> n in p.locations
  }
}
