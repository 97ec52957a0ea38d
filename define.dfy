/**
 The entities of the system and the electricity use of a leg. Locations,
 vehicles and legs are records built from their entries in the parameters
 document; the electricity a leg uses at an instant is its distance times
 the vehicle's base consumption times the mean endpoint temperature factor,
 the road-type-weighted road factor and the hour-of-day factor.
 */
module Define {
  import opened Config
  import opened Calendar

  datatype Location = Location(
    name: string,
    connectivity: real,
    chargingPower: real,
    latitude: real,
    longitude: real)

  /**
   What a leg holds as an endpoint: the location's name, as the leg
   constructor stores it, or the location record the energy formula reads.
   */
  datatype Endpoint = LocationName(name: string) | Resolved(location: Location)

  datatype Leg = Leg(
    name: string,
    distance: real,
    duration: real,
    hourInDayFactors: seq<real>,
    startLocation: Endpoint,
    endLocation: Endpoint,
    roadTypeMix: map<string, real>)

  datatype Vehicle = Vehicle(
    name: string,
    baseConsumption: real,
    batteryCapacity: real,
    solarPanelSizeKWp: real,
    roadFactors: map<string, real>)

  /**
   The weather collaborator, asked for the temperature quantity at a
   latitude, a longitude and an instant; `None` when it cannot supply one.
   */
  type Weather = (real, real, Instant) -> Option<real>

  // ---------------------------------------------------------------------------
  // Construction from the parameters document

  /** The key-by-key copy of a road-type table done by the constructors. */
  method CopyRoadTable(source: map<string, real>) returns (copy: map<string, real>)
    ensures copy.Keys == source.Keys
    ensures forall r :: r in source ==> copy[r] == source[r]
  {
    copy := map[];
    var pending := source.Keys;
    while pending != {}
      invariant pending <= source.Keys
      invariant copy.Keys == source.Keys - pending
      invariant forall r :: r in copy ==> copy[r] == source[r]
      decreases pending
    {
      var r :| r in pending;
      copy := copy[r := source[r]];
      pending := pending - {r};
    }
  }

  /** `Location(name, ...)`: the entry's fields, or KeyError when the name has no entry. */
  function NewLocation(name: string, p: Parameters): (r: Result<Location>)
    ensures r.Ok? <==> name in p.locations
    ensures r.Err? ==> r.error == UnknownEntry("locations", name)
    ensures r.Ok? ==>
      var e := p.locations[name];
      r.value == Location(name, e.connectivity, e.chargingPower, e.latitude, e.longitude)
  {
    if name !in p.locations then Err(UnknownEntry("locations", name))
    else
      var e := p.locations[name];
      Ok(Location(name, e.connectivity, e.chargingPower, e.latitude, e.longitude))
  }

  /**
   `Vehicle(name, ...)`: the entry's scalar fields and a key-for-key copy of
   its road factors, or KeyError when the name has no entry.
   */
  method NewVehicle(name: string, p: Parameters) returns (r: Result<Vehicle>)
    ensures r.Ok? <==> name in p.vehicles
    ensures r.Err? ==> r.error == UnknownEntry("vehicles", name)
    ensures r.Ok? ==>
      var e := p.vehicles[name];
      && r.value.name == name
      && r.value.baseConsumption == e.baseConsumption
      && r.value.batteryCapacity == e.batteryCapacity
      && r.value.solarPanelSizeKWp == e.solarPanelSizeKWp
      && r.value.roadFactors.Keys == e.roadFactors.Keys
      && (forall k :: k in e.roadFactors ==> r.value.roadFactors[k] == e.roadFactors[k])
  {
    if name !in p.vehicles {
      return Err(UnknownEntry("vehicles", name));
    }
    var e := p.vehicles[name];
    var roadFactors := CopyRoadTable(e.roadFactors);
    r := Ok(Vehicle(name, e.baseConsumption, e.batteryCapacity, e.solarPanelSizeKWp, roadFactors));
  }

  /**
   `Leg(name, ...)` as written: the entry's scalar fields, the NAMES of its
   start and end locations, and a key-for-key copy of its road-type mix; or
   KeyError when the name has no entry.
   */
  method NewLeg(name: string, p: Parameters) returns (r: Result<Leg>)
    ensures r.Ok? <==> name in p.legs
    ensures r.Err? ==> r.error == UnknownEntry("legs", name)
    ensures r.Ok? ==>
      var e := p.legs[name];
      && r.value.name == name
      && r.value.distance == e.distance
      && r.value.duration == e.duration
      && r.value.hourInDayFactors == e.hourInDayFactors
      && r.value.startLocation == LocationName(e.start)
      && r.value.endLocation == LocationName(e.end)
      && r.value.roadTypeMix.Keys == e.roadTypeMix.Keys
      && (forall k :: k in e.roadTypeMix ==> r.value.roadTypeMix[k] == e.roadTypeMix[k])
  {
    if name !in p.legs {
      return Err(UnknownEntry("legs", name));
    }
    var e := p.legs[name];
    var mix := CopyRoadTable(e.roadTypeMix);
    r := Ok(Leg(name, e.distance, e.duration, e.hourInDayFactors,
                LocationName(e.start), LocationName(e.end), mix));
  }

  predicate IsResolved(leg: Leg) {
    leg.startLocation.Resolved? && leg.endLocation.Resolved?
  }

  function ResolveEndpoint(e: Endpoint, p: Parameters): (r: Result<Endpoint>)
    ensures r.Ok? ==> r.value.Resolved?
    ensures e.Resolved? ==> r == Ok(e)
    ensures e.LocationName? ==>
      && (r.Ok? <==> e.name in p.locations)
      && (r.Ok? ==> r.value.location == NewLocation(e.name, p).value)
      && (r.Err? ==> r.error == UnknownEntry("locations", e.name))
  {
    match e
    case Resolved(_) => Ok(e)
    case LocationName(n) =>
      match NewLocation(n, p)
      case Err(err) => Err(err)
      case Ok(loc) => Ok(Resolved(loc))
  }

  /**
   Looks both endpoint names up in the location table, so that the leg holds
   the location records the energy formula reads; every other field is kept.
   */
  function ResolveLeg(leg: Leg, p: Parameters): (r: Result<Leg>)
    ensures r.Ok? ==> IsResolved(r.value)
    ensures r.Ok? ==> r.value == leg.(startLocation := r.value.startLocation, endLocation := r.value.endLocation)
    ensures r.Ok? <==> ResolveEndpoint(leg.startLocation, p).Ok? && ResolveEndpoint(leg.endLocation, p).Ok?
    ensures r.Ok? ==>
      && r.value.startLocation == ResolveEndpoint(leg.startLocation, p).value
      && r.value.endLocation == ResolveEndpoint(leg.endLocation, p).value
  {
    match ResolveEndpoint(leg.startLocation, p)
    case Err(e) => Err(e)
    case Ok(start) =>
      match ResolveEndpoint(leg.endLocation, p)
      case Err(e) => Err(e)
      case Ok(end) => Ok(leg.(startLocation := start, endLocation := end))
  }

  /** A leg whose endpoints are the location records named by its entry. */
  method LoadLeg(name: string, p: Parameters) returns (r: Result<Leg>)
    ensures r.Ok? <==> name in p.legs && p.legs[name].start in p.locations && p.legs[name].end in p.locations
    ensures r.Ok? ==>
      var e := p.legs[name];
      && IsResolved(r.value)
      && r.value.startLocation.location == NewLocation(e.start, p).value
      && r.value.endLocation.location == NewLocation(e.end, p).value
      && r.value.distance == e.distance
      && r.value.hourInDayFactors == e.hourInDayFactors
      && r.value.roadTypeMix == e.roadTypeMix
  {
    var named := NewLeg(name, p);
    if named.Err? {
      return named;
    }
    r := ResolveLeg(named.value, p);
  }

  // ---------------------------------------------------------------------------
  // Electricity use

  /**
   `sum(leg.road_type_mix[r] * vehicle.road_factors[r] for r in road_types)`,
   failing with KeyError at the first registered road type missing from
   either table.
   */
  function WeightedRoadFactor(roadTypes: seq<string>, mix: map<string, real>, factors: map<string, real>): (r: Result<real>)
    ensures r.Err? ==> r.error.RoadTypeMissing? && r.error.roadType in roadTypes
                       && (r.error.roadType !in mix || r.error.roadType !in factors)
  {
    if roadTypes == [] then Ok(0.0)
    else
      var r := roadTypes[0];
      if r !in mix || r !in factors then Err(RoadTypeMissing(r))
      else
        match WeightedRoadFactor(roadTypes[1..], mix, factors)
        case Err(e) => Err(e)
        case Ok(rest) => Ok(mix[r] * factors[r] + rest)
  }

  /** `leg.<endpoint>.latitude` and `.longitude`, then the weather query at the instant. */
  function EndpointTemperature(e: Endpoint, t: Instant, weather: Weather): (r: Result<real>)
    ensures r.Ok? <==> e.Resolved? && weather(e.location.latitude, e.location.longitude, t).Some?
    ensures r.Ok? ==> r.value == weather(e.location.latitude, e.location.longitude, t).value
    ensures r.Err? ==> r.error == if e.LocationName? then LocationNotResolved(e.name) else WeatherUnavailable
  {
    match e
    case LocationName(n) => Err(LocationNotResolved(n))
    case Resolved(loc) =>
      match weather(loc.latitude, loc.longitude, t)
      case None => Err(WeatherUnavailable)
      case Some(v) => Ok(v)
  }

  /**
   `Leg.electricity_use_kWh(leg, time_stamp, vehicle, parameters)`, the
   failures checked in the order the source meets them.
   */
  function ElectricityUse(leg: Leg, t: Instant, vehicle: Vehicle, p: Parameters, weather: Weather): (r: Result<real>)
    ensures r.Err? ==>
      || r.error.RoadTypeMissing?
      || r.error == HourFactorMissing(HourOfDay(t))
      || r.error.LocationNotResolved?
      || r.error == WeatherUnavailable
    ensures r.Err? && r.error.HourFactorMissing? ==> |leg.hourInDayFactors| <= HourOfDay(t)
  {
    match WeightedRoadFactor(p.roadTypes, leg.roadTypeMix, vehicle.roadFactors)
    case Err(e) => Err(e)
    case Ok(roadFactor) =>
      var hour := HourOfDay(t);
      if hour >= |leg.hourInDayFactors| then Err(HourFactorMissing(hour))
      else
        var hourFactor := leg.hourInDayFactors[hour];
        match EndpointTemperature(leg.startLocation, t, weather)
        case Err(e) => Err(e)
        case Ok(startTemperature) =>
          match EndpointTemperature(leg.endLocation, t, weather)
          case Err(e) => Err(e)
          case Ok(endTemperature) =>
            var temperatureFactor := (startTemperature + endTemperature) / 2.0;
            Ok(leg.distance * vehicle.baseConsumption * temperatureFactor * roadFactor * hourFactor)
  }

  // ---------------------------------------------------------------------------
  // Properties of the road factor

  /** The reference sum over the registry, for tables that have every registered road type. */
  ghost function RoadSum(roadTypes: seq<string>, mix: map<string, real>, factors: map<string, real>): real
    requires forall r :: r in roadTypes ==> r in mix && r in factors
  {
    if roadTypes == [] then 0.0
    else RoadSum(roadTypes[..|roadTypes| - 1], mix, factors)
         + mix[roadTypes[|roadTypes| - 1]] * factors[roadTypes[|roadTypes| - 1]]
  }

  /** The sum of the mix weights over the registry. */
  ghost function MixTotal(roadTypes: seq<string>, mix: map<string, real>): real
    requires forall r :: r in roadTypes ==> r in mix
  {
    if roadTypes == [] then 0.0
    else MixTotal(roadTypes[..|roadTypes| - 1], mix) + mix[roadTypes[|roadTypes| - 1]]
  }

  /**
   The road factor is defined exactly when every registered road type is in
   both tables, and is then the sum over the registry of weight times factor.
   A missing road type is never read as zero.
   */
  lemma {:induction false} WeightedRoadFactorDefined(roadTypes: seq<string>, mix: map<string, real>, factors: map<string, real>)
    ensures var w := WeightedRoadFactor(roadTypes, mix, factors);
      && (w.Ok? <==> forall r :: r in roadTypes ==> r in mix && r in factors)
      && (w.Ok? ==> w.value == RoadSum(roadTypes, mix, factors))
      && (w.Err? ==> w.error.RoadTypeMissing? && w.error.roadType in roadTypes
                     && (w.error.roadType !in mix || w.error.roadType !in factors))
    decreases |roadTypes|
  {
    if roadTypes != [] {
      var rest := roadTypes[1..];
      WeightedRoadFactorDefined(rest, mix, factors);
      assert forall r :: r in roadTypes <==> r == roadTypes[0] || r in rest;
      if forall r :: r in roadTypes ==> r in mix && r in factors {
        RoadSumFront(roadTypes, mix, factors);
      }
    }
  }

  /** The reference sum splits off its first road type as well as its last. */
  lemma {:induction false} RoadSumFront(roadTypes: seq<string>, mix: map<string, real>, factors: map<string, real>)
    requires roadTypes != []
    requires forall r :: r in roadTypes ==> r in mix && r in factors
    ensures RoadSum(roadTypes, mix, factors)
            == mix[roadTypes[0]] * factors[roadTypes[0]] + RoadSum(roadTypes[1..], mix, factors)
    decreases |roadTypes|
  {
    if |roadTypes| > 1 {
      var init := roadTypes[..|roadTypes| - 1];
      RoadSumFront(init, mix, factors);
      assert init[1..] == roadTypes[1..][..|roadTypes[1..]| - 1];
    }
  }

  /** Table entries for road types outside the registry do not affect the road factor. */
  lemma {:induction false} WeightedRoadFactorRegistryOnly(
    roadTypes: seq<string>, mix: map<string, real>, mix': map<string, real>,
    factors: map<string, real>, factors': map<string, real>)
    requires forall r :: r in roadTypes ==> (r in mix <==> r in mix') && (r in mix ==> mix[r] == mix'[r])
    requires forall r :: r in roadTypes ==> (r in factors <==> r in factors') && (r in factors ==> factors[r] == factors'[r])
    ensures WeightedRoadFactor(roadTypes, mix, factors) == WeightedRoadFactor(roadTypes, mix', factors')
    decreases |roadTypes|
  {
    if roadTypes != [] {
      var r, rest := roadTypes[0], roadTypes[1..];
      assert r in roadTypes;
      assert forall r' :: r' in rest ==> r' in roadTypes;
      WeightedRoadFactorRegistryOnly(rest, mix, mix', factors, factors');
      if r in mix && r in factors {
        assert mix[r] == mix'[r] && factors[r] == factors'[r];
        var w, w' := WeightedRoadFactor(roadTypes, mix, factors), WeightedRoadFactor(roadTypes, mix', factors');
        if w.Ok? {
          assert w'.value == w.value;
        }
      }
    }
  }

  /** With every registered road factor 1, the road factor is the total weight of the mix over the registry. */
  lemma {:induction false} UnitRoadFactors(roadTypes: seq<string>, mix: map<string, real>, factors: map<string, real>)
    requires forall r :: r in roadTypes ==> r in mix && r in factors && factors[r] == 1.0
    ensures RoadSum(roadTypes, mix, factors) == MixTotal(roadTypes, mix)
    decreases |roadTypes|
  {
    if roadTypes != [] {
      var init := roadTypes[..|roadTypes| - 1];
      assert forall r :: r in init ==> r in roadTypes;
      var last := roadTypes[|roadTypes| - 1];
      assert last in roadTypes;
      UnitRoadFactors(init, mix, factors);
      assert RoadSum(roadTypes, mix, factors) == RoadSum(init, mix, factors) + mix[last] * factors[last];
      assert MixTotal(roadTypes, mix) == MixTotal(init, mix) + mix[last];
      assert mix[last] * factors[last] == mix[last];
    }
  }

  // ---------------------------------------------------------------------------
  // Properties of the electricity use

  /**
   For a leg holding its location records: the computation succeeds exactly
   when both road-type tables cover the registry, the leg has a factor for
   the wall-clock hour of the instant and the weather answers at both
   endpoints, and the result is then exactly the product of distance, base
   consumption, mean endpoint temperature, road factor and hour factor, with
   no clamping.
   */
  lemma ElectricityUseCharacterised(leg: Leg, t: Instant, vehicle: Vehicle, p: Parameters, weather: Weather)
    requires IsResolved(leg)
    ensures var start, end := leg.startLocation.location, leg.endLocation.location;
      var ts, te := weather(start.latitude, start.longitude, t), weather(end.latitude, end.longitude, t);
      var r := ElectricityUse(leg, t, vehicle, p, weather);
      && (r.Ok? <==>
            && (forall rt :: rt in p.roadTypes ==> rt in leg.roadTypeMix && rt in vehicle.roadFactors)
            && HourOfDay(t) < |leg.hourInDayFactors|
            && ts.Some? && te.Some?)
      && (r.Ok? ==>
            r.value == leg.distance * vehicle.baseConsumption * ((ts.value + te.value) / 2.0)
                       * RoadSum(p.roadTypes, leg.roadTypeMix, vehicle.roadFactors)
                       * leg.hourInDayFactors[HourOfDay(t)])
  {
    WeightedRoadFactorDefined(p.roadTypes, leg.roadTypeMix, vehicle.roadFactors);
  }

  /** The hour factor read is the one at the clock hour of the date and time the instant stands for. */
  lemma HourFactorIsClockHour(leg: Leg, dt: DateTime, vehicle: Vehicle, p: Parameters, weather: Weather)
    requires ValidDateTime(dt) && IsResolved(leg)
    requires ElectricityUse(leg, ToInstant(dt), vehicle, p, weather).Ok?
    ensures forall rt :: rt in p.roadTypes ==> rt in leg.roadTypeMix && rt in vehicle.roadFactors
    ensures dt.hour < |leg.hourInDayFactors|
    ensures var t := ToInstant(dt);
      var start, end := leg.startLocation.location, leg.endLocation.location;
      ElectricityUse(leg, t, vehicle, p, weather).value
        == leg.distance * vehicle.baseConsumption
           * ((weather(start.latitude, start.longitude, t).value + weather(end.latitude, end.longitude, t).value) / 2.0)
           * RoadSum(p.roadTypes, leg.roadTypeMix, vehicle.roadFactors)
           * leg.hourInDayFactors[dt.hour]
  {
    HourOfDayIsClockHour(dt);
    ElectricityUseCharacterised(leg, ToInstant(dt), vehicle, p, weather);
  }

  /** Swapping the start and end locations leaves the result unchanged. */
  lemma ElectricityUseSymmetric(leg: Leg, t: Instant, vehicle: Vehicle, p: Parameters, weather: Weather)
    requires IsResolved(leg)
    ensures ElectricityUse(leg.(startLocation := leg.endLocation, endLocation := leg.startLocation), t, vehicle, p, weather)
            == ElectricityUse(leg, t, vehicle, p, weather)
  {
    var swapped := leg.(startLocation := leg.endLocation, endLocation := leg.startLocation);
    var w := WeightedRoadFactor(p.roadTypes, leg.roadTypeMix, vehicle.roadFactors);
    var a := EndpointTemperature(leg.startLocation, t, weather);
    var b := EndpointTemperature(leg.endLocation, t, weather);
    if w.Ok? && HourOfDay(t) < |leg.hourInDayFactors| {
      if a.Ok? && b.Ok? {
        var r, r' := ElectricityUse(leg, t, vehicle, p, weather), ElectricityUse(swapped, t, vehicle, p, weather);
        assert (a.value + b.value) / 2.0 == (b.value + a.value) / 2.0;
        assert r'.value == r.value;
      } else {
        assert a.Err? ==> a == Err(WeatherUnavailable);
        assert b.Err? ==> b == Err(WeatherUnavailable);
      }
    }
  }

  /** A result with its value multiplied by `c`, failures kept as they are. */
  function Scaled(c: real, r: Result<real>): Result<real> {
    if r.Ok? then Ok(c * r.value) else r
  }

  /** Scaling the leg's distance by `c` scales the result by `c` (doubling doubles it) and keeps every failure. */
  lemma ElectricityUseLinearInDistance(leg: Leg, c: real, t: Instant, vehicle: Vehicle, p: Parameters, weather: Weather)
    ensures ElectricityUse(leg.(distance := c * leg.distance), t, vehicle, p, weather)
            == Scaled(c, ElectricityUse(leg, t, vehicle, p, weather))
  {
    var w := WeightedRoadFactor(p.roadTypes, leg.roadTypeMix, vehicle.roadFactors);
    var a := EndpointTemperature(leg.startLocation, t, weather);
    var b := EndpointTemperature(leg.endLocation, t, weather);
    if w.Ok? && HourOfDay(t) < |leg.hourInDayFactors| && a.Ok? && b.Ok? {
      var d, k, m, h := leg.distance, vehicle.baseConsumption, (a.value + b.value) / 2.0, leg.hourInDayFactors[HourOfDay(t)];
      var r, r' := ElectricityUse(leg, t, vehicle, p, weather), ElectricityUse(leg.(distance := c * leg.distance), t, vehicle, p, weather);
      var x := d * k * m * w.value * h;
      assert r.Ok? && r.value == x;
      assert r'.Ok? && r'.value == c * d * k * m * w.value * h;
      ScaledProduct(c, d, k, m, w.value, h);
      assert Scaled(c, r).value == c * x;
      SameValue(r', Scaled(c, r));
    }
  }

  /** Scaling the vehicle's base consumption by `c` scales the result by `c` and keeps every failure. */
  lemma ElectricityUseLinearInConsumption(leg: Leg, c: real, t: Instant, vehicle: Vehicle, p: Parameters, weather: Weather)
    ensures ElectricityUse(leg, t, vehicle.(baseConsumption := c * vehicle.baseConsumption), p, weather)
            == Scaled(c, ElectricityUse(leg, t, vehicle, p, weather))
  {
    var w := WeightedRoadFactor(p.roadTypes, leg.roadTypeMix, vehicle.roadFactors);
    var a := EndpointTemperature(leg.startLocation, t, weather);
    var b := EndpointTemperature(leg.endLocation, t, weather);
    if w.Ok? && HourOfDay(t) < |leg.hourInDayFactors| && a.Ok? && b.Ok? {
      var d, k, m, h := leg.distance, vehicle.baseConsumption, (a.value + b.value) / 2.0, leg.hourInDayFactors[HourOfDay(t)];
      var r, r' := ElectricityUse(leg, t, vehicle, p, weather), ElectricityUse(leg, t, vehicle.(baseConsumption := c * vehicle.baseConsumption), p, weather);
      var x := d * k * m * w.value * h;
      assert r.Ok? && r.value == x;
      assert r'.Ok? && r'.value == d * (c * k) * m * w.value * h;
      assert d * (c * k) == c * d * k;
      ScaledProduct(c, d, k, m, w.value, h);
      assert Scaled(c, r).value == c * x;
      SameValue(r', Scaled(c, r));
    }
  }

  /** Two successful results with the same value are the same result. */
  lemma SameValue(r: Result<real>, r': Result<real>)
    requires r.Ok? && r'.Ok? && r.value == r'.value
    ensures r == r'
  {
  }

  /** Multiplying the first factor of the energy product by `c` multiplies the product by `c`. */
  lemma ScaledProduct(c: real, d: real, k: real, m: real, w: real, h: real)
    ensures c * d * k * m * w * h == c * (d * k * m * w * h)
  {
    assert c * d * k == c * (d * k);
    assert c * (d * k) * m == c * (d * k * m);
    assert c * (d * k * m) * w == c * (d * k * m * w);
  }

  /**
   With every registered road factor 1, mix weights summing to 1 over the
   registry, hour factor 1 and temperature 1 at both endpoints, the leg uses
   its distance times the base consumption.
   */
  lemma ElectricityUseNeutralFactors(leg: Leg, t: Instant, vehicle: Vehicle, p: Parameters, weather: Weather)
    requires IsResolved(leg)
    requires forall r :: r in p.roadTypes ==> r in leg.roadTypeMix && r in vehicle.roadFactors && vehicle.roadFactors[r] == 1.0
    requires MixTotal(p.roadTypes, leg.roadTypeMix) == 1.0
    requires HourOfDay(t) < |leg.hourInDayFactors| && leg.hourInDayFactors[HourOfDay(t)] == 1.0
    requires weather(leg.startLocation.location.latitude, leg.startLocation.location.longitude, t) == Some(1.0)
    requires weather(leg.endLocation.location.latitude, leg.endLocation.location.longitude, t) == Some(1.0)
    ensures ElectricityUse(leg, t, vehicle, p, weather) == Ok(leg.distance * vehicle.baseConsumption)
  {
    WeightedRoadFactorDefined(p.roadTypes, leg.roadTypeMix, vehicle.roadFactors);
    UnitRoadFactors(p.roadTypes, leg.roadTypeMix, vehicle.roadFactors);
    assert WeightedRoadFactor(p.roadTypes, leg.roadTypeMix, vehicle.roadFactors) == Ok(1.0);
    assert EndpointTemperature(leg.startLocation, t, weather) == Ok(1.0);
    assert EndpointTemperature(leg.endLocation, t, weather) == Ok(1.0);
    var d, k := leg.distance, vehicle.baseConsumption;
    assert d * k * ((1.0 + 1.0) / 2.0) * 1.0 * 1.0 == d * k;
    assert ElectricityUse(leg, t, vehicle, p, weather).value == d * k;
    SameValue(ElectricityUse(leg, t, vehicle, p, weather), Ok(leg.distance * vehicle.baseConsumption));
  }

  /**
   A 100 km leg entirely on highway, a vehicle using 0.2 kWh per km with a
   highway factor of 1.1, and every other factor 1: 22 kWh.
   */
  lemma HighwayExample(t: Instant, start: Location, end: Location, p: Parameters)
    requires p.roadTypes == ["highway"]
    ensures var leg := Leg("commute", 100.0, 1.0, seq(24, _ => 1.0), Resolved(start), Resolved(end), map["highway" := 1.0]);
      var vehicle := Vehicle("van", 0.2, 50.0, 0.0, map["highway" := 1.1]);
      ElectricityUse(leg, t, vehicle, p, (lat, lon, at) => Some(1.0)) == Ok(22.0)
  {
    var leg := Leg("commute", 100.0, 1.0, seq(24, _ => 1.0), Resolved(start), Resolved(end), map["highway" := 1.0]);
    var vehicle := Vehicle("van", 0.2, 50.0, 0.0, map["highway" := 1.1]);
    assert WeightedRoadFactor(p.roadTypes, leg.roadTypeMix, vehicle.roadFactors) == Ok(1.1) by {
      assert p.roadTypes[1..] == [];
    }
  }

  /**
   A leg as the source's constructor builds it holds location names, on
   which `.latitude` fails: once the road factor and the hour factor are
   found, the computation always stops with that error.
   */
  lemma UnresolvedLegFails(leg: Leg, t: Instant, vehicle: Vehicle, p: Parameters, weather: Weather)
    requires leg.startLocation.LocationName?
    ensures ElectricityUse(leg, t, vehicle, p, weather).Err?
    ensures WeightedRoadFactor(p.roadTypes, leg.roadTypeMix, vehicle.roadFactors).Ok?
            && HourOfDay(t) < |leg.hourInDayFactors|
            ==> ElectricityUse(leg, t, vehicle, p, weather) == Err(LocationNotResolved(leg.startLocation.name))
  {
  }

  /**
   A leg whose locations are resolved computes a value whenever the tables,
   the hour factor and the weather at its two endpoints allow it; resolving never changes the
   distance, factors or road mix the formula reads.
   */
  lemma ResolvedLegComputes(leg: Leg, p: Parameters, t: Instant, vehicle: Vehicle, weather: Weather)
    requires ResolveLeg(leg, p).Ok?
    requires forall rt :: rt in p.roadTypes ==> rt in leg.roadTypeMix && rt in vehicle.roadFactors
    requires HourOfDay(t) < |leg.hourInDayFactors|
    requires var resolved := ResolveLeg(leg, p).value;
      var start, end := resolved.startLocation.location, resolved.endLocation.location;
      weather(start.latitude, start.longitude, t).Some? && weather(end.latitude, end.longitude, t).Some?
    ensures ElectricityUse(ResolveLeg(leg, p).value, t, vehicle, p, weather).Ok?
  {
    ElectricityUseCharacterised(ResolveLeg(leg, p).value, t, vehicle, p, weather);
  }
}
