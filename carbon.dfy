/**
  Carbon footprints, `calculate_carbon_footprint` (backend/app.py lines
  112-119) over the fixed emission table of lines 19-24: each mode's
  footprint in grams of CO2 is its distance in kilometres times the mode's
  emission factor, and a mode missing from the table has factor 0.
 */
module Carbon {
  import opened PyDict
  import opened RequestInput
  import opened RouteFetch

  /** Grams of CO2 per kilometre. */
  const EMISSION_FACTORS: map<Mode, real> :=
    map["driving" := 180.0, "transit" := 80.0, "walking" := 0.0, "bicycling" := 0.0]

  /** The emission factor of a mode, 0 for a mode the table does not list: `EMISSION_FACTORS.get(mode, 0)`. */
  function EmissionFactor(mode: Mode): (f: real)
    ensures f >= 0.0
    ensures mode !in EMISSION_FACTORS ==> f == 0.0
  {
    if mode in EMISSION_FACTORS then EMISSION_FACTORS[mode] else 0.0
  }

  /** Grams of CO2 for travelling `distanceKm` kilometres by `mode`. */
  function Footprint(mode: Mode, distanceKm: real): real {
    distanceKm * EmissionFactor(mode)
  }

  /**
    The footprint dict: every mode of the route dict, in the same order,
    paired with its distance times its emission factor.
   */
  function FootprintsOf(routes: Dict<Mode, RouteInfo>): (footprints: Dict<Mode, real>)
    ensures Keys(footprints) == Keys(routes)
    ensures |footprints| == |routes|
    ensures forall i :: 0 <= i < |routes| ==>
      footprints[i] == (routes[i].0, Footprint(routes[i].0, routes[i].1.distanceKm))
  {
    var footprints := seq(|routes|, i requires 0 <= i < |routes| =>
                            (routes[i].0, Footprint(routes[i].0, routes[i].1.distanceKm)));
    assert Keys(footprints) == Keys(routes);
    footprints
  }

  /** Builds the footprint dict one mode at a time, as `calculate_carbon_footprint(routes)` does. */
  method CalculateCarbonFootprint(routes: Dict<Mode, RouteInfo>) returns (footprints: Dict<Mode, real>)
    requires DistinctKeys(routes)
    ensures footprints == FootprintsOf(routes)
  {
    footprints := [];
    for i := 0 to |routes|
      invariant |footprints| == i
      invariant forall j :: 0 <= j < i ==>
        footprints[j] == (routes[j].0, Footprint(routes[j].0, routes[j].1.distanceKm))
    {
      var (mode, data) := routes[i];
      var distance := data.distanceKm;
      var emissions := EmissionFactor(mode);
      assert distance * emissions == Footprint(mode, distance);
      assert mode !in Keys(footprints) by {
        assert forall j :: 0 <= j < i ==> Keys(footprints)[j] == routes[j].0;
      }
      ghost var before := footprints;
      footprints := Set(footprints, mode, distance * emissions);
      assert footprints == before + [(mode, distance * emissions)];
    }
    assert |footprints| == |FootprintsOf(routes)|;
  }

  /** The factors of the table. */
  lemma FactorTable()
    ensures EmissionFactor("driving") == 180.0 && EmissionFactor("transit") == 80.0
    ensures EmissionFactor("walking") == 0.0 && EmissionFactor("bicycling") == 0.0
  {
  }

  /**
    The footprints have exactly the modes of the routes, in the same order,
    and each one is that mode's distance times its factor.
   */
  lemma FootprintLookup(routes: Dict<Mode, RouteInfo>, m: Mode)
    requires DistinctKeys(routes) && m in Keys(routes)
    ensures m in Keys(FootprintsOf(routes))
    ensures Value(FootprintsOf(routes), m) == Value(routes, m).distanceKm * EmissionFactor(m)
  {
    var i := IndexOf(routes, m);
    ValueAt(routes, i);
    ValueAt(FootprintsOf(routes), i);
  }

  /** A mode the table does not know is carried through with footprint 0. */
  lemma UnknownModeZero(routes: Dict<Mode, RouteInfo>, m: Mode)
    requires DistinctKeys(routes) && m in Keys(routes) && m !in EMISSION_FACTORS
    ensures m in Keys(FootprintsOf(routes)) && Value(FootprintsOf(routes), m) == 0.0
  {
    FootprintLookup(routes, m);
  }

  /** Walking and bicycling never emit, whatever the distance. */
  lemma ZeroEmissionModes(routes: Dict<Mode, RouteInfo>, m: Mode)
    requires DistinctKeys(routes) && m in Keys(routes) && (m == "walking" || m == "bicycling")
    ensures Value(FootprintsOf(routes), m) == 0.0
  {
    FootprintLookup(routes, m);
  }

  /** Non-negative distances give non-negative footprints. */
  lemma FootprintsNonNegative(routes: Dict<Mode, RouteInfo>)
    requires forall i :: 0 <= i < |routes| ==> routes[i].1.distanceKm >= 0.0
    ensures forall i :: 0 <= i < |routes| ==> FootprintsOf(routes)[i].1 >= 0.0
  {
    forall i | 0 <= i < |routes| ensures FootprintsOf(routes)[i].1 >= 0.0 {
      var f := EmissionFactor(routes[i].0);
      assert FootprintsOf(routes)[i].1 == routes[i].1.distanceKm * f;
    }
  }

  /** A mode of factor 0 emits nothing, and no distance that is not negative emits less than nothing. */
  lemma FootprintSign(mode: Mode, d: real)
    ensures EmissionFactor(mode) == 0.0 ==> Footprint(mode, d) == 0.0
    ensures d >= 0.0 ==> Footprint(mode, d) >= 0.0
  {
    var f := EmissionFactor(mode);
    assert Footprint(mode, d) == d * f;
  }

  /** A footprint is linear in the distance, and grows with it. */
  lemma FootprintLinear(mode: Mode, d: real, d': real, k: real)
    ensures Footprint(mode, k * d) == k * Footprint(mode, d)
    ensures Footprint(mode, d + d') == Footprint(mode, d) + Footprint(mode, d')
    ensures d <= d' ==> Footprint(mode, d) <= Footprint(mode, d')
  {
    var f := EmissionFactor(mode);
    assert (k * d) * f == k * (d * f);
    assert (d + d') * f == d * f + d' * f;
    if d <= d' {
      assert (d' - d) * f >= 0.0;
    }
  }
}
