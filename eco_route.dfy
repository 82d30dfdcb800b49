/**
  The eco-route pipeline of backend/app.py lines 221-231: fetch one record
  per mode, compute the footprints of what was fetched, and pick the mode of
  least footprint within the duration ceiling. The lemmas here state what
  the three steps promise together, in terms of distances and emission
  factors rather than of the intermediate footprint dict.
 */
module EcoRoute {
  import opened Wrappers
  import opened PyDict
  import opened RequestInput
  import opened RouteFetch
  import opened Carbon
  import opened EcoSelector

  /** The footprint dict built from a route dict looks up one footprint per route. */
  lemma FootprintAt(routes: Dict<Mode, RouteInfo>, i: nat)
    requires DistinctKeys(routes) && i < |routes|
    ensures routes[i].0 in Keys(FootprintsOf(routes))
    ensures Value(FootprintsOf(routes), routes[i].0) == Footprint(routes[i].0, routes[i].1.distanceKm)
  {
    var footprints := FootprintsOf(routes);
    assert DistinctKeys(footprints) by {
      assert forall j :: 0 <= j < |routes| ==> footprints[j].0 == routes[j].0;
    }
    ValueAt(footprints, i);
  }

  /** Every route's footprint, looked up in the footprint dict built from the routes. */
  lemma FootprintsAll(routes: Dict<Mode, RouteInfo>)
    requires DistinctKeys(routes)
    ensures forall i :: 0 <= i < |routes| ==>
      routes[i].0 in Keys(FootprintsOf(routes)) &&
      Value(FootprintsOf(routes), routes[i].0) == Footprint(routes[i].0, routes[i].1.distanceKm)
  {
    forall i | 0 <= i < |routes|
      ensures routes[i].0 in Keys(FootprintsOf(routes))
      ensures Value(FootprintsOf(routes), routes[i].0) == Footprint(routes[i].0, routes[i].1.distanceKm)
    {
      FootprintAt(routes, i);
    }
  }

  /**
    On computed footprints, the suggested mode is a route within the ceiling
    whose distance times emission factor is the least of all routes within
    the ceiling.
   */
  lemma SuggestGreenest(routes: Dict<Mode, RouteInfo>, maxDuration: Option<real>)
    requires DistinctKeys(routes)
    requires SuggestEcoFriendlyRoute(FootprintsOf(routes), routes, maxDuration).Suggest?
    ensures var s := SuggestEcoFriendlyRoute(FootprintsOf(routes), routes, maxDuration);
      forall i :: 0 <= i < |routes| && WithinLimit(routes[i].1, maxDuration) ==>
        Footprint(s.mode, s.route.distanceKm) <= Footprint(routes[i].0, routes[i].1.distanceKm)
  {
    var footprints := FootprintsOf(routes);
    var s := SuggestEcoFriendlyRoute(footprints, routes, maxDuration);
    SuggestRecord(footprints, routes, maxDuration);
    SuggestLeast(footprints, routes, maxDuration);
    LeastTransfer(routes, maxDuration, s.mode, s.route);
  }

  /** A least footprint among the routes within the ceiling, as distance times factor. */
  lemma LeastTransfer(routes: Dict<Mode, RouteInfo>, maxDuration: Option<real>, mode: Mode, route: RouteInfo)
    requires DistinctKeys(routes) && mode in Keys(routes) && Value(routes, mode) == route
    requires mode in Keys(FootprintsOf(routes))
    requires forall i :: 0 <= i < |routes| && WithinLimit(routes[i].1, maxDuration) ==>
      Value(FootprintsOf(routes), mode) <= Value(FootprintsOf(routes), routes[i].0)
    ensures forall i :: 0 <= i < |routes| && WithinLimit(routes[i].1, maxDuration) ==>
      Footprint(mode, route.distanceKm) <= Footprint(routes[i].0, routes[i].1.distanceKm)
  {
    FootprintAt(routes, IndexOf(routes, mode));
    forall i | 0 <= i < |routes| && WithinLimit(routes[i].1, maxDuration)
      ensures Footprint(mode, route.distanceKm) <= Footprint(routes[i].0, routes[i].1.distanceKm)
    {
      FootprintAt(routes, i);
    }
  }

  /**
    Ties go to request order: on computed footprints, every route within the
    ceiling that comes before the suggested mode emits strictly more.
   */
  lemma SuggestGreenestFirst(routes: Dict<Mode, RouteInfo>, maxDuration: Option<real>)
    requires DistinctKeys(routes)
    requires SuggestEcoFriendlyRoute(FootprintsOf(routes), routes, maxDuration).Suggest?
    ensures var s := SuggestEcoFriendlyRoute(FootprintsOf(routes), routes, maxDuration);
      && s.mode in Keys(routes)
      && forall i :: 0 <= i < IndexOf(routes, s.mode) && WithinLimit(routes[i].1, maxDuration) ==>
           Footprint(s.mode, s.route.distanceKm) < Footprint(routes[i].0, routes[i].1.distanceKm)
  {
    var footprints := FootprintsOf(routes);
    var s := SuggestEcoFriendlyRoute(footprints, routes, maxDuration);
    SuggestRecord(footprints, routes, maxDuration);
    SuggestFirstOfTies(footprints, routes, maxDuration);
    FootprintAt(routes, IndexOf(routes, s.mode));
    FootprintsAll(routes);
  }

  /**
    When a zero-emission route (walking, bicycling, or a mode the table does
    not know) is within the ceiling, a suggestion is made and emits nothing.
   */
  lemma ZeroEmissionWins(routes: Dict<Mode, RouteInfo>, maxDuration: Option<real>, i: nat)
    requires DistinctKeys(routes) && i < |routes|
    requires forall j :: 0 <= j < |routes| ==> routes[j].1.distanceKm >= 0.0
    requires WithinLimit(routes[i].1, maxDuration) && EmissionFactor(routes[i].0) == 0.0
    ensures var s := SuggestEcoFriendlyRoute(FootprintsOf(routes), routes, maxDuration);
      s.Suggest? && Footprint(s.mode, s.route.distanceKm) == 0.0
  {
    var footprints := FootprintsOf(routes);
    SuggestNoRouteIff(footprints, routes, maxDuration);
    var s := SuggestEcoFriendlyRoute(footprints, routes, maxDuration);
    SuggestRecord(footprints, routes, maxDuration);
    SuggestGreenest(routes, maxDuration);
    var p := IndexOf(routes, s.mode);
    ValueAt(routes, p);
    FootprintSign(routes[i].0, routes[i].1.distanceKm);
    FootprintSign(s.mode, routes[p].1.distanceKm);
  }

  /**
    Lines 221-231: fetch, stop with no suggestion when nothing was found,
    compute the footprints and ask the selector. The suggestion, if any, is
    a requested mode, and there is none exactly when no fetched route is
    within the ceiling.
   */
  method FindEcoRoute(modes: seq<Mode>, replies: seq<Reply>, maxDuration: Option<real>)
    returns (routes: Dict<Mode, RouteInfo>, footprints: Dict<Mode, real>, suggestion: Suggestion)
    requires |replies| == |modes|
    ensures routes == Fetched(modes, replies) && DistinctKeys(routes)
    ensures footprints == FootprintsOf(routes)
    ensures suggestion == SuggestEcoFriendlyRoute(footprints, routes, maxDuration)
    ensures suggestion.NoRoute? <==> forall i :: 0 <= i < |routes| ==> !WithinLimit(routes[i].1, maxDuration)
    ensures suggestion.Suggest? ==> suggestion.mode in modes && Value(routes, suggestion.mode) == suggestion.route
  {
    routes := FetchRouteData(modes, replies);
    FetchedDistinct(modes, replies);
    if routes == [] {
      footprints := [];
      suggestion := NoRoute;
      assert footprints == FootprintsOf(routes);
      return;
    }
    footprints := CalculateCarbonFootprint(routes);
    suggestion := SuggestEcoFriendlyRoute(footprints, routes, maxDuration);
    SuggestNoRouteIff(footprints, routes, maxDuration);
    if suggestion.Suggest? {
      SuggestRecord(footprints, routes, maxDuration);
      FetchedKeysRequested(modes, replies);
    }
  }

  /** Fetched routes have non-negative distances, so a zero-emission hit within the ceiling wins. */
  lemma FetchedZeroEmissionWins(modes: seq<Mode>, replies: seq<Reply>, maxDuration: Option<real>, i: nat)
    requires |replies| == |modes| && i < |Fetched(modes, replies)|
    requires WithinLimit(Fetched(modes, replies)[i].1, maxDuration) && EmissionFactor(Fetched(modes, replies)[i].0) == 0.0
    ensures var routes := Fetched(modes, replies);
      var s := SuggestEcoFriendlyRoute(FootprintsOf(routes), routes, maxDuration);
      s.Suggest? && Footprint(s.mode, s.route.distanceKm) == 0.0
  {
    FetchedDistinct(modes, replies);
    FetchedNonNegative(modes, replies);
    ZeroEmissionWins(Fetched(modes, replies), maxDuration, i);
  }
}
