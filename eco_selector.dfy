/**
  The eco selector, `suggest_eco_friendly_route` (backend/app.py lines
  121-138): keep the routes within the duration ceiling (all of them when
  there is none), give up with `(None, None)` when none is left, and
  otherwise return the kept mode of least footprint, the first one in dict
  order among equals, together with its route record.
 */
module EcoSelector {
  import opened Wrappers
  import opened PyDict
  import opened RequestInput
  import opened RouteFetch

  /** The selector's answer: a mode with its route record, or `NoRoute` for `(None, None)`. */
  datatype Suggestion = NoRoute | Suggest(mode: Mode, route: RouteInfo)

  /** A route is within the ceiling when there is no ceiling or its duration does not exceed it. */
  predicate WithinLimit(info: RouteInfo, maxDuration: Option<real>) {
    maxDuration.None? || info.durationMin <= maxDuration.value
  }

  /** The routes within the ceiling, in dict order. */
  function FilterRoutes(routes: Dict<Mode, RouteInfo>, maxDuration: Option<real>): Dict<Mode, RouteInfo>
  {
    if routes == [] then []
    else
      var rest := FilterRoutes(routes[1..], maxDuration);
      if WithinLimit(routes[0].1, maxDuration) then [routes[0]] + rest else rest
  }

  /** The footprint of every kept mode, in the order of the kept routes. */
  function CandidateFootprints(kept: Dict<Mode, RouteInfo>, footprints: Dict<Mode, real>): (candidates: Dict<Mode, real>)
    requires forall i :: 0 <= i < |kept| ==> kept[i].0 in Keys(footprints)
    ensures Keys(candidates) == Keys(kept)
    ensures forall i :: 0 <= i < |kept| ==> candidates[i].1 == Value(footprints, kept[i].0)
  {
    var candidates := seq(|kept|, i requires 0 <= i < |kept| => (kept[i].0, Value(footprints, kept[i].0)));
    assert Keys(candidates) == Keys(kept);
    candidates
  }

  /**
    `min(d, key=d.get)` as a position: Python's `min` replaces its candidate
    only by a strictly smaller one, so the first least item wins.
   */
  function MinIndex(items: seq<(Mode, real)>): (k: nat)
    requires |items| > 0
    ensures k < |items|
    ensures forall j :: 0 <= j < |items| ==> items[k].1 <= items[j].1
    ensures forall j :: 0 <= j < k ==> items[k].1 < items[j].1
  {
    if |items| == 1 then 0
    else
      var n := |items| - 1;
      var k := MinIndex(items[..n]);
      assert forall j :: 0 <= j < n ==> items[..n][j] == items[j];
      if items[n].1 < items[k].1 then n else k
  }

  /** The precondition of `footprints[mode]`: every route within the limit has a footprint. */
  predicate FootprintsCover(footprints: Dict<Mode, real>, routes: Dict<Mode, RouteInfo>, maxDuration: Option<real>) {
    forall i :: 0 <= i < |routes| && WithinLimit(routes[i].1, maxDuration) ==> routes[i].0 in Keys(footprints)
  }

  /**
    The eco-friendly suggestion: among the routes within the ceiling, the
    mode of least footprint (the first such mode in dict order), with its
    route record; `NoRoute` when no route is within the ceiling.
   */
  function SuggestEcoFriendlyRoute(footprints: Dict<Mode, real>, routes: Dict<Mode, RouteInfo>,
                                   maxDuration: Option<real>): Suggestion
    requires FootprintsCover(footprints, routes, maxDuration)
  {
    var kept := FilterRoutes(routes, maxDuration);
    if kept == [] then NoRoute
    else
      KeptCovered(footprints, routes, maxDuration);
      var candidates := CandidateFootprints(kept, footprints);
      var mode := candidates[MinIndex(candidates)].0;
      Suggest(mode, Value(kept, mode))
  }

  /** Only routes within the ceiling are kept. */
  lemma {:induction false} FilterSound(routes: Dict<Mode, RouteInfo>, maxDuration: Option<real>)
    ensures forall i :: 0 <= i < |FilterRoutes(routes, maxDuration)| ==>
      FilterRoutes(routes, maxDuration)[i] in routes && WithinLimit(FilterRoutes(routes, maxDuration)[i].1, maxDuration)
  {
    if routes != [] {
      FilterSound(routes[1..], maxDuration);
      var rest := FilterRoutes(routes[1..], maxDuration);
      forall i | 0 <= i < |rest| ensures rest[i] in routes {
        var q :| 0 <= q < |routes[1..]| && routes[1..][q] == rest[i];
        assert routes[q + 1] == rest[i];
      }
    }
  }

  /** Every kept route has a footprint. */
  lemma KeptCovered(footprints: Dict<Mode, real>, routes: Dict<Mode, RouteInfo>, maxDuration: Option<real>)
    requires FootprintsCover(footprints, routes, maxDuration)
    ensures forall i :: 0 <= i < |FilterRoutes(routes, maxDuration)| ==>
      FilterRoutes(routes, maxDuration)[i].0 in Keys(footprints)
  {
    var kept := FilterRoutes(routes, maxDuration);
    FilterSound(routes, maxDuration);
    forall i | 0 <= i < |kept| ensures kept[i].0 in Keys(footprints) {
      var j :| 0 <= j < |routes| && routes[j] == kept[i];
    }
  }

  /** Filtering keeps the keys distinct. */
  lemma {:induction false} FilterDistinct(routes: Dict<Mode, RouteInfo>, maxDuration: Option<real>)
    requires DistinctKeys(routes)
    ensures DistinctKeys(FilterRoutes(routes, maxDuration))
  {
    if routes != [] {
      var rest := FilterRoutes(routes[1..], maxDuration);
      FilterDistinct(routes[1..], maxDuration);
      FilterSound(routes[1..], maxDuration);
      forall j | 0 <= j < |rest| ensures rest[j].0 != routes[0].0 {
        var q :| 0 <= q < |routes[1..]| && routes[1..][q] == rest[j];
        assert routes[q + 1] == rest[j];
      }
    }
  }

  /** Every route within the ceiling is kept. */
  lemma {:induction false} FilterKeeps(routes: Dict<Mode, RouteInfo>, maxDuration: Option<real>, i: nat)
    requires i < |routes| && WithinLimit(routes[i].1, maxDuration)
    ensures routes[i] in FilterRoutes(routes, maxDuration)
  {
    if i > 0 {
      assert routes[1..][i - 1] == routes[i];
      FilterKeeps(routes[1..], maxDuration, i - 1);
    }
  }

  /** Filtering a dict is filtering its two halves. */
  lemma {:induction false} FilterSplit(routes: Dict<Mode, RouteInfo>, maxDuration: Option<real>, p: nat)
    requires p <= |routes|
    ensures FilterRoutes(routes, maxDuration) == FilterRoutes(routes[..p], maxDuration) + FilterRoutes(routes[p..], maxDuration)
  {
    if p == 0 {
      assert routes[p..] == routes;
    } else {
      var tail := routes[1..];
      FilterSplit(tail, maxDuration, p - 1);
      assert routes[..p][1..] == tail[..p - 1];
      assert tail[p - 1..] == routes[p..];
    }
  }

  /** No suggestion exactly when no route is within the ceiling. */
  lemma SuggestNoRouteIff(footprints: Dict<Mode, real>, routes: Dict<Mode, RouteInfo>, maxDuration: Option<real>)
    requires FootprintsCover(footprints, routes, maxDuration)
    ensures SuggestEcoFriendlyRoute(footprints, routes, maxDuration).NoRoute?
        <==> forall i :: 0 <= i < |routes| ==> !WithinLimit(routes[i].1, maxDuration)
  {
    var kept := FilterRoutes(routes, maxDuration);
    FilterSound(routes, maxDuration);
    if kept != [] {
      var j :| 0 <= j < |routes| && routes[j] == kept[0];
    }
    forall i | 0 <= i < |routes| && WithinLimit(routes[i].1, maxDuration) ensures kept != [] {
      FilterKeeps(routes, maxDuration, i);
    }
  }

  /** Without a ceiling there is no suggestion only when there is no route at all. */
  lemma SuggestUnlimited(footprints: Dict<Mode, real>, routes: Dict<Mode, RouteInfo>)
    requires FootprintsCover(footprints, routes, None)
    ensures SuggestEcoFriendlyRoute(footprints, routes, None).NoRoute? <==> routes == []
  {
    SuggestNoRouteIff(footprints, routes, None);
    if routes != [] {
      assert WithinLimit(routes[0].1, None);
    }
  }

  /**
    A suggested mode is a mode of `routes` within the ceiling, and the record
    returned with it is its own, unchanged.
   */
  lemma SuggestRecord(footprints: Dict<Mode, real>, routes: Dict<Mode, RouteInfo>, maxDuration: Option<real>)
    requires DistinctKeys(routes) && FootprintsCover(footprints, routes, maxDuration)
    requires SuggestEcoFriendlyRoute(footprints, routes, maxDuration).Suggest?
    ensures var s := SuggestEcoFriendlyRoute(footprints, routes, maxDuration);
      && s.mode in Keys(routes) && s.mode in Keys(footprints)
      && Value(routes, s.mode) == s.route
      && WithinLimit(s.route, maxDuration)
  {
    var s := SuggestEcoFriendlyRoute(footprints, routes, maxDuration);
    var kept := FilterRoutes(routes, maxDuration);
    var candidates := CandidateFootprints(kept, footprints);
    var k := MinIndex(candidates);
    assert s.mode == kept[k].0 by {
      assert Keys(candidates)[k] == kept[k].0;
    }
    FilterDistinct(routes, maxDuration);
    FilterSound(routes, maxDuration);
    ValueAt(kept, k);
    assert kept[k] in routes;
    var p :| 0 <= p < |routes| && routes[p] == kept[k];
    ValueAt(routes, p);
  }

  /** The intermediate values of a call that makes a suggestion. */
  lemma SuggestSteps(footprints: Dict<Mode, real>, routes: Dict<Mode, RouteInfo>, maxDuration: Option<real>)
    returns (kept: Dict<Mode, RouteInfo>, candidates: Dict<Mode, real>, k: nat)
    requires FootprintsCover(footprints, routes, maxDuration)
    requires SuggestEcoFriendlyRoute(footprints, routes, maxDuration).Suggest?
    ensures kept == FilterRoutes(routes, maxDuration)
    ensures |candidates| == |kept| && k < |kept|
    ensures forall j :: 0 <= j < |kept| ==> kept[j].0 in Keys(footprints) && candidates[j].1 == Value(footprints, kept[j].0)
    ensures forall j :: 0 <= j < |kept| ==> candidates[k].1 <= candidates[j].1
    ensures forall j :: 0 <= j < k ==> candidates[k].1 < candidates[j].1
    ensures SuggestEcoFriendlyRoute(footprints, routes, maxDuration).mode == kept[k].0
  {
    kept := FilterRoutes(routes, maxDuration);
    KeptCovered(footprints, routes, maxDuration);
    candidates := CandidateFootprints(kept, footprints);
    k := MinIndex(candidates);
    assert Keys(candidates)[k] == kept[k].0;
  }

  /** The suggested mode has the least footprint of all routes within the ceiling. */
  lemma SuggestLeast(footprints: Dict<Mode, real>, routes: Dict<Mode, RouteInfo>, maxDuration: Option<real>)
    requires FootprintsCover(footprints, routes, maxDuration)
    requires SuggestEcoFriendlyRoute(footprints, routes, maxDuration).Suggest?
    ensures var s := SuggestEcoFriendlyRoute(footprints, routes, maxDuration);
      s.mode in Keys(footprints)
      && forall i :: 0 <= i < |routes| && WithinLimit(routes[i].1, maxDuration) ==>
           Value(footprints, s.mode) <= Value(footprints, routes[i].0)
  {
    var mode := SuggestEcoFriendlyRoute(footprints, routes, maxDuration).mode;
    var kept, candidates, k := SuggestSteps(footprints, routes, maxDuration);
    forall i | 0 <= i < |routes| && WithinLimit(routes[i].1, maxDuration)
      ensures Value(footprints, mode) <= Value(footprints, routes[i].0)
    {
      FilterKeeps(routes, maxDuration, i);
      var j :| 0 <= j < |kept| && kept[j] == routes[i];
      assert candidates[j].1 == Value(footprints, routes[i].0);
    }
  }

  /**
    Ties go to dict order: every route within the ceiling that comes before
    the suggested mode has a strictly larger footprint.
   */
  lemma SuggestFirstOfTies(footprints: Dict<Mode, real>, routes: Dict<Mode, RouteInfo>, maxDuration: Option<real>)
    requires DistinctKeys(routes) && FootprintsCover(footprints, routes, maxDuration)
    requires SuggestEcoFriendlyRoute(footprints, routes, maxDuration).Suggest?
    ensures var s := SuggestEcoFriendlyRoute(footprints, routes, maxDuration);
      s.mode in Keys(routes) && s.mode in Keys(footprints)
      && forall i :: 0 <= i < IndexOf(routes, s.mode) && WithinLimit(routes[i].1, maxDuration) ==>
           Value(footprints, s.mode) < Value(footprints, routes[i].0)
  {
    SuggestRecord(footprints, routes, maxDuration);
    var mode := SuggestEcoFriendlyRoute(footprints, routes, maxDuration).mode;
    var kept, candidates, k := SuggestSteps(footprints, routes, maxDuration);
    var p := IndexOf(routes, mode);
    KeptBefore(routes, maxDuration, p, k);
    EarlierLarger(footprints, routes, maxDuration, kept, candidates, p, k);
  }

  /** The comparison step of `SuggestFirstOfTies`, on the intermediate values alone. */
  lemma EarlierLarger(footprints: Dict<Mode, real>, routes: Dict<Mode, RouteInfo>, maxDuration: Option<real>,
                      kept: Dict<Mode, RouteInfo>, candidates: Dict<Mode, real>, p: nat, k: nat)
    requires p <= |routes| && |candidates| == |kept| && k < |kept|
    requires forall j :: 0 <= j < |kept| ==> kept[j].0 in Keys(footprints) && candidates[j].1 == Value(footprints, kept[j].0)
    requires forall j :: 0 <= j < k ==> candidates[k].1 < candidates[j].1
    requires forall i :: 0 <= i < p && WithinLimit(routes[i].1, maxDuration) ==> routes[i] in kept[..k]
    ensures forall i :: 0 <= i < p && WithinLimit(routes[i].1, maxDuration) ==>
      routes[i].0 in Keys(footprints) && Value(footprints, kept[k].0) < Value(footprints, routes[i].0)
  {
    forall i | 0 <= i < p && WithinLimit(routes[i].1, maxDuration)
      ensures routes[i].0 in Keys(footprints) && Value(footprints, kept[k].0) < Value(footprints, routes[i].0)
    {
      var j :| 0 <= j < k && kept[..k][j] == routes[i];
      assert kept[j] == routes[i];
      assert candidates[j].1 == Value(footprints, routes[i].0);
    }
  }

  /**
    Filtering keeps dict order: the routes within the ceiling that come
    before position `p` are kept before the item of `routes[p]`.
   */
  lemma KeptBefore(routes: Dict<Mode, RouteInfo>, maxDuration: Option<real>, p: nat, k: nat)
    requires DistinctKeys(routes) && p < |routes| && WithinLimit(routes[p].1, maxDuration)
    requires k < |FilterRoutes(routes, maxDuration)| && FilterRoutes(routes, maxDuration)[k].0 == routes[p].0
    ensures forall i :: 0 <= i < p && WithinLimit(routes[i].1, maxDuration) ==>
      routes[i] in FilterRoutes(routes, maxDuration)[..k]
  {
    var kept := FilterRoutes(routes, maxDuration);
    FilterSplit(routes, maxDuration, p);
    FilterDistinct(routes, maxDuration);
    var front := FilterRoutes(routes[..p], maxDuration);
    FrontPosition(routes, maxDuration, kept, front, p, k, routes[p].0);
    assert kept[..k] == front;
    forall i | 0 <= i < p && WithinLimit(routes[i].1, maxDuration) ensures routes[i] in front {
      assert routes[..p][i] == routes[i];
      FilterKeeps(routes[..p], maxDuration, i);
    }
  }

  /** The item of a kept mode sits right after what is kept of the routes before it. */
  lemma FrontPosition(routes: Dict<Mode, RouteInfo>, maxDuration: Option<real>, kept: Dict<Mode, RouteInfo>,
                      front: Dict<Mode, RouteInfo>, p: nat, k: nat, mode: Mode)
    requires p < |routes| && routes[p].0 == mode && WithinLimit(routes[p].1, maxDuration)
    requires kept == FilterRoutes(routes, maxDuration) && front == FilterRoutes(routes[..p], maxDuration)
    requires kept == front + FilterRoutes(routes[p..], maxDuration)
    requires DistinctKeys(kept) && k < |kept| && kept[k].0 == mode
    ensures k == |front|
  {
    var rest := routes[p + 1..];
    assert routes[p..][0] == routes[p];
    assert routes[p..][1..] == rest;
    assert FilterRoutes(routes[p..], maxDuration) == [routes[p]] + FilterRoutes(rest, maxDuration);
    assert kept[|front|] == routes[p];
  }
}
