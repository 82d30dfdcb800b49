/**
  Route aggregation, `fetch_route_data` (backend/app.py lines 62-84): one
  directions request per requested mode, in request order; a hit stores the
  first route's first leg, converted to kilometres and minutes, under that
  mode, and a miss or an exception skips the mode and goes on with the next.

  The routing service is not modelled: the reply to the i-th request is the
  input `replies[i]`, so two requests for the same mode may get different
  replies.
 */
module RouteFetch {
  import opened Wrappers
  import opened PyDict
  import opened RequestInput

  /** The distance and duration value fields of one leg of a route. */
  datatype Leg = Leg(distanceMeters: nat, durationSeconds: nat)

  /**
    What one directions request gives back: the list of routes found (each a
    list of legs; empty when there is no route), or `Raised` when the call
    raised an exception.
   */
  datatype Reply = Directions(routes: seq<seq<Leg>>) | Raised

  /** The per-mode record `{"distance_km": ..., "duration_min": ...}`. */
  datatype RouteInfo = RouteInfo(distanceKm: real, durationMin: real)

  /**
    What the loop body makes of one reply: the record to store, or None when
    the mode is skipped (an exception, no route, or a first route without
    legs, whose `[0]` raises and is caught).
   */
  function Extract(reply: Reply): (r: Option<RouteInfo>)
    ensures r.Some? <==> reply.Directions? && |reply.routes| > 0 && |reply.routes[0]| > 0
    ensures r.Some? ==> r.value.distanceKm * 1000.0 == reply.routes[0][0].distanceMeters as real
    ensures r.Some? ==> r.value.durationMin * 60.0 == reply.routes[0][0].durationSeconds as real
    ensures r.Some? ==> r.value.distanceKm >= 0.0 && r.value.durationMin >= 0.0
  {
    match reply
    case Raised => None
    case Directions(routes) =>
      if |routes| == 0 || |routes[0]| == 0 then None
      else
        var leg := routes[0][0];
        Some(RouteInfo(leg.distanceMeters as real / 1000.0, leg.durationSeconds as real / 60.0))
  }

  /** True when the reply to request `i` yields a record. */
  predicate Hit(replies: seq<Reply>, i: nat)
    requires i < |replies|
  {
    Extract(replies[i]).Some?
  }

  /** The dict the loop has built after the requests for `modes`. */
  function Fetched(modes: seq<Mode>, replies: seq<Reply>): Dict<Mode, RouteInfo>
    requires |replies| == |modes|
  {
    if modes == [] then []
    else
      var n := |modes| - 1;
      var before := Fetched(modes[..n], replies[..n]);
      match Extract(replies[n])
      case Some(info) => Set(before, modes[n], info)
      case None => before
  }

  /** The requested modes whose request was a hit, in request order. */
  function HitModes(modes: seq<Mode>, replies: seq<Reply>): seq<Mode>
    requires |replies| == |modes|
  {
    if modes == [] then []
    else
      var n := |modes| - 1;
      HitModes(modes[..n], replies[..n]) + if Hit(replies, n) then [modes[n]] else []
  }

  /** Requests one route per mode, in order, and stores each hit under its mode. */
  method FetchRouteData(modes: seq<Mode>, replies: seq<Reply>) returns (routes: Dict<Mode, RouteInfo>)
    requires |replies| == |modes|
    ensures routes == Fetched(modes, replies)
  {
    routes := [];
    for i := 0 to |modes|
      invariant routes == Fetched(modes[..i], replies[..i])
    {
      assert modes[..i + 1][..i] == modes[..i] && replies[..i + 1][..i] == replies[..i];
      match replies[i]
      case Raised =>
        // the exception is reported and the mode is skipped
      case Directions(found) =>
        if |found| > 0 && |found[0]| > 0 {
          var leg := found[0][0];
          var distanceKm := leg.distanceMeters as real / 1000.0;
          var durationMin := leg.durationSeconds as real / 60.0;
          routes := Set(routes, modes[i], RouteInfo(distanceKm, durationMin));
        }
    }
    assert modes[..|modes|] == modes && replies[..|replies|] == replies;
  }

  /** At most one entry per mode: the dict never holds a key twice. */
  lemma {:induction false} FetchedDistinct(modes: seq<Mode>, replies: seq<Reply>)
    requires |replies| == |modes|
    ensures DistinctKeys(Fetched(modes, replies))
  {
    if modes != [] {
      var n := |modes| - 1;
      FetchedDistinct(modes[..n], replies[..n]);
      if Hit(replies, n) {
        SetSpec(Fetched(modes[..n], replies[..n]), modes[n], Extract(replies[n]).value);
      }
    }
  }

  /** Every stored mode was requested. */
  lemma FetchedKeysRequested(modes: seq<Mode>, replies: seq<Reply>)
    requires |replies| == |modes|
    ensures forall m :: m in Keys(Fetched(modes, replies)) ==> m in modes
  {
    forall m | m in Keys(Fetched(modes, replies)) ensures m in modes {
      var i := FetchedStoredHit(modes, replies, m);
    }
  }

  /** A mode that got a hit is stored. */
  lemma {:induction false} FetchedHitStored(modes: seq<Mode>, replies: seq<Reply>, i: nat)
    requires |replies| == |modes| && i < |modes| && Hit(replies, i)
    ensures modes[i] in Keys(Fetched(modes, replies))
  {
    var n := |modes| - 1;
    if Hit(replies, n) { SetKeys(Fetched(modes[..n], replies[..n]), modes[n], Extract(replies[n]).value); }
    if i < n {
      assert modes[..n][i] == modes[i] && replies[..n][i] == replies[i];
      FetchedHitStored(modes[..n], replies[..n], i);
    }
  }

  /** A stored mode got a hit: the request that put it there. */
  lemma {:induction false} FetchedStoredHit(modes: seq<Mode>, replies: seq<Reply>, m: Mode) returns (i: nat)
    requires |replies| == |modes| && m in Keys(Fetched(modes, replies))
    ensures i < |modes| && modes[i] == m && Hit(replies, i)
  {
    var n := |modes| - 1;
    var before := Fetched(modes[..n], replies[..n]);
    if Hit(replies, n) { SetKeys(before, modes[n], Extract(replies[n]).value); }
    if Hit(replies, n) && m == modes[n] {
      i := n;
    } else {
      assert m in Keys(before);
      i := FetchedStoredHit(modes[..n], replies[..n], m);
      assert modes[..n][i] == modes[i] && replies[..n][i] == replies[i];
    }
  }

  /** A mode is stored exactly when at least one request for it was a hit. */
  lemma FetchedPresence(modes: seq<Mode>, replies: seq<Reply>, m: Mode)
    requires |replies| == |modes|
    ensures m in Keys(Fetched(modes, replies)) <==> exists i :: 0 <= i < |modes| && modes[i] == m && Hit(replies, i)
  {
    if m in Keys(Fetched(modes, replies)) {
      var i := FetchedStoredHit(modes, replies, m);
    }
    if exists i :: 0 <= i < |modes| && modes[i] == m && Hit(replies, i) {
      var i :| 0 <= i < |modes| && modes[i] == m && Hit(replies, i);
      FetchedHitStored(modes, replies, i);
    }
  }

  /**
    The record stored for a mode comes from the last request for that mode
    that was a hit: a later hit overwrites, a later miss leaves it alone.
   */
  lemma {:induction false} FetchedValue(modes: seq<Mode>, replies: seq<Reply>, i: nat)
    requires |replies| == |modes| && i < |modes| && Hit(replies, i)
    requires forall j :: i < j < |modes| && modes[j] == modes[i] ==> !Hit(replies, j)
    ensures modes[i] in Keys(Fetched(modes, replies))
    ensures Value(Fetched(modes, replies), modes[i]) == Extract(replies[i]).value
  {
    var n := |modes| - 1;
    FetchedDistinct(modes[..n], replies[..n]);
    if Hit(replies, n) { SetSpec(Fetched(modes[..n], replies[..n]), modes[n], Extract(replies[n]).value); }
    if i < n {
      forall j | i < j < n && modes[..n][j] == modes[..n][i]
        ensures !Hit(replies[..n], j)
      {
        assert modes[j] == modes[i];
      }
      assert modes[..n][i] == modes[i] && replies[..n][i] == replies[i];
      FetchedValue(modes[..n], replies[..n], i);
    }
  }

  /**
    With no mode requested twice, the dict holds exactly the modes that were
    hits, in request order.
   */
  lemma {:induction false} FetchedKeysInOrder(modes: seq<Mode>, replies: seq<Reply>)
    requires |replies| == |modes|
    requires forall i, j :: 0 <= i < j < |modes| ==> modes[i] != modes[j]
    ensures Keys(Fetched(modes, replies)) == HitModes(modes, replies)
  {
    if modes != [] {
      var n := |modes| - 1;
      if Hit(replies, n) { SetKeys(Fetched(modes[..n], replies[..n]), modes[n], Extract(replies[n]).value); }
      FetchedKeysInOrder(modes[..n], replies[..n]);
      FetchedKeysRequested(modes[..n], replies[..n]);
      assert modes[n] !in modes[..n];
    }
  }

  /** `s` with every repeat dropped, each element kept where it first occurs. */
  function FirstOccurrences(s: seq<Mode>): seq<Mode>
  {
    if s == [] then []
    else
      var n := |s| - 1;
      var kept := FirstOccurrences(s[..n]);
      if s[n] in kept then kept else kept + [s[n]]
  }

  /**
    Whatever the repeats in the request list, the dict's modes are the hit
    modes in the order of their first hit: a later hit for a stored mode
    overwrites its record in place and does not move it.
   */
  lemma {:induction false} FetchedKeysFirstHits(modes: seq<Mode>, replies: seq<Reply>)
    requires |replies| == |modes|
    ensures Keys(Fetched(modes, replies)) == FirstOccurrences(HitModes(modes, replies))
  {
    if modes != [] {
      var n := |modes| - 1;
      FetchedKeysFirstHits(modes[..n], replies[..n]);
      var hits := HitModes(modes[..n], replies[..n]);
      if Hit(replies, n) {
        SetKeys(Fetched(modes[..n], replies[..n]), modes[n], Extract(replies[n]).value);
        assert HitModes(modes, replies) == hits + [modes[n]];
        assert (hits + [modes[n]])[..|hits|] == hits;
      } else {
        assert HitModes(modes, replies) == hits;
      }
    }
  }

  /** At most one entry per mode: never more entries than requests that were hits. */
  lemma {:induction false} FetchedSize(modes: seq<Mode>, replies: seq<Reply>)
    requires |replies| == |modes|
    ensures |Fetched(modes, replies)| <= |HitModes(modes, replies)| <= |modes|
  {
    if modes != [] {
      var n := |modes| - 1;
      if Hit(replies, n) { SetKeys(Fetched(modes[..n], replies[..n]), modes[n], Extract(replies[n]).value); }
      FetchedSize(modes[..n], replies[..n]);
    }
  }

  /** Every stored distance and duration is non-negative. */
  lemma {:induction false} FetchedNonNegative(modes: seq<Mode>, replies: seq<Reply>)
    requires |replies| == |modes|
    ensures forall i :: 0 <= i < |Fetched(modes, replies)| ==>
      Fetched(modes, replies)[i].1.distanceKm >= 0.0 && Fetched(modes, replies)[i].1.durationMin >= 0.0
  {
    if modes != [] {
      var n := |modes| - 1;
      FetchedNonNegative(modes[..n], replies[..n]);
    }
  }

  /** When every request fails the dict is empty, and no error is raised. */
  lemma FetchedAllMissed(modes: seq<Mode>, replies: seq<Reply>)
    requires |replies| == |modes|
    requires forall i :: 0 <= i < |modes| ==> !Hit(replies, i)
    ensures Fetched(modes, replies) == []
  {
    FetchedSize(modes, replies);
    assert HitModes(modes, replies) == [] by {
      HitModesNone(modes, replies);
    }
  }

  /** No request a hit: no hit modes. */
  lemma {:induction false} HitModesNone(modes: seq<Mode>, replies: seq<Reply>)
    requires |replies| == |modes|
    requires forall i :: 0 <= i < |modes| ==> !Hit(replies, i)
    ensures HitModes(modes, replies) == []
  {
    if modes != [] {
      var n := |modes| - 1;
      forall i | 0 <= i < n ensures !Hit(replies[..n], i) {
        assert !Hit(replies, i) && replies[..n][i] == replies[i];
      }
      HitModesNone(modes[..n], replies[..n]);
    }
  }

  /** Every request a hit: every requested mode is a hit mode. */
  lemma {:induction false} HitModesAll(modes: seq<Mode>, replies: seq<Reply>)
    requires |replies| == |modes|
    requires forall i :: 0 <= i < |modes| ==> Hit(replies, i)
    ensures HitModes(modes, replies) == modes
  {
    if modes != [] {
      var n := |modes| - 1;
      forall i | 0 <= i < n ensures Hit(replies[..n], i) {
        assert Hit(replies, i) && replies[..n][i] == replies[i];
      }
      HitModesAll(modes[..n], replies[..n]);
      assert modes[..n] + [modes[n]] == modes;
    }
  }

  /** Only request `j` missed: the hit modes are the others. */
  lemma {:induction false} HitModesOneMissed(modes: seq<Mode>, replies: seq<Reply>, j: nat)
    requires |replies| == |modes| && j < |modes| && !Hit(replies, j)
    requires forall i :: 0 <= i < |modes| && i != j ==> Hit(replies, i)
    ensures HitModes(modes, replies) == modes[..j] + modes[j + 1..]
  {
    var n := |modes| - 1;
    forall i | 0 <= i < n && i != j ensures Hit(replies[..n], i) {
      assert Hit(replies, i) && replies[..n][i] == replies[i];
    }
    if j == n {
      HitModesAll(modes[..n], replies[..n]);
      assert modes[j + 1..] == [];
    } else {
      assert replies[..n][j] == replies[j];
      HitModesOneMissed(modes[..n], replies[..n], j);
      assert modes[..n][..j] == modes[..j];
      assert modes[..n][j + 1..] + [modes[n]] == modes[j + 1..];
    }
  }

  /** With distinct modes and every request a hit, every mode is stored, in request order. */
  lemma FetchedAllHit(modes: seq<Mode>, replies: seq<Reply>)
    requires |replies| == |modes|
    requires forall i, j :: 0 <= i < j < |modes| ==> modes[i] != modes[j]
    requires forall i :: 0 <= i < |modes| ==> Hit(replies, i)
    ensures Keys(Fetched(modes, replies)) == modes
  {
    FetchedKeysInOrder(modes, replies);
    HitModesAll(modes, replies);
  }

  /**
    Partial failure: with distinct modes and exactly one request failing, the
    dict holds the other modes, in request order, and one entry fewer.
   */
  lemma FetchedOneMissed(modes: seq<Mode>, replies: seq<Reply>, j: nat)
    requires |replies| == |modes| && j < |modes| && !Hit(replies, j)
    requires forall i, k :: 0 <= i < k < |modes| ==> modes[i] != modes[k]
    requires forall i :: 0 <= i < |modes| && i != j ==> Hit(replies, i)
    ensures Keys(Fetched(modes, replies)) == modes[..j] + modes[j + 1..]
    ensures |Fetched(modes, replies)| == |modes| - 1 && modes[j] !in Keys(Fetched(modes, replies))
  {
    FetchedKeysInOrder(modes, replies);
    HitModesOneMissed(modes, replies, j);
    var rest := modes[..j] + modes[j + 1..];
    forall k | 0 <= k < |rest| ensures rest[k] != modes[j] {
      if k < j {
        assert rest[k] == modes[k];
      } else {
        assert rest[k] == modes[k + 1];
      }
    }
  }
}
