/** Queries over a list of train routes: sorting by distance, counting the
    routes whose average distance between stops is short, selecting by start
    station and selecting the routes with the most stops. Distances are
    exact reals. */
module Routes {

  datatype Route = Route(startStation: string, endStation: string, numStops: int, distance: real)

  /** Real division kept behind a name, so that proofs about the count do not
      unfold it. */
  function Quotient(a: real, b: real): real
    requires b != 0.0
  {
    a / b
  }

  // ---------------------------------------------------------------------------
  // sortRoutesByDistance

  predicate ByDistance(s: seq<Route>) {
    forall a, b :: 0 <= a < b < |s| ==> s[a].distance <= s[b].distance
  }

  /** Sorts the routes in place by non-decreasing distance (an insertion
      sort; any sort meets this contract, and the order of routes of equal
      distance is not promised). */
  method SortRoutesByDistance(routes: array<Route>)
    modifies routes
    ensures ByDistance(routes[..])
    ensures multiset(routes[..]) == multiset(old(routes[..]))
  {
    for i := 0 to routes.Length
      invariant ByDistance(routes[..i])
      invariant multiset(routes[..]) == multiset(old(routes[..]))
    {
      InsertAt(routes, i);
    }
    if routes.Length > 0 {
      assert routes[..routes.Length] == routes[..];
    }
  }

  /** Halfway through inserting the route now at j: the first i + 1 routes
      are in order apart from it, and it is no longer than any route after
      it. */
  predicate Inserting(s: seq<Route>, i: nat, j: nat) {
    && j <= i < |s|
    && (forall a, b :: 0 <= a < b <= i && a != j && b != j ==> s[a].distance <= s[b].distance)
    && (forall b :: j < b <= i ==> s[j].distance <= s[b].distance)
  }

  /** Swapping the route with a longer one before it moves it down one place. */
  lemma InsertSwap(s: seq<Route>, i: nat, j: nat)
    requires Inserting(s, i, j) && 0 < j && s[j - 1].distance > s[j].distance
    ensures Inserting(s[j - 1 := s[j]][j := s[j - 1]], i, j - 1)
  {
    var t := s[j - 1 := s[j]][j := s[j - 1]];
    forall a, b | 0 <= a < b <= i && a != j - 1 && b != j - 1 ensures t[a].distance <= t[b].distance {
      if a == j {
        assert t[a] == s[j - 1] && t[b] == s[b];
      } else if b == j {
        assert t[a] == s[a] && t[b] == s[j - 1];
      } else {
        assert t[a] == s[a] && t[b] == s[b];
      }
    }
    forall b | j - 1 < b <= i ensures t[j - 1].distance <= t[b].distance {
      if b > j {
        assert t[b] == s[b];
      }
    }
  }

  /** Exchanging two neighbours permutes the routes. */
  lemma SwapPermutes(s: seq<Route>, j: nat)
    requires 0 < j < |s|
    ensures multiset(s[j - 1 := s[j]][j := s[j - 1]]) == multiset(s)
  {
    assert s[j - 1 := s[j]][j := s[j - 1]] == s[..j - 1] + [s[j], s[j - 1]] + s[j + 1..];
    assert s == s[..j - 1] + [s[j - 1], s[j]] + s[j + 1..];
  }

  /** Once no longer route precedes it, the first i + 1 routes are in order. */
  lemma InsertDone(s: seq<Route>, i: nat, j: nat)
    requires Inserting(s, i, j) && (j == 0 || s[j - 1].distance <= s[j].distance)
    ensures ByDistance(s[..i + 1])
  {
    forall a, b | 0 <= a < b <= i ensures s[a].distance <= s[b].distance {
      if a == j || b == j {
        if b == j {
          assert a <= j - 1;
        }
      }
    }
  }

  /** Moves routes[i] down past the longer routes before it, so that the
      first i + 1 routes are in order. */
  method InsertAt(routes: array<Route>, i: nat)
    requires i < routes.Length && ByDistance(routes[..i])
    modifies routes
    ensures ByDistance(routes[..i + 1])
    ensures multiset(routes[..]) == multiset(old(routes[..]))
  {
    var j: nat := i;
    while j > 0 && routes[j - 1].distance > routes[j].distance
      invariant Inserting(routes[..], i, j)
      invariant multiset(routes[..]) == multiset(old(routes[..]))
      decreases j
    {
      ghost var before := routes[..];
      InsertSwap(before, i, j);
      SwapPermutes(before, j);
      routes[j - 1], routes[j] := routes[j], routes[j - 1];
      assert routes[..] == before[j - 1 := before[j]][j := before[j - 1]];
      j := j - 1;
    }
    InsertDone(routes[..], i, j);
  }

  // ---------------------------------------------------------------------------
  // countRoutesWithAvgStopLengthLessThanX

  /** A route with at least one stop whose distance per stop is below x. */
  predicate ShortStops(r: Route, x: real) {
    r.numStops > 0 && Quotient(r.distance, r.numStops as real) < x
  }

  /** The number of routes with short stops. */
  function CountShort(routes: seq<Route>, x: real): (c: nat)
    ensures c <= |routes|
  {
    if |routes| == 0 then 0
    else CountShort(routes[..|routes| - 1], x) + (if ShortStops(routes[|routes| - 1], x) then 1 else 0)
  }

  method CountRoutesWithAvgStopLengthLessThanX(routes: array<Route>, x: real) returns (count: nat)
    ensures count == CountShort(routes[..], x)
    ensures count <= routes.Length
  {
    count := 0;
    for i := 0 to routes.Length
      invariant count == CountShort(routes[..i], x)
    {
      assert routes[..i + 1][..i] == routes[..i];
      var route := routes[i];
      if route.numStops > 0 {
        var avgStopLength := Quotient(route.distance, route.numStops as real);
        if avgStopLength < x {
          count := count + 1;
        }
      }
    }
    assert routes[..routes.Length] == routes[..];
  }

  /** No route is counted exactly when none has short stops. */
  lemma {:induction false} CountShortZero(routes: seq<Route>, x: real)
    ensures CountShort(routes, x) == 0 <==> forall i :: 0 <= i < |routes| ==> !ShortStops(routes[i], x)
  {
    if |routes| > 0 {
      var init := routes[..|routes| - 1];
      CountShortZero(init, x);
      if CountShort(routes, x) == 0 {
        forall i | 0 <= i < |routes| ensures !ShortStops(routes[i], x) {
          if i < |routes| - 1 {
            assert routes[i] == init[i];
          }
        }
      } else if !ShortStops(routes[|routes| - 1], x) {
        var i :| 0 <= i < |init| && ShortStops(init[i], x);
        assert routes[i] == init[i];
      }
    }
  }

  /** Every route is counted exactly when every route has short stops. */
  lemma {:induction false} CountShortAll(routes: seq<Route>, x: real)
    ensures CountShort(routes, x) == |routes| <==> forall i :: 0 <= i < |routes| ==> ShortStops(routes[i], x)
  {
    if |routes| > 0 {
      var init := routes[..|routes| - 1];
      CountShortAll(init, x);
      if CountShort(routes, x) == |routes| {
        forall i | 0 <= i < |routes| ensures ShortStops(routes[i], x) {
          if i < |routes| - 1 {
            assert routes[i] == init[i];
          }
        }
      } else if ShortStops(routes[|routes| - 1], x) {
        var i :| 0 <= i < |init| && !ShortStops(init[i], x);
        assert routes[i] == init[i];
      }
    }
  }

  /** A larger bound counts at least as many routes. */
  lemma {:induction false} CountShortMonotone(routes: seq<Route>, x: real, y: real)
    requires x <= y
    ensures CountShort(routes, x) <= CountShort(routes, y)
  {
    if |routes| > 0 {
      CountShortMonotone(routes[..|routes| - 1], x, y);
    }
  }

  // ---------------------------------------------------------------------------
  // filterRoutesByStartStation

  /** The routes leaving from `station`, in their order. */
  function FromStation(routes: seq<Route>, station: string): seq<Route> {
    if |routes| == 0 then []
    else
      var last := routes[|routes| - 1];
      FromStation(routes[..|routes| - 1], station) + (if last.startStation == station then [last] else [])
  }

  method FilterRoutesByStartStation(routes: array<Route>, startStation: string) returns (filtered: seq<Route>)
    ensures filtered == FromStation(routes[..], startStation)
    ensures forall r :: r in filtered <==> r in routes[..] && r.startStation == startStation
  {
    filtered := [];
    for i := 0 to routes.Length
      invariant filtered == FromStation(routes[..i], startStation)
    {
      assert routes[..i + 1][..i] == routes[..i];
      var route := routes[i];
      if route.startStation == startStation {
        filtered := filtered + [route];
      }
    }
    assert routes[..routes.Length] == routes[..];
    FromStationMembers(routes[..], startStation);
  }

  /** A route is selected exactly when it is in the list and leaves from the
      station. */
  lemma {:induction false} FromStationMembers(routes: seq<Route>, station: string)
    ensures forall r :: r in FromStation(routes, station) <==> r in routes && r.startStation == station
  {
    if |routes| > 0 {
      var init := routes[..|routes| - 1];
      FromStationMembers(init, station);
      assert routes == init + [routes[|routes| - 1]];
    }
  }

  /** Selection keeps order: selecting from a concatenation concatenates the
      selections. */
  lemma {:induction false} FromStationConcat(a: seq<Route>, b: seq<Route>, station: string)
    ensures FromStation(a + b, station) == FromStation(a, station) + FromStation(b, station)
  {
    if |b| > 0 {
      var init := b[..|b| - 1];
      FromStationConcat(a, init, station);
      assert (a + b)[..|a + b| - 1] == a + init;
    } else {
      assert a + b == a;
    }
  }

  /** Selecting twice by the same station is selecting once. */
  lemma {:induction false} FromStationIdempotent(routes: seq<Route>, station: string)
    ensures FromStation(FromStation(routes, station), station) == FromStation(routes, station)
  {
    if |routes| > 0 {
      var init := routes[..|routes| - 1];
      var last := routes[|routes| - 1];
      FromStationIdempotent(init, station);
      var tail := if last.startStation == station then [last] else [];
      FromStationConcat(FromStation(init, station), tail, station);
      if last.startStation == station {
        assert FromStation(tail, station) == [] + [last];
      }
    }
  }

  // ---------------------------------------------------------------------------
  // findRoutesWithMaxStops

  /** The largest stop count, and 0 when there is none above 0: the search
      starts from 0. */
  function MostStops(routes: seq<Route>): (m: int)
    ensures m >= 0
    ensures forall i :: 0 <= i < |routes| ==> routes[i].numStops <= m
    ensures m == 0 || exists i :: 0 <= i < |routes| && routes[i].numStops == m
  {
    if |routes| == 0 then 0
    else
      var m := MostStops(routes[..|routes| - 1]);
      var last := routes[|routes| - 1].numStops;
      if last > m then last else m
  }

  /** The routes with exactly `stops` stops, in their order. */
  function WithStops(routes: seq<Route>, stops: int): seq<Route> {
    if |routes| == 0 then []
    else
      var last := routes[|routes| - 1];
      WithStops(routes[..|routes| - 1], stops) + (if last.numStops == stops then [last] else [])
  }

  /** No route has more stops than every route has. */
  lemma {:induction false} WithStopsAbove(routes: seq<Route>, stops: int)
    requires forall i :: 0 <= i < |routes| ==> routes[i].numStops < stops
    ensures WithStops(routes, stops) == []
  {
    if |routes| > 0 {
      WithStopsAbove(routes[..|routes| - 1], stops);
    }
  }

  /** Keeps the routes with the largest number of stops seen so far: a route
      with more stops starts a new list, a route with as many joins it. */
  method FindRoutesWithMaxStops(routes: array<Route>) returns (maxRoutes: seq<Route>)
    ensures maxRoutes == WithStops(routes[..], MostStops(routes[..]))
  {
    var maxStops := 0;
    maxRoutes := [];
    for i := 0 to routes.Length
      invariant maxStops == MostStops(routes[..i])
      invariant maxRoutes == WithStops(routes[..i], maxStops)
    {
      assert routes[..i + 1][..i] == routes[..i];
      var route := routes[i];
      if route.numStops > maxStops {
        WithStopsAbove(routes[..i], route.numStops);
        maxStops := route.numStops;
        maxRoutes := [route];
      } else if route.numStops == maxStops {
        maxRoutes := maxRoutes + [route];
      }
    }
    assert routes[..routes.Length] == routes[..];
  }

  /** A route is selected exactly when it is in the list and has the most
      stops. */
  lemma {:induction false} WithStopsMembers(routes: seq<Route>, stops: int)
    ensures forall r :: r in WithStops(routes, stops) <==> r in routes && r.numStops == stops
  {
    if |routes| > 0 {
      var init := routes[..|routes| - 1];
      WithStopsMembers(init, stops);
      assert routes == init + [routes[|routes| - 1]];
    }
  }

  /** The selection is empty exactly when every route has a negative number
      of stops (in particular for no routes at all). */
  lemma MaxStopsEmpty(routes: seq<Route>)
    ensures WithStops(routes, MostStops(routes)) == [] <==> forall i :: 0 <= i < |routes| ==> routes[i].numStops < 0
  {
    var m := MostStops(routes);
    WithStopsMembers(routes, m);
    if WithStops(routes, m) == [] {
      forall i | 0 <= i < |routes| ensures routes[i].numStops < 0 {
        assert routes[i] !in WithStops(routes, m);
      }
    } else {
      var r := WithStops(routes, m)[0];
      assert r in WithStops(routes, m);
      var k :| 0 <= k < |routes| && routes[k] == r;
    }
  }

  // ---------------------------------------------------------------------------
  // The queries side by side on one list

  lemma {:induction false} CountShortConcat(a: seq<Route>, b: seq<Route>, x: real)
    ensures CountShort(a + b, x) == CountShort(a, x) + CountShort(b, x)
  {
    if |b| == 0 {
      assert a + b == a;
    } else {
      CountShortConcat(a, b[..|b| - 1], x);
      assert (a + b)[..|a + b| - 1] == a + b[..|b| - 1];
    }
  }

  /** Taking one route out of the list lowers the count by one exactly when
      that route has short stops. */
  lemma CountShortRemove(b: seq<Route>, k: nat, x: real)
    requires k < |b|
    ensures CountShort(b, x) == CountShort(b[..k] + b[k + 1..], x) + (if ShortStops(b[k], x) then 1 else 0)
  {
    var front, back := b[..k], b[k + 1..];
    assert b == front + [b[k]] + back;
    CountShortConcat(front + [b[k]], back, x);
    CountShortConcat(front, [b[k]], x);
    CountShortConcat(front, back, x);
    assert [b[k]][..0] == [];
  }

  /** The count depends only on which routes the list holds, not on their
      order: sorting before counting, as the program does, changes nothing. */
  lemma {:induction false} CountShortPermutation(a: seq<Route>, b: seq<Route>, x: real)
    requires multiset(a) == multiset(b)
    ensures CountShort(a, x) == CountShort(b, x)
  {
    if |a| == 0 {
      assert |multiset(b)| == 0;
    } else {
      var n := |a| - 1;
      var last := a[n];
      assert last in multiset(b) by {
        assert last in multiset(a);
      }
      var k :| 0 <= k < |b| && b[k] == last;
      var rest := b[..k] + b[k + 1..];
      assert multiset(a[..n]) == multiset(rest) by {
        assert a == a[..n] + [last];
        assert b == b[..k] + [last] + b[k + 1..];
        assert multiset(b) == multiset(b[..k]) + multiset{last} + multiset(b[k + 1..]);
        assert multiset(a) == multiset(a[..n]) + multiset{last};
        assert multiset(rest) == multiset(b[..k]) + multiset(b[k + 1..]);
        assert multiset(rest) == multiset(b) - multiset{last};
        assert multiset(a[..n]) == multiset(a) - multiset{last};
      }
      CountShortRemove(b, k, x);
      CountShortPermutation(a[..n], rest, x);
    }
  }
}
