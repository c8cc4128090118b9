/** Routes over cities 0..n-1: what makes a route a tour, its length under a
    distance matrix, and how often it traverses a given directed edge. */
module Tours {
  import opened Matrices

  /** No city occurs twice in `route`. */
  predicate Distinct(route: seq<nat>)
  {
    forall i, j :: 0 <= i < j < |route| ==> route[i] != route[j]
  }

  /** Every city of `route` is one of 0..n-1. */
  predicate InRange(route: seq<nat>, n: nat)
  {
    forall k :: 0 <= k < |route| ==> route[k] < n
  }

  /** `route` visits each of the cities 0..n-1 exactly once. */
  predicate IsTour(route: seq<nat>, n: nat)
  {
    |route| == n && Distinct(route) && InRange(route, n)
  }

  /** The distances the colony can work with: no negative entry, and a
      strictly positive length between two different cities. */
  predicate ValidDistances(distances: seq<seq<int>>, n: nat)
  {
    IsMatrix(distances, n) &&
    forall i, j :: 0 <= i < n && 0 <= j < n ==>
      distances[i][j] >= 0 && (i != j ==> distances[i][j] > 0)
  }

  /** Sum of the distances between consecutive cities of `route`. */
  function PathLength(route: seq<nat>, distances: seq<seq<int>>): int
    requires IsMatrix(distances, |distances|) && InRange(route, |distances|)
  {
    if |route| < 2 then 0
    else PathLength(route[..|route| - 1], distances)
         + distances[route[|route| - 2]][route[|route| - 1]]
  }

  /** Length of the closed tour: the path plus the edge from the last city
      back to the first. The empty route has length 0. */
  function TourLength(route: seq<nat>, distances: seq<seq<int>>): int
    requires IsMatrix(distances, |distances|) && InRange(route, |distances|)
  {
    if route == [] then 0
    else PathLength(route, distances) + distances[route[|route| - 1]][route[0]]
  }

  /** Number of positions k with route[k] == i and route[k + 1] == j. */
  function EdgeUses(route: seq<nat>, i: nat, j: nat): nat
  {
    if |route| < 2 then 0
    else EdgeUses(route[..|route| - 1], i, j)
         + (if route[|route| - 2] == i && route[|route| - 1] == j then 1 else 0)
  }

  /** `route` with the element at position k taken out. */
  function Without(route: seq<nat>, k: nat): (rest: seq<nat>)
    requires k < |route|
    ensures |rest| == |route| - 1
  {
    route[..k] + route[k + 1..]
  }

  lemma WithoutDistinct(route: seq<nat>, k: nat)
    requires k < |route| && Distinct(route)
    ensures Distinct(Without(route, k))
    ensures forall x :: x in route <==> x in Without(route, k) || x == route[k]
    ensures route[k] !in Without(route, k)
  {
    var rest := Without(route, k);
    forall a, b | 0 <= a < b < |rest|
      ensures rest[a] != rest[b]
    {
      var a' := if a < k then a else a + 1;
      var b' := if b < k then b else b + 1;
      assert rest[a] == route[a'] && rest[b] == route[b'];
    }
    forall x | x in route
      ensures x in rest || x == route[k]
    {
      var p :| 0 <= p < |route| && route[p] == x;
      if p < k {
        assert rest[p] == x;
      } else if p > k {
        assert rest[p - 1] == x;
      }
    }
    forall p | 0 <= p < |rest|
      ensures rest[p] != route[k]
    {
      var p' := if p < k then p else p + 1;
      assert rest[p] == route[p'];
    }
  }

  /** Pigeonhole: a duplicate-free route over 0..n-1 has at most n cities,
      and one with exactly n cities visits every city. */
  lemma {:induction false} DistinctBound(route: seq<nat>, n: nat)
    requires Distinct(route) && InRange(route, n)
    ensures |route| <= n
    ensures |route| == n ==> forall c :: 0 <= c < n ==> c in route
    decreases n
  {
    if route != [] {
      assert route[0] < n;
      var top := n - 1;
      if top in route {
        var k :| 0 <= k < |route| && route[k] == top;
        var rest := Without(route, k);
        WithoutDistinct(route, k);
        forall p | 0 <= p < |rest|
          ensures rest[p] < top
        {
          assert rest[p] in route;
          assert rest[p] != top;
        }
        DistinctBound(rest, top);
      } else {
        forall p | 0 <= p < |route|
          ensures route[p] < top
        {
          assert route[p] != top;
        }
        DistinctBound(route, top);
      }
    }
  }

  /** A duplicate-free route over 0..n-1 with fewer than n cities misses
      one of them. */
  lemma {:induction false} MissingCity(route: seq<nat>, n: nat)
    requires Distinct(route) && InRange(route, n) && |route| < n
    ensures exists c :: 0 <= c < n && c !in route
    decreases n
  {
    var top := n - 1;
    if top in route {
      var k :| 0 <= k < |route| && route[k] == top;
      var rest := Without(route, k);
      WithoutDistinct(route, k);
      forall p | 0 <= p < |rest|
        ensures rest[p] < top
      {
        assert rest[p] in route;
        assert rest[p] != top;
      }
      MissingCity(rest, top);
      var c :| 0 <= c < top && c !in rest;
      assert c !in route;
    }
  }

  /** Walking on from the last city of `route` to `city`: the route stays
      within range, the path grows by that one edge, and it stays free of
      duplicates when `city` is new. */
  lemma AppendCity(route: seq<nat>, city: nat, distances: seq<seq<int>>)
    requires IsMatrix(distances, |distances|) && InRange(route, |distances|) && city < |distances|
    requires |route| >= 1
    ensures InRange(route + [city], |distances|)
    ensures PathLength(route + [city], distances) == PathLength(route, distances) + distances[route[|route| - 1]][city]
    ensures Distinct(route) && city !in route ==> Distinct(route + [city])
  {
    assert (route + [city])[..|route|] == route;
  }

  /** The path length of a route is never negative. */
  lemma {:induction false} PathLengthNonNegative(route: seq<nat>, distances: seq<seq<int>>)
    requires ValidDistances(distances, |distances|) && InRange(route, |distances|)
    ensures PathLength(route, distances) >= 0
    decreases |route|
  {
    if |route| >= 2 {
      PathLengthNonNegative(route[..|route| - 1], distances);
    }
  }

  /** A tour through two or more distinct cities has a strictly positive
      length, so the deposit `pheromoneAddition / antDistance` is defined. */
  lemma TourLengthPositive(route: seq<nat>, distances: seq<seq<int>>)
    requires ValidDistances(distances, |distances|) && InRange(route, |distances|)
    requires Distinct(route) && |route| >= 2
    ensures TourLength(route, distances) > 0
  {
    PathLengthNonNegative(route, distances);
    assert route[|route| - 1] != route[0];
  }

  /** The largest value of a signed 64-bit integer, the width of the
      distances as numpy reads them. */
  const Int64Max: int := 0x7FFF_FFFF_FFFF_FFFF

  /** A path of k cities over distances of at most `bound` is at most
      (k - 1) * bound long. */
  lemma {:induction false} PathLengthAtMost(route: seq<nat>, distances: seq<seq<int>>, bound: nat)
    requires IsMatrix(distances, |distances|) && InRange(route, |distances|) && |route| >= 1
    requires forall i, j :: 0 <= i < |distances| && 0 <= j < |distances| ==> distances[i][j] <= bound
    ensures PathLength(route, distances) <= (|route| - 1) * bound
    decreases |route|
  {
    if |route| >= 2 {
      PathLengthAtMost(route[..|route| - 1], distances, bound);
    }
  }

  /** When n times the largest distance fits in a signed 64-bit integer, so
      does every running total of `ant.distance` along a tour and the closed
      tour length `antDistance`: the source's 64-bit sums then agree with
      this model's unbounded ones. */
  lemma TourFitsInInt64(route: seq<nat>, distances: seq<seq<int>>, bound: nat)
    requires ValidDistances(distances, |distances|) && IsTour(route, |distances|)
    requires forall i, j :: 0 <= i < |distances| && 0 <= j < |distances| ==> distances[i][j] <= bound
    requires |distances| * bound <= Int64Max
    ensures forall k :: 1 <= k <= |route| ==> 0 <= PathLength(route[..k], distances) <= Int64Max
    ensures 0 <= TourLength(route, distances) <= Int64Max
  {
    var n := |distances|;
    forall k | 1 <= k <= |route|
      ensures 0 <= PathLength(route[..k], distances) <= Int64Max
    {
      var prefix := route[..k];
      PathLengthAtMost(prefix, distances, bound);
      PathLengthNonNegative(prefix, distances);
      MulAtMost(k - 1, n, bound);
    }
    if route != [] {
      PathLengthAtMost(route, distances, bound);
      PathLengthNonNegative(route, distances);
      MulAtMost(n - 1, n - 1, bound);
      MulSucc(n - 1, bound);
    }
  }

  lemma MulAtMost(a: nat, b: nat, c: nat)
    requires a <= b
    ensures a * c <= b * c
  {
  }

  lemma MulSucc(a: nat, c: nat)
    ensures a * c + c == (a + 1) * c
  {
  }

  /** Above that bound a tour can be longer than any signed 64-bit integer:
      three cities 4 * 10^18 apart give a closed tour of 1.2 * 10^19. */
  lemma TourBeyondInt64()
    ensures var far := 4_000_000_000_000_000_000;
      TourLength([0, 1, 2], [[0, far, far], [far, 0, far], [far, far, 0]]) == 3 * far > Int64Max
  {
    var far := 4_000_000_000_000_000_000;
    var distances := [[0, far, far], [far, 0, far], [far, far, 0]];
    var route: seq<nat> := [0, 1, 2];
    assert route[..2] == [0, 1] && route[..2][..1] == [0];
    assert PathLength([0, 1], distances) == far;
    assert PathLength(route, distances) == 2 * far;
  }

  /** EdgeUses counts exactly the consecutive pairs (i, j) of the route. */
  lemma {:induction false} EdgeUsedIff(route: seq<nat>, i: nat, j: nat)
    ensures EdgeUses(route, i, j) > 0 <==>
            exists k :: 0 <= k < |route| - 1 && route[k] == i && route[k + 1] == j
    decreases |route|
  {
    if |route| >= 2 {
      var front := route[..|route| - 1];
      EdgeUsedIff(front, i, j);
      if EdgeUses(front, i, j) > 0 {
        var k :| 0 <= k < |front| - 1 && front[k] == i && front[k + 1] == j;
        assert route[k] == i && route[k + 1] == j;
      }
      if exists k :: 0 <= k < |route| - 1 && route[k] == i && route[k + 1] == j {
        var k :| 0 <= k < |route| - 1 && route[k] == i && route[k + 1] == j;
        if k < |route| - 2 {
          assert front[k] == i && front[k + 1] == j;
        }
      }
    }
  }

  /** The closing edge of a duplicate-free route, from its last city back to
      its first, is not one of its consecutive pairs. */
  lemma ClosingEdgeUnused(route: seq<nat>)
    requires Distinct(route) && |route| >= 1
    ensures EdgeUses(route, route[|route| - 1], route[0]) == 0
  {
    EdgeUsedIff(route, route[|route| - 1], route[0]);
  }

  /** With two cities every tour has the same length, the sum of the two
      directed distances between them. */
  lemma TwoCityTour(route: seq<nat>, distances: seq<seq<int>>)
    requires IsMatrix(distances, 2) && IsTour(route, 2)
    ensures TourLength(route, distances) == distances[0][1] + distances[1][0]
  {
    assert route[0] < 2 && route[1] < 2 && route[0] != route[1];
    assert route[..1] == [route[0]];
    assert PathLength(route, distances) == distances[route[0]][route[1]];
  }
}
