/** The colony's best-so-far result: the shortest tour length seen and the
    route that first reached it. */
module BestResults {
  import opened Matrices
  import opened Tours

  /** A tour length or the initial infinity. */
  datatype Bound = Infinity | Finite(value: int)

  /** `length < minDistance`, with every length below infinity. */
  predicate Improves(length: int, best: Bound)
  {
    best.Infinity? || length < best.value
  }

  /** `a` is no greater than `b`. */
  predicate AtMost(a: Bound, b: Bound)
  {
    b.Infinity? || (a.Finite? && a.value <= b.value)
  }

  /** `minDistance` after the ants that completed `tours`, in order. */
  function MinLength(tours: seq<seq<nat>>, distances: seq<seq<int>>): Bound
    requires IsMatrix(distances, |distances|)
    requires forall k :: 0 <= k < |tours| ==> InRange(tours[k], |distances|)
  {
    if tours == [] then Infinity
    else
      var best := MinLength(tours[..|tours| - 1], distances);
      var length := TourLength(tours[|tours| - 1], distances);
      if Improves(length, best) then Finite(length) else best
  }

  /** `route` after the ants that completed `tours`: replaced only on a
      strict improvement. */
  function BestRoute(tours: seq<seq<nat>>, distances: seq<seq<int>>): seq<nat>
    requires IsMatrix(distances, |distances|)
    requires forall k :: 0 <= k < |tours| ==> InRange(tours[k], |distances|)
  {
    if tours == [] then []
    else if Improves(TourLength(tours[|tours| - 1], distances), MinLength(tours[..|tours| - 1], distances))
    then tours[|tours| - 1]
    else BestRoute(tours[..|tours| - 1], distances)
  }

  /** Once a tour is seen the result is finite, no tour is shorter, and some
      tour has exactly that length. */
  lemma {:induction false} MinLengthIsMinimum(tours: seq<seq<nat>>, distances: seq<seq<int>>)
    requires IsMatrix(distances, |distances|)
    requires forall k :: 0 <= k < |tours| ==> InRange(tours[k], |distances|)
    requires tours != []
    ensures MinLength(tours, distances).Finite?
    ensures forall k :: 0 <= k < |tours| ==> MinLength(tours, distances).value <= TourLength(tours[k], distances)
    ensures exists k :: 0 <= k < |tours| && TourLength(tours[k], distances) == MinLength(tours, distances).value
    decreases |tours|
  {
    var front := tours[..|tours| - 1];
    var m := MinLength(tours, distances);
    if front != [] {
      MinLengthIsMinimum(front, distances);
      var k :| 0 <= k < |front| && TourLength(front[k], distances) == MinLength(front, distances).value;
      assert tours[k] == front[k];
      forall j | 0 <= j < |tours| - 1
        ensures m.value <= TourLength(tours[j], distances)
      {
        assert tours[j] == front[j];
      }
    }
  }

  /** minDistance never increases: the result after all tours is no greater
      than after any prefix of them. */
  lemma {:induction false} MinLengthNeverIncreases(tours: seq<seq<nat>>, distances: seq<seq<int>>, k: nat)
    requires IsMatrix(distances, |distances|)
    requires forall t :: 0 <= t < |tours| ==> InRange(tours[t], |distances|)
    requires k <= |tours|
    ensures AtMost(MinLength(tours, distances), MinLength(tours[..k], distances))
    decreases |tours| - k
  {
    if k < |tours| {
      MinLengthNeverIncreases(tours, distances, k + 1);
      assert tours[..k + 1][..k] == tours[..k];
    } else {
      assert tours[..k] == tours;
    }
  }

  /** The best route is the first of the tours that reaches the minimum
      length: every earlier tour is strictly longer. */
  lemma {:induction false} BestRouteIsFirstMinimum(tours: seq<seq<nat>>, distances: seq<seq<int>>)
    requires IsMatrix(distances, |distances|)
    requires forall k :: 0 <= k < |tours| ==> InRange(tours[k], |distances|)
    requires tours != []
    ensures MinLength(tours, distances).Finite?
    ensures exists k :: (0 <= k < |tours| && tours[k] == BestRoute(tours, distances) &&
                         TourLength(tours[k], distances) == MinLength(tours, distances).value &&
                         forall j :: 0 <= j < k ==> TourLength(tours[j], distances) > MinLength(tours, distances).value)
    decreases |tours|
  {
    var front := tours[..|tours| - 1];
    var last := |tours| - 1;
    MinLengthIsMinimum(tours, distances);
    var m := MinLength(tours, distances).value;
    if Improves(TourLength(tours[last], distances), MinLength(front, distances)) {
      if front != [] {
        MinLengthIsMinimum(front, distances);
        forall j | 0 <= j < last
          ensures TourLength(tours[j], distances) > m
        {
          assert tours[j] == front[j];
        }
      }
    } else {
      BestRouteIsFirstMinimum(front, distances);
      var k :| 0 <= k < |front| && front[k] == BestRoute(front, distances) &&
        TourLength(front[k], distances) == MinLength(front, distances).value &&
        (forall j :: 0 <= j < k ==> TourLength(front[j], distances) > MinLength(front, distances).value);
      assert tours[k] == front[k];
      forall j | 0 <= j < k
        ensures TourLength(tours[j], distances) > m
      {
        assert tours[j] == front[j];
      }
    }
  }

  /** One more tour moves the minimum and the route to it exactly when it
      is a strict improvement. */
  lemma RecordTour(tours: seq<seq<nat>>, tour: seq<nat>, distances: seq<seq<int>>)
    requires IsMatrix(distances, |distances|)
    requires forall k :: 0 <= k < |tours| ==> InRange(tours[k], |distances|)
    requires InRange(tour, |distances|)
    ensures forall k :: 0 <= k < |tours + [tour]| ==> InRange((tours + [tour])[k], |distances|)
    ensures MinLength(tours + [tour], distances) ==
      if Improves(TourLength(tour, distances), MinLength(tours, distances)) then Finite(TourLength(tour, distances))
      else MinLength(tours, distances)
    ensures BestRoute(tours + [tour], distances) ==
      if Improves(TourLength(tour, distances), MinLength(tours, distances)) then tour
      else BestRoute(tours, distances)
  {
    assert (tours + [tour])[..|tours|] == tours;
  }
}
