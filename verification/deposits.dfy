/** What the colony's cycles do to the pheromone matrix: the deposit each
    completed tour leaves, the per-cycle delta, and the matrix after a
    sequence of cycles. */
module Deposits {
  import opened Matrices
  import opened Tours
  import opened CityMaps

  /** The pheromone an ant puts on each edge it traversed:
      `pheromoneAddition / antDistance`. A tour of length 0 deposits
      nothing; with valid distances only a one-city tour has length 0, and it
      traverses no edge. */
  function Share(addition: real, tourLength: int): real
  {
    if tourLength == 0 then 0.0 else addition / tourLength as real
  }

  /** Every route of `tours` stays within cities 0..n-1. */
  predicate AllInRange(tours: seq<seq<nat>>, n: nat)
  {
    forall k :: 0 <= k < |tours| ==> InRange(tours[k], n)
  }

  /** The deposit a route leaves on the edge (i, j), `share` for every
      traversal, accumulated pair by pair from the front. */
  function TourDeposit(route: seq<nat>, share: real, i: nat, j: nat): real
  {
    if |route| < 2 then 0.0
    else TourDeposit(route[..|route| - 1], share, i, j)
         + (if route[|route| - 2] == i && route[|route| - 1] == j then share else 0.0)
  }

  /** Accumulating the share pair by pair gives the share times the number
      of traversals of the edge. */
  lemma {:induction false} TourDepositIsShareTimesUses(route: seq<nat>, share: real, i: nat, j: nat)
    ensures TourDeposit(route, share, i, j) == EdgeUses(route, i, j) as real * share
    decreases |route|
  {
    if |route| >= 2 {
      TourDepositIsShareTimesUses(route[..|route| - 1], share, i, j);
      var uses := EdgeUses(route[..|route| - 1], i, j) as real;
      assert (uses + 1.0) * share == uses * share + share;
    }
  }

  /** The total pheromone deposited on the edge (i, j) by the ants that
      completed `tours`: each adds its share once per traversal of the edge,
      and `TourDepositIsShareTimesUses` turns that into the share times
      `EdgeUses`. */
  function Deposited(tours: seq<seq<nat>>, distances: seq<seq<int>>, addition: real, i: nat, j: nat): real
    requires IsMatrix(distances, |distances|) && AllInRange(tours, |distances|)
  {
    if tours == [] then 0.0
    else
      var last := tours[|tours| - 1];
      Deposited(tours[..|tours| - 1], distances, addition, i, j)
      + TourDeposit(last, Share(addition, TourLength(last, distances)), i, j)
  }

  /** The delta matrix of one cycle whose ants completed `tours`; it starts
      from zero. */
  function CycleDelta(tours: seq<seq<nat>>, distances: seq<seq<int>>, addition: real): (delta: seq<seq<real>>)
    requires IsMatrix(distances, |distances|) && AllInRange(tours, |distances|)
    ensures IsMatrix(delta, |distances|)
  {
    seq(|distances|, i requires 0 <= i =>
      seq(|distances|, j requires 0 <= j => Deposited(tours, distances, addition, i, j)))
  }

  /** Every cycle of `cycles` stays within cities 0..n-1. */
  predicate CyclesInRange(cycles: seq<seq<seq<nat>>>, n: nat)
  {
    forall c :: 0 <= c < |cycles| ==> AllInRange(cycles[c], n)
  }

  /** The tours of all cycles, cycle after cycle. */
  function Flatten(cycles: seq<seq<seq<nat>>>): seq<seq<nat>>
  {
    if cycles == [] then [] else Flatten(cycles[..|cycles| - 1]) + cycles[|cycles| - 1]
  }

  /** When every route of every cycle visits each of the cities 0..n-1
      once, so does every route of the flattened sequence. */
  lemma {:induction false} FlattenKeepsTours(cycles: seq<seq<seq<nat>>>, n: nat)
    requires forall c, a :: 0 <= c < |cycles| && 0 <= a < |cycles[c]| ==> IsTour(cycles[c][a], n)
    ensures forall k :: 0 <= k < |Flatten(cycles)| ==> IsTour(Flatten(cycles)[k], n)
    decreases |cycles|
  {
    if cycles != [] {
      var front := cycles[..|cycles| - 1];
      var last := cycles[|cycles| - 1];
      FlattenKeepsTours(front, n);
      forall k | 0 <= k < |Flatten(cycles)|
        ensures IsTour(Flatten(cycles)[k], n)
      {
        if k >= |Flatten(front)| {
          assert Flatten(cycles)[k] == last[k - |Flatten(front)|];
        } else {
          assert Flatten(cycles)[k] == Flatten(front)[k];
        }
      }
    }
  }

  /** The pheromone matrix after the colony ran `cycles`, one update with
      the whole cycle's delta after each cycle. */
  function Evolve(pheromones: seq<seq<real>>, cycles: seq<seq<seq<nat>>>, distances: seq<seq<int>>,
                  rate: real, addition: real): (r: seq<seq<real>>)
    requires IsMatrix(distances, |distances|) && IsMatrix(pheromones, |distances|)
    requires CyclesInRange(cycles, |distances|)
    ensures IsMatrix(r, |distances|)
  {
    if cycles == [] then pheromones
    else
      Evaporated(Evolve(pheromones, cycles[..|cycles| - 1], distances, rate, addition), rate,
                 CycleDelta(cycles[|cycles| - 1], distances, addition))
  }

  /** With valid distances and a non-negative addition no edge receives a
      negative deposit. */
  lemma {:induction false} DepositedNonNegative(tours: seq<seq<nat>>, distances: seq<seq<int>>,
                                                addition: real, i: nat, j: nat)
    requires ValidDistances(distances, |distances|) && AllInRange(tours, |distances|)
    requires addition >= 0.0
    ensures Deposited(tours, distances, addition, i, j) >= 0.0
    decreases |tours|
  {
    if tours != [] {
      var last := tours[|tours| - 1];
      DepositedNonNegative(tours[..|tours| - 1], distances, addition, i, j);
      var length := TourLength(last, distances);
      if last != [] {
        PathLengthNonNegative(last, distances);
      }
      assert length >= 0;
      if length != 0 {
        assert addition / length as real >= 0.0;
      }
      TourDepositNonNegative(last, Share(addition, length), i, j);
    }
  }

  /** A non-negative share never makes a negative deposit. */
  lemma {:induction false} TourDepositNonNegative(route: seq<nat>, share: real, i: nat, j: nat)
    requires share >= 0.0
    ensures TourDeposit(route, share, i, j) >= 0.0
    decreases |route|
  {
    if |route| >= 2 {
      TourDepositNonNegative(route[..|route| - 1], share, i, j);
    }
  }

  /** The closing edge of a tour receives no pheromone from that tour. */
  lemma ClosingEdgeGetsNoDeposit(tour: seq<nat>, distances: seq<seq<int>>, addition: real)
    requires IsMatrix(distances, |distances|) && InRange(tour, |distances|)
    requires Distinct(tour) && |tour| >= 1
    ensures Deposited([tour], distances, addition, tour[|tour| - 1], tour[0]) == 0.0
  {
    ClosingEdgeUnused(tour);
    TourDepositIsShareTimesUses(tour, Share(addition, TourLength(tour, distances)), tour[|tour| - 1], tour[0]);
    assert [tour][..0] == [];
  }

  /** Pheromones stay strictly positive over any number of cycles when the
      evaporation rate is in [0, 1). */
  lemma {:induction false} PheromonesStayPositive(pheromones: seq<seq<real>>, cycles: seq<seq<seq<nat>>>,
                                                  distances: seq<seq<int>>, rate: real, addition: real)
    requires ValidDistances(distances, |distances|) && IsMatrix(pheromones, |distances|)
    requires CyclesInRange(cycles, |distances|)
    requires Positive(pheromones) && 0.0 <= rate < 1.0 && addition >= 0.0
    ensures Positive(Evolve(pheromones, cycles, distances, rate, addition))
    decreases |cycles|
  {
    if cycles != [] {
      var before := Evolve(pheromones, cycles[..|cycles| - 1], distances, rate, addition);
      PheromonesStayPositive(pheromones, cycles[..|cycles| - 1], distances, rate, addition);
      var delta := CycleDelta(cycles[|cycles| - 1], distances, addition);
      forall i, j | 0 <= i < |delta| && 0 <= j < |delta[i]|
        ensures delta[i][j] >= 0.0
      {
        DepositedNonNegative(cycles[|cycles| - 1], distances, addition, i, j);
      }
      EvaporationKeepsPositive(before, rate, delta);
    }
  }

  /** One more tour adds its share once per traversal to every edge. */
  lemma DepositStep(tours: seq<seq<nat>>, tour: seq<nat>, distances: seq<seq<int>>, addition: real)
    requires IsMatrix(distances, |distances|) && AllInRange(tours, |distances|) && InRange(tour, |distances|)
    ensures AllInRange(tours + [tour], |distances|)
    ensures forall i, j :: (Deposited(tours + [tour], distances, addition, i, j) ==
      Deposited(tours, distances, addition, i, j) + TourDeposit(tour, Share(addition, TourLength(tour, distances)), i, j))
  {
    assert (tours + [tour])[..|tours|] == tours;
  }

  /** One more cycle: its tours follow the earlier ones and the matrix gets
      one more update with that cycle's delta. */
  lemma EvolveStep(pheromones: seq<seq<real>>, cycles: seq<seq<seq<nat>>>, cycle: seq<seq<nat>>,
                   distances: seq<seq<int>>, rate: real, addition: real)
    requires IsMatrix(distances, |distances|) && IsMatrix(pheromones, |distances|)
    requires CyclesInRange(cycles, |distances|) && AllInRange(cycle, |distances|)
    ensures CyclesInRange(cycles + [cycle], |distances|)
    ensures Flatten(cycles + [cycle]) == Flatten(cycles) + cycle
    ensures Evolve(pheromones, cycles + [cycle], distances, rate, addition) ==
      Evaporated(Evolve(pheromones, cycles, distances, rate, addition), rate, CycleDelta(cycle, distances, addition))
  {
    assert (cycles + [cycle])[..|cycles|] == cycles;
  }
}
