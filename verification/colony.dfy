/** The colony: next-city selection for one ant, tour construction, the
    per-cycle pheromone delta and the search loop that keeps the best tour
    length found. */
module Colonies {
  import opened Matrices
  import opened Tours
  import opened CityMaps
  import opened Ants
  import opened Selection
  import opened Deposits
  import opened BestResults

  /** The total weight of the eligible cities is zero, so the probabilities
      cannot be normalised. */
  datatype Error = DegenerateSelection

  datatype Result<T> = Success(value: T) | Failure(error: Error)

  /** The draws of the a-th ant of `cycle`, one per move. */
  function AntDraws(cityDraw: (nat, nat, nat) -> real, cycle: nat, a: nat): nat -> real
  {
    (step: nat) => cityDraw(cycle, a, step)
  }

  /** The tours the `ants` ants of `cycle` walk over the pheromone matrix
      of that cycle: the a-th starts at startDraw(cycle, a) and makes its
      moves with the draws of `AntDraws`. */
  function CycleTours(pheromones: seq<seq<real>>, distances: seq<seq<int>>, n: nat, canRevisit: bool,
                      weight: Weight, ants: nat, startDraw: (nat, nat) -> nat, cityDraw: (nat, nat, nat) -> real,
                      cycle: nat): (tours: seq<seq<nat>>)
    requires IsMatrix(pheromones, n) && IsMatrix(distances, n)
    requires forall a :: startDraw(cycle, a) < n
    ensures |tours| == ants && AllInRange(tours, n)
  {
    var tours := seq(ants, a requires 0 <= a < ants =>
      Walk(pheromones, distances, n, canRevisit, weight, [startDraw(cycle, a)], AntDraws(cityDraw, cycle, a), 0));
    assert AllInRange(tours, n) by {
      forall a | 0 <= a < ants
        ensures InRange(tours[a], n)
      {
        var walked := Walk(pheromones, distances, n, canRevisit, weight, [startDraw(cycle, a)], AntDraws(cityDraw, cycle, a), 0);
        assert tours[a] == walked;
      }
    }
    tours
  }

  /** The first k + 1 tours of a cycle are its first k tours and the walk
      of its k-th ant. */
  lemma CycleToursPrefix(pheromones: seq<seq<real>>, distances: seq<seq<int>>, n: nat, canRevisit: bool,
                         weight: Weight, ants: nat, startDraw: (nat, nat) -> nat, cityDraw: (nat, nat, nat) -> real,
                         cycle: nat, k: nat, tour: seq<nat>)
    requires IsMatrix(pheromones, n) && IsMatrix(distances, n)
    requires forall a :: startDraw(cycle, a) < n
    requires k < ants
    requires tour == Walk(pheromones, distances, n, canRevisit, weight, [startDraw(cycle, k)], AntDraws(cityDraw, cycle, k), 0)
    ensures CycleTours(pheromones, distances, n, canRevisit, weight, ants, startDraw, cityDraw, cycle)[..k + 1] ==
            CycleTours(pheromones, distances, n, canRevisit, weight, ants, startDraw, cityDraw, cycle)[..k] + [tour]
  {
    var planned := CycleTours(pheromones, distances, n, canRevisit, weight, ants, startDraw, cityDraw, cycle);
    assert planned[k] == tour;
  }

  /** The tours of the first k cycles of the colony started on the
      pheromone matrix `initial`: the ants of each cycle walk over the
      matrix the earlier cycles left behind. */
  function Run(initial: seq<seq<real>>, distances: seq<seq<int>>, rate: real, addition: real, canRevisit: bool,
               weight: Weight, ants: nat, startDraw: (nat, nat) -> nat, cityDraw: (nat, nat, nat) -> real,
               k: nat): (cycles: seq<seq<seq<nat>>>)
    requires IsMatrix(distances, |distances|) && IsMatrix(initial, |distances|)
    requires forall c, a :: startDraw(c, a) < |distances|
    ensures |cycles| == k && CyclesInRange(cycles, |distances|)
  {
    if k == 0 then []
    else
      var earlier := Run(initial, distances, rate, addition, canRevisit, weight, ants, startDraw, cityDraw, k - 1);
      var pheromones := Evolve(initial, earlier, distances, rate, addition);
      var cycle := CycleTours(pheromones, distances, |distances|, canRevisit, weight, ants, startDraw, cityDraw, k - 1);
      assert forall c :: 0 <= c < k - 1 ==> (earlier + [cycle])[c] == earlier[c];
      earlier + [cycle]
  }

  /** Appending the tours of the next cycle keeps every ant's tour a tour
      that starts at its drawn city. */
  lemma AppendCycle(cycles: seq<seq<seq<nat>>>, cycleTours: seq<seq<nat>>, n: nat, startDraw: (nat, nat) -> nat)
    requires n >= 1
    requires forall c, a :: 0 <= c < |cycles| && 0 <= a < |cycles[c]| ==>
      IsTour(cycles[c][a], n) && cycles[c][a][0] == startDraw(c, a)
    requires forall a :: 0 <= a < |cycleTours| ==> IsTour(cycleTours[a], n) && cycleTours[a][0] == startDraw(|cycles|, a)
    ensures forall c, a :: 0 <= c < |cycles + [cycleTours]| && 0 <= a < |(cycles + [cycleTours])[c]| ==>
      IsTour((cycles + [cycleTours])[c][a], n) && (cycles + [cycleTours])[c][a][0] == startDraw(c, a)
  {
    forall c, a | 0 <= c < |cycles + [cycleTours]| && 0 <= a < |(cycles + [cycleTours])[c]|
      ensures IsTour((cycles + [cycleTours])[c][a], n) && (cycles + [cycleTours])[c][a][0] == startDraw(c, a)
    {
      if c < |cycles| {
        assert (cycles + [cycleTours])[c] == cycles[c];
      }
    }
  }

  /** Where the colony stands after `cycles`, the tours of all of them
      being `tours`: every cycle released `ants` ants, each completing a tour
      from its drawn city; the shortest length and its route are those of
      all tours; and the pheromone matrix is the initial one after one
      update per cycle, each with that cycle's whole delta, and positive. */
  ghost predicate ColonyProgress(initial: seq<seq<real>>, pheromones: seq<seq<real>>, distances: seq<seq<int>>,
                                 n: nat, rate: real, addition: real, ants: nat, startDraw: (nat, nat) -> nat,
                                 cycles: seq<seq<seq<nat>>>, tours: seq<seq<nat>>, minDistance: Bound, route: seq<nat>)
  {
    n == |distances| >= 1 && IsMatrix(distances, n) && IsMatrix(initial, n) &&
    (forall c, a :: startDraw(c, a) < n) &&
    (forall c :: 0 <= c < |cycles| ==> |cycles[c]| == ants) &&
    (forall c, a :: 0 <= c < |cycles| && 0 <= a < |cycles[c]| ==>
       IsTour(cycles[c][a], n) && cycles[c][a][0] == startDraw(c, a)) &&
    CyclesInRange(cycles, n) && tours == Flatten(cycles) && AllInRange(tours, n) &&
    minDistance == MinLength(tours, distances) && route == BestRoute(tours, distances) &&
    pheromones == Evolve(initial, cycles, distances, rate, addition) && Positive(pheromones)
  }

  /** Gathers the colony's invariant from its parts. */
  lemma ColonyProgressIntro(initial: seq<seq<real>>, pheromones: seq<seq<real>>, distances: seq<seq<int>>, n: nat,
                            rate: real, addition: real, ants: nat, startDraw: (nat, nat) -> nat,
                            cycles: seq<seq<seq<nat>>>, tours: seq<seq<nat>>, minDistance: Bound, route: seq<nat>)
    requires n == |distances| >= 1 && IsMatrix(distances, n) && IsMatrix(initial, n)
    requires forall c, a :: startDraw(c, a) < n
    requires forall c :: 0 <= c < |cycles| ==> |cycles[c]| == ants
    requires forall c, a :: 0 <= c < |cycles| && 0 <= a < |cycles[c]| ==>
      IsTour(cycles[c][a], n) && cycles[c][a][0] == startDraw(c, a)
    requires CyclesInRange(cycles, n) && tours == Flatten(cycles) && AllInRange(tours, n)
    requires minDistance == MinLength(tours, distances) && route == BestRoute(tours, distances)
    requires pheromones == Evolve(initial, cycles, distances, rate, addition) && Positive(pheromones)
    ensures ColonyProgress(initial, pheromones, distances, n, rate, addition, ants,
                           startDraw, cycles, tours, minDistance, route)
  {
  }

  /** One more cycle keeps the colony's invariant: its tours, walked over
      the current pheromone matrix, make the next cycle of the `Run`, they join the
      earlier ones, the shortest length and its route follow them, and the
      pheromone matrix gets one more update with the cycle's whole delta. */
  lemma ColonyStep(initial: seq<seq<real>>, pheromones: seq<seq<real>>, distances: seq<seq<int>>, n: nat,
                   rate: real, addition: real, canRevisit: bool, weight: Weight, ants: nat,
                   startDraw: (nat, nat) -> nat, cityDraw: (nat, nat, nat) -> real,
                   cycles: seq<seq<seq<nat>>>, tours: seq<seq<nat>>, minDistance: Bound, route: seq<nat>,
                   cycleTours: seq<seq<nat>>, newPheromones: seq<seq<real>>, newMinDistance: Bound, newRoute: seq<nat>)
    requires ValidDistances(distances, n) && Positive(initial)
    requires 0.0 <= rate < 1.0 && addition >= 0.0
    requires ColonyProgress(initial, pheromones, distances, n, rate, addition, ants,
                            startDraw, cycles, tours, minDistance, route)
    requires cycles == Run(initial, distances, rate, addition, canRevisit, weight, ants, startDraw, cityDraw, |cycles|)
    requires cycleTours == CycleTours(pheromones, distances, n, canRevisit, weight, ants, startDraw, cityDraw, |cycles|)
    requires |cycleTours| == ants
    requires forall a :: 0 <= a < |cycleTours| ==> IsTour(cycleTours[a], n) && cycleTours[a][0] == startDraw(|cycles|, a)
    requires AllInRange(cycleTours, n) && AllInRange(tours + cycleTours, n)
    requires newMinDistance == MinLength(tours + cycleTours, distances)
    requires newRoute == BestRoute(tours + cycleTours, distances)
    requires newPheromones == Evaporated(pheromones, rate, CycleDelta(cycleTours, distances, addition))
    ensures cycles + [cycleTours] ==
      Run(initial, distances, rate, addition, canRevisit, weight, ants, startDraw, cityDraw, |cycles| + 1)
    ensures forall c :: 0 <= c < |cycles + [cycleTours]| ==> |(cycles + [cycleTours])[c]| == ants
    ensures forall c, a :: 0 <= c < |cycles + [cycleTours]| && 0 <= a < |(cycles + [cycleTours])[c]| ==>
      IsTour((cycles + [cycleTours])[c][a], n) && (cycles + [cycleTours])[c][a][0] == startDraw(c, a)
    ensures CyclesInRange(cycles + [cycleTours], n) && tours + cycleTours == Flatten(cycles + [cycleTours])
    ensures newPheromones == Evolve(initial, cycles + [cycleTours], distances, rate, addition)
    ensures Positive(newPheromones)
    ensures ColonyProgress(initial, newPheromones, distances, n, rate, addition, ants,
                           startDraw, cycles + [cycleTours], tours + cycleTours, newMinDistance, newRoute)
  {
    AppendCycle(cycles, cycleTours, n, startDraw);
    forall c | 0 <= c < |cycles + [cycleTours]|
      ensures |(cycles + [cycleTours])[c]| == ants
    {
      if c < |cycles| {
        assert (cycles + [cycleTours])[c] == cycles[c];
      }
    }
    EvolveStep(initial, cycles, cycleTours, distances, rate, addition);
    PheromonesStayPositive(initial, cycles + [cycleTours], distances, rate, addition);
    ColonyProgressIntro(initial, newPheromones, distances, n, rate, addition, ants,
                        startDraw, cycles + [cycleTours], tours + cycleTours, newMinDistance, newRoute);
  }

  /** What the colony's invariant gives once at least one cycle of at least one ant has run. */
  lemma ColonyFinish(initial: seq<seq<real>>, pheromones: seq<seq<real>>, distances: seq<seq<int>>, n: nat,
                     rate: real, addition: real, ants: nat, startDraw: (nat, nat) -> nat,
                     cycles: seq<seq<seq<nat>>>, tours: seq<seq<nat>>, minDistance: Bound, route: seq<nat>)
    requires ColonyProgress(initial, pheromones, distances, n, rate, addition, ants,
                            startDraw, cycles, tours, minDistance, route)
    requires |cycles| >= 1 && ants >= 1
    ensures forall c :: 0 <= c < |cycles| ==> |cycles[c]| == ants
    ensures forall c, a :: 0 <= c < |cycles| && 0 <= a < |cycles[c]| ==>
      IsTour(cycles[c][a], n) && cycles[c][a][0] == startDraw(c, a)
    ensures CyclesInRange(cycles, |distances|)
    ensures tours == Flatten(cycles) && AllInRange(tours, |distances|)
    ensures forall k :: 0 <= k < |tours| ==> IsTour(tours[k], n)
    ensures minDistance == MinLength(tours, distances)
    ensures minDistance.Finite?
    ensures forall k :: 0 <= k < |tours| ==> minDistance.value <= TourLength(tours[k], distances)
    ensures exists k :: 0 <= k < |tours| && TourLength(tours[k], distances) == minDistance.value
    ensures route == BestRoute(tours, distances)
    ensures pheromones == Evolve(initial, cycles, distances, rate, addition) && Positive(pheromones)
  {
    FlattenKeepsTours(cycles, n);
    MinLengthIsMinimum(tours, distances);
  }


  /** Where a cycle stands after the ants that completed `cycleTours`,
      the tours of the earlier cycles being `seen`: the a-th tour is a tour
      from startDraw(cycle, a), `delta` holds the deposits of the cycle's
      tours, and the shortest length and its route are those of all tours
      so far. */
  ghost predicate CycleProgress(distances: seq<seq<int>>, n: nat, addition: real, startDraw: (nat, nat) -> nat,
                                cycle: nat, seen: seq<seq<nat>>, cycleTours: seq<seq<nat>>,
                                delta: seq<seq<real>>, minDistance: Bound, route: seq<nat>)
  {
    IsMatrix(distances, n) &&
    (forall a :: 0 <= a < |cycleTours| ==>
       IsTour(cycleTours[a], n) && |cycleTours[a]| > 0 && cycleTours[a][0] == startDraw(cycle, a)) &&
    AllInRange(cycleTours, n) && AllInRange(seen + cycleTours, n) &&
    IsMatrix(delta, n) &&
    (forall i, j :: 0 <= i < n && 0 <= j < n ==> delta[i][j] == Deposited(cycleTours, distances, addition, i, j)) &&
    minDistance == MinLength(seen + cycleTours, distances) &&
    route == BestRoute(seen + cycleTours, distances)
  }

  /** A cycle starts with no tours, a zero delta and the best result of
      the earlier cycles. */
  lemma CycleStart(distances: seq<seq<int>>, n: nat, addition: real, startDraw: (nat, nat) -> nat,
                   cycle: nat, seen: seq<seq<nat>>)
    requires IsMatrix(distances, n) && n == |distances| && AllInRange(seen, n)
    ensures CycleProgress(distances, n, addition, startDraw, cycle, seen, [], Zeros(n),
                          MinLength(seen, distances), BestRoute(seen, distances))
  {
    assert seen + [] == seen;
  }

  /** One more ant keeps the progress of the cycle: its tour from
      startDraw(cycle, a) joins the cycle's tours, its deposit joins the
      delta, and the shortest length and its route move to it exactly on a
      strict improvement. */
  lemma CycleStep(distances: seq<seq<int>>, n: nat, addition: real, startDraw: (nat, nat) -> nat,
                  cycle: nat, seen: seq<seq<nat>>, cycleTours: seq<seq<nat>>,
                  delta: seq<seq<real>>, minDistance: Bound, route: seq<nat>,
                  tour: seq<nat>, newDelta: seq<seq<real>>, newMinDistance: Bound, newRoute: seq<nat>)
    requires n == |distances|
    requires CycleProgress(distances, n, addition, startDraw, cycle, seen, cycleTours, delta, minDistance, route)
    requires IsTour(tour, n) && |tour| > 0 && tour[0] == startDraw(cycle, |cycleTours|)
    requires var length := TourLength(tour, distances);
      newMinDistance == (if Improves(length, minDistance) then Finite(length) else minDistance) &&
      newRoute == (if Improves(length, minDistance) then tour else route)
    requires IsMatrix(newDelta, n)
    requires forall i, j :: 0 <= i < n && 0 <= j < n ==>
      newDelta[i][j] == delta[i][j] + TourDeposit(tour, Share(addition, TourLength(tour, distances)), i, j)
    ensures forall a :: 0 <= a < |cycleTours + [tour]| ==>
      IsTour((cycleTours + [tour])[a], n) && |(cycleTours + [tour])[a]| > 0 &&
      (cycleTours + [tour])[a][0] == startDraw(cycle, a)
    ensures AllInRange(cycleTours + [tour], n) && AllInRange(seen + (cycleTours + [tour]), n)
    ensures forall i, j :: 0 <= i < n && 0 <= j < n ==>
      newDelta[i][j] == Deposited(cycleTours + [tour], distances, addition, i, j)
    ensures newMinDistance == MinLength(seen + (cycleTours + [tour]), distances)
    ensures newRoute == BestRoute(seen + (cycleTours + [tour]), distances)
  {
    AppendTour(n, startDraw, cycle, seen, cycleTours, tour);
    DeltaStep(distances, n, addition, cycleTours, delta, tour, newDelta);
    BestStep(distances, seen, cycleTours, minDistance, route, tour, newMinDistance, newRoute);
  }

  /** The delta after one more ant is the deposit of the cycle's tours so far and that ant's tour. */
  lemma DeltaStep(distances: seq<seq<int>>, n: nat, addition: real, cycleTours: seq<seq<nat>>,
                  delta: seq<seq<real>>, tour: seq<nat>, newDelta: seq<seq<real>>)
    requires n == |distances| && IsMatrix(distances, n) && AllInRange(cycleTours, n) && InRange(tour, n)
    requires IsMatrix(delta, n) && IsMatrix(newDelta, n)
    requires forall i, j :: 0 <= i < n && 0 <= j < n ==> delta[i][j] == Deposited(cycleTours, distances, addition, i, j)
    requires forall i, j :: 0 <= i < n && 0 <= j < n ==>
      newDelta[i][j] == delta[i][j] + TourDeposit(tour, Share(addition, TourLength(tour, distances)), i, j)
    ensures forall i, j :: 0 <= i < n && 0 <= j < n ==>
      newDelta[i][j] == Deposited(cycleTours + [tour], distances, addition, i, j)
  {
    DepositStep(cycleTours, tour, distances, addition);
  }

  /** The minimum and its route after one more ant are those of all tours so far and that ant's tour. */
  lemma BestStep(distances: seq<seq<int>>, seen: seq<seq<nat>>, cycleTours: seq<seq<nat>>,
                 minDistance: Bound, route: seq<nat>, tour: seq<nat>, newMinDistance: Bound, newRoute: seq<nat>)
    requires IsMatrix(distances, |distances|) && AllInRange(seen + cycleTours, |distances|)
    requires InRange(tour, |distances|) && AllInRange(seen + (cycleTours + [tour]), |distances|)
    requires minDistance == MinLength(seen + cycleTours, distances)
    requires route == BestRoute(seen + cycleTours, distances)
    requires var length := TourLength(tour, distances);
      newMinDistance == (if Improves(length, minDistance) then Finite(length) else minDistance) &&
      newRoute == (if Improves(length, minDistance) then tour else route)
    ensures newMinDistance == MinLength(seen + (cycleTours + [tour]), distances)
    ensures newRoute == BestRoute(seen + (cycleTours + [tour]), distances)
  {
    var allTours := seen + cycleTours;
    assert allTours + [tour] == seen + (cycleTours + [tour]);
    RecordTour(allTours, tour, distances);
  }

  /** A tour from startDraw(cycle, a) appended as the a-th tour of the
      cycle keeps every tour of the cycle starting at its drawn city. */
  lemma AppendTour(n: nat, startDraw: (nat, nat) -> nat, cycle: nat, seen: seq<seq<nat>>,
                   cycleTours: seq<seq<nat>>, tour: seq<nat>)
    requires forall a :: 0 <= a < |cycleTours| ==>
      IsTour(cycleTours[a], n) && |cycleTours[a]| > 0 && cycleTours[a][0] == startDraw(cycle, a)
    requires IsTour(tour, n) && |tour| > 0 && tour[0] == startDraw(cycle, |cycleTours|)
    requires AllInRange(seen + cycleTours, n)
    ensures forall a :: 0 <= a < |cycleTours + [tour]| ==>
      IsTour((cycleTours + [tour])[a], n) && |(cycleTours + [tour])[a]| > 0 &&
      (cycleTours + [tour])[a][0] == startDraw(cycle, a)
    ensures AllInRange(cycleTours + [tour], n) && AllInRange(seen + (cycleTours + [tour]), n)
  {
    forall a | 0 <= a < |cycleTours| + 1
      ensures IsTour((cycleTours + [tour])[a], n) && |(cycleTours + [tour])[a]| > 0
      ensures (cycleTours + [tour])[a][0] == startDraw(cycle, a)
    {
      if a < |cycleTours| {
        assert (cycleTours + [tour])[a] == cycleTours[a];
      }
    }
    assert seen + cycleTours + [tour] == seen + (cycleTours + [tour]);
  }

  class Colony {
    /** Number of cycles; one batch of ants and one pheromone update each. */
    const maxColonyCycles: nat := 50
    /** Number of ants released per cycle. */
    const numberOfAnts: nat := 500
    /** Pheromone an ant spreads over its tour, divided by the tour length. */
    const pheromoneAddition: real := 0.0005
    /** Fraction of pheromone that evaporates at each update. */
    const pheromoneEvaporationRate: real := 0.2
    /** Whether an ant may move to a city it has already visited. */
    const antCanVisitPreviousCities: bool := false

    /** The unnormalised weights `ant` gives the cities of `cityMap`. */
    function CityWeights(ant: Ant, cityMap: CityMap, weight: Weight): seq<real>
      reads ant, cityMap
      requires cityMap.Valid() && ant.currentCity < cityMap.numberOfCities
    {
      Weights(cityMap.pheromones, cityMap.distances, cityMap.numberOfCities,
              ant.currentCity, ant.visitedCities, antCanVisitPreviousCities, weight)
    }

    /** The probabilities of moving to each city: the weights divided by
        their total. */
    function Probabilities(ant: Ant, cityMap: CityMap, weight: Weight): seq<real>
      reads ant, cityMap
      requires cityMap.Valid() && ant.currentCity < cityMap.numberOfCities
      requires Sum(CityWeights(ant, cityMap, weight)) != 0.0
    {
      Scaled(CityWeights(ant, cityMap, weight), Sum(CityWeights(ant, cityMap, weight)))
    }

    /** Computes the probability of moving to each city: the weight of
        every eligible city over the total weight, 0 for the others
        (`WeightsNormalised` states the resulting distribution). A zero
        total is a failure. */
    method GetProbabilities(ant: Ant, cityMap: CityMap, weight: Weight) returns (result: Result<seq<real>>)
      requires cityMap.Valid() && ant.currentCity < cityMap.numberOfCities
      ensures result.Failure? <==> Sum(CityWeights(ant, cityMap, weight)) == 0.0
      ensures result.Success? ==> result.value == Probabilities(ant, cityMap, weight)
    {
      var n := cityMap.numberOfCities;
      ghost var ws := Weights(cityMap.pheromones, cityMap.distances, n, ant.currentCity, ant.visitedCities,
                              antCanVisitPreviousCities, weight);
      assert ws == CityWeights(ant, cityMap, weight);
      var probabilities := seq(n, i => 0.0);
      var totalProbability := 0.0;
      for newCity := 0 to n
        invariant |probabilities| == n
        invariant forall c :: 0 <= c < newCity ==> probabilities[c] == ws[c]
        invariant forall c :: newCity <= c < n ==> probabilities[c] == 0.0
        invariant totalProbability == Sum(ws[..newCity])
      {
        if newCity != ant.currentCity && (antCanVisitPreviousCities || newCity !in ant.visitedCities) {
          var probability := weight(cityMap.pheromones[ant.currentCity][newCity],
                                    cityMap.distances[ant.currentCity][newCity]);
          probabilities := probabilities[newCity := probability];
          totalProbability := totalProbability + probability;
        }
        assert ws[newCity] == if Eligible(newCity, ant.currentCity, ant.visitedCities, antCanVisitPreviousCities)
                              then weight(cityMap.pheromones[ant.currentCity][newCity], cityMap.distances[ant.currentCity][newCity])
                              else 0.0;
        assert ws[..newCity + 1][..newCity] == ws[..newCity];
      }
      assert probabilities == ws;
      assert ws[..n] == ws;
      if totalProbability == 0.0 {
        return Failure(DegenerateSelection);
      }
      result := Success(Scaled(probabilities, totalProbability));
    }

    /** Roulette-wheel choice of the next city for the draw `randomValue`:
        the probabilities of GetProbabilities spun by `Spin`. A zero total
        weight is a failure. */
    method GetNextCity(ant: Ant, cityMap: CityMap, weight: Weight, randomValue: real) returns (next: Result<int>)
      requires cityMap.Valid() && ant.currentCity < cityMap.numberOfCities
      requires 0.0 <= randomValue
      ensures next.Failure? <==> Sum(CityWeights(ant, cityMap, weight)) == 0.0
      ensures next.Success? ==> RouletteChoice(Probabilities(ant, cityMap, weight), randomValue, next.value)
      ensures next.Success? ==> next.value == Choice(Probabilities(ant, cityMap, weight), randomValue)
    {
      var probabilities := GetProbabilities(ant, cityMap, weight);
      if probabilities.Failure? {
        return Failure(probabilities.error);
      }
      var city := Spin(probabilities.value, randomValue);
      return Success(city);
    }

    /** Subtracts the probabilities from the draw in city order and returns
        the first city whose probability exceeds what is left, or -1 when
        none does: the roulette-wheel answer. */
    method Spin(p: seq<real>, randomValue: real) returns (city: int)
      requires 0.0 <= randomValue
      ensures RouletteChoice(p, randomValue, city)
      ensures city == Choice(p, randomValue)
    {
      var remaining := randomValue;
      for i := 0 to |p|
        invariant FirstAbove(p, remaining, i) == Choice(p, randomValue)
        invariant remaining == randomValue - Sum(p[..i])
        invariant remaining >= 0.0
        invariant forall k :: 0 < k <= i ==> Sum(p[..k]) <= randomValue
      {
        assert p[..i + 1][..i] == p[..i];
        if p[i] > remaining {
          return i;
        }
        remaining := remaining - p[i];
      }
      assert p[..|p|] == p;
      return -1;
    }

    /** GetNextCity for an ant standing on its last visited city that has
        not yet visited every city, and a draw below 1: some city is still
        eligible, so the total weight is positive and the roulette-wheel
        answer is an eligible city, never -1. */
    method ChooseNextCity(ant: Ant, cityMap: CityMap, weight: Weight, randomValue: real) returns (nextCity: nat)
      requires cityMap.Valid() && Positive(cityMap.pheromones)
      requires ValidDistances(cityMap.distances, cityMap.numberOfCities) && PositiveOnEdges(weight)
      requires 0.0 <= randomValue < 1.0
      requires ant.AtLastVisited() && Distinct(ant.visitedCities) && InRange(ant.visitedCities, cityMap.numberOfCities)
      requires |ant.visitedCities| < cityMap.numberOfCities
      ensures nextCity < cityMap.numberOfCities
      ensures Eligible(nextCity, ant.currentCity, ant.visitedCities, antCanVisitPreviousCities)
      ensures Sum(CityWeights(ant, cityMap, weight)) != 0.0
      ensures RouletteChoice(Probabilities(ant, cityMap, weight), randomValue, nextCity)
      ensures nextCity == Choice(Probabilities(ant, cityMap, weight), randomValue)
    {
      var n := cityMap.numberOfCities;
      MissingCity(ant.visitedCities, n);
      ghost var unvisited :| 0 <= unvisited < n && unvisited !in ant.visitedCities;
      CandidateIffPositiveTotal(cityMap.pheromones, cityMap.distances, n, ant.currentCity,
                                ant.visitedCities, antCanVisitPreviousCities, weight);
      assert Eligible(unvisited, ant.currentCity, ant.visitedCities, antCanVisitPreviousCities);
      var next := GetNextCity(ant, cityMap, weight, randomValue);
      WeightsNormalised(cityMap.pheromones, cityMap.distances, n, ant.currentCity,
                        ant.visitedCities, antCanVisitPreviousCities, weight);
      RouletteChoiceFound(Probabilities(ant, cityMap, weight), randomValue, next.value);
      RouletteChoicePositive(Probabilities(ant, cityMap, weight), randomValue, next.value);
      nextCity := next.value;
    }

    /** One move of an ant that has not yet visited every city: it takes
        the roulette-wheel city for the draw draws(step) and walks the edge
        to it. Its route grows by that city, so the `Walk` of the remaining
        draws is unchanged; the route stays free of duplicates and the
        walked distance stays the path length of the route. */
    method MoveOn(ant: Ant, cityMap: CityMap, weight: Weight, draws: nat -> real, step: nat)
      requires cityMap.Valid() && Positive(cityMap.pheromones)
      requires ValidDistances(cityMap.distances, cityMap.numberOfCities) && PositiveOnEdges(weight)
      requires 0.0 <= draws(step) < 1.0
      requires ant.AtLastVisited() && Distinct(ant.visitedCities)
      requires InRange(ant.visitedCities, cityMap.numberOfCities) && |ant.visitedCities| < cityMap.numberOfCities
      requires ant.distance == PathLength(ant.visitedCities, cityMap.distances)
      modifies ant
      ensures ant.AtLastVisited() && Distinct(ant.visitedCities) && InRange(ant.visitedCities, cityMap.numberOfCities)
      ensures |ant.visitedCities| == |old(ant.visitedCities)| + 1
      ensures ant.visitedCities[..|old(ant.visitedCities)|] == old(ant.visitedCities)
      ensures ant.startingCity == old(ant.startingCity)
      ensures ant.distance == PathLength(ant.visitedCities, cityMap.distances)
      ensures Walk(cityMap.pheromones, cityMap.distances, cityMap.numberOfCities, antCanVisitPreviousCities, weight,
                   ant.visitedCities, draws, step + 1) ==
              Walk(cityMap.pheromones, cityMap.distances, cityMap.numberOfCities, antCanVisitPreviousCities, weight,
                   old(ant.visitedCities), draws, step)
    {
      var nextCity := ChooseNextCity(ant, cityMap, weight, draws(step));
      ghost var before := ant.visitedCities;
      var edge := cityMap.distances[ant.currentCity][nextCity];
      WalkStep(cityMap.pheromones, cityMap.distances, cityMap.numberOfCities, antCanVisitPreviousCities, weight,
               before, ant.currentCity, nextCity, draws, step);
      AppendCity(before, nextCity, cityMap.distances);
      assert PathLength(before + [nextCity], cityMap.distances) == ant.distance + edge;
      ant.Move(nextCity, edge);
      assert ant.visitedCities[..|before|] == before;
    }

    /** Moves `ant` on until it has visited every city, taking the draw for
        its k-th move from draws(k): the route it ends with is the `Walk` of
        those draws from its route at the start. The route stays free of
        duplicates and ends as a tour; the walked distance is the path
        length of the route. */
    method CompleteTour(ant: Ant, cityMap: CityMap, weight: Weight, draws: nat -> real)
      requires cityMap.Valid() && Positive(cityMap.pheromones)
      requires ValidDistances(cityMap.distances, cityMap.numberOfCities) && PositiveOnEdges(weight)
      requires forall step :: 0.0 <= draws(step) < 1.0
      requires ant.AtLastVisited() && Distinct(ant.visitedCities)
      requires InRange(ant.visitedCities, cityMap.numberOfCities)
      requires ant.distance == PathLength(ant.visitedCities, cityMap.distances)
      modifies ant
      ensures ant.AtLastVisited() && IsTour(ant.visitedCities, cityMap.numberOfCities)
      ensures |old(ant.visitedCities)| <= |ant.visitedCities|
      ensures ant.visitedCities[..|old(ant.visitedCities)|] == old(ant.visitedCities)
      ensures ant.startingCity == old(ant.startingCity)
      ensures ant.distance == PathLength(ant.visitedCities, cityMap.distances)
      ensures ant.visitedCities == Walk(cityMap.pheromones, cityMap.distances, cityMap.numberOfCities,
                                        antCanVisitPreviousCities, weight, old(ant.visitedCities), draws, 0)
    {
      var n := cityMap.numberOfCities;
      var step := 0;
      while |ant.visitedCities| < n
        invariant ant.AtLastVisited() && Distinct(ant.visitedCities) && InRange(ant.visitedCities, n)
        invariant |old(ant.visitedCities)| <= |ant.visitedCities|
        invariant ant.visitedCities[..|old(ant.visitedCities)|] == old(ant.visitedCities)
        invariant ant.startingCity == old(ant.startingCity)
        invariant ant.distance == PathLength(ant.visitedCities, cityMap.distances)
        invariant Walk(cityMap.pheromones, cityMap.distances, n, antCanVisitPreviousCities, weight,
                       ant.visitedCities, draws, step) ==
                  Walk(cityMap.pheromones, cityMap.distances, n, antCanVisitPreviousCities, weight,
                       old(ant.visitedCities), draws, 0)
        decreases n - |ant.visitedCities|
      {
        ghost var before := ant.visitedCities;
        MoveOn(ant, cityMap, weight, draws, step);
        assert ant.visitedCities[..|old(ant.visitedCities)|] == before[..|old(ant.visitedCities)|];
        step := step + 1;
      }
      DistinctBound(ant.visitedCities, n);
    }

    /** One ant of a cycle: starts at `startingCity`, completes its tour,
        the `Walk` of its draws, and measures it, closing edge included. */
    method ReleaseAnt(cityMap: CityMap, weight: Weight, startingCity: nat, draws: nat -> real)
      returns (visitedCities: seq<nat>, antDistance: int)
      requires cityMap.Valid() && Positive(cityMap.pheromones)
      requires ValidDistances(cityMap.distances, cityMap.numberOfCities) && PositiveOnEdges(weight)
      requires forall step :: 0.0 <= draws(step) < 1.0
      requires startingCity < cityMap.numberOfCities
      ensures IsTour(visitedCities, cityMap.numberOfCities) && visitedCities[0] == startingCity
      ensures InRange(visitedCities, |cityMap.distances|)
      ensures antDistance == TourLength(visitedCities, cityMap.distances)
      ensures visitedCities == Walk(cityMap.pheromones, cityMap.distances, cityMap.numberOfCities,
                                    antCanVisitPreviousCities, weight, [startingCity], draws, 0)
    {
      var ant := new Ant(startingCity);
      CompleteTour(ant, cityMap, weight, draws);
      antDistance := ant.distance + cityMap.distances[ant.currentCity][ant.startingCity];
      visitedCities := ant.visitedCities;
    }

    /** Adds pheromoneAddition / antDistance to the delta of every edge
        between consecutive cities of `visitedCities`, once per traversal
        (`TourDepositIsShareTimesUses`); the closing edge back to the start
        gets nothing. */
    method DepositTour(pheromonesDelta: seq<seq<real>>, visitedCities: seq<nat>, antDistance: int, n: nat)
      returns (delta: seq<seq<real>>)
      requires IsMatrix(pheromonesDelta, n) && InRange(visitedCities, n) && |visitedCities| >= 1
      requires |visitedCities| >= 2 ==> antDistance != 0
      ensures IsMatrix(delta, n)
      ensures forall i, j :: 0 <= i < n && 0 <= j < n ==>
        delta[i][j] == pheromonesDelta[i][j] + TourDeposit(visitedCities, Share(pheromoneAddition, antDistance), i, j)
    {
      ghost var share := Share(pheromoneAddition, antDistance);
      delta := pheromonesDelta;
      assert forall i, j :: TourDeposit(visitedCities[..1], share, i, j) == 0.0;
      for city := 0 to |visitedCities| - 1
        invariant IsMatrix(delta, n)
        invariant forall i, j :: 0 <= i < n && 0 <= j < n ==>
          delta[i][j] == pheromonesDelta[i][j] + TourDeposit(visitedCities[..city + 1], share, i, j)
      {
        var here, there := visitedCities[city], visitedCities[city + 1];
        ghost var walked := visitedCities[..city + 2];
        assert walked[..city + 1] == visitedCities[..city + 1];
        assert walked[city] == here && walked[city + 1] == there;
        delta := delta[here := delta[here][there := delta[here][there] + pheromoneAddition / antDistance as real]];
      }
      assert visitedCities[..|visitedCities|] == visitedCities;
    }

    /** One ant: released at `startingCity`, it completes its tour, the
        `Walk` of its draws; the
        shortest length and its route move to that tour exactly on a strict
        improvement, and the delta of every edge grows by the tour's
        deposit on it. */
    method AddAnt(cityMap: CityMap, weight: Weight, startingCity: nat, draws: nat -> real,
                  pheromonesDelta: seq<seq<real>>, minDistance: Bound, route: seq<nat>)
      returns (newDelta: seq<seq<real>>, newMinDistance: Bound, newRoute: seq<nat>, ghost tour: seq<nat>)
      requires cityMap.Valid() && Positive(cityMap.pheromones)
      requires ValidDistances(cityMap.distances, cityMap.numberOfCities) && PositiveOnEdges(weight)
      requires forall step :: 0.0 <= draws(step) < 1.0
      requires startingCity < cityMap.numberOfCities
      requires IsMatrix(pheromonesDelta, cityMap.numberOfCities)
      ensures IsTour(tour, cityMap.numberOfCities) && tour[0] == startingCity
      ensures InRange(tour, |cityMap.distances|)
      ensures tour == Walk(cityMap.pheromones, cityMap.distances, cityMap.numberOfCities,
                           antCanVisitPreviousCities, weight, [startingCity], draws, 0)
      ensures var length := TourLength(tour, cityMap.distances);
        newMinDistance == (if Improves(length, minDistance) then Finite(length) else minDistance) &&
        newRoute == (if Improves(length, minDistance) then tour else route)
      ensures IsMatrix(newDelta, cityMap.numberOfCities)
      ensures forall i, j :: 0 <= i < cityMap.numberOfCities && 0 <= j < cityMap.numberOfCities ==>
        newDelta[i][j] == pheromonesDelta[i][j] +
          TourDeposit(tour, Share(pheromoneAddition, TourLength(tour, cityMap.distances)), i, j)
    {
      var visitedCities, antDistance := ReleaseAnt(cityMap, weight, startingCity, draws);
      tour := visitedCities;
      newMinDistance, newRoute := minDistance, route;
      if Improves(antDistance, minDistance) {
        newMinDistance := Finite(antDistance);
        newRoute := visitedCities;
      }
      if |visitedCities| >= 2 {
        TourLengthPositive(visitedCities, cityMap.distances);
      }
      newDelta := DepositTour(pheromonesDelta, visitedCities, antDistance, cityMap.numberOfCities);
    }

    /** One cycle's ants, the a-th starting at startDraw(cycle, a) and
        drawing cityDraw(cycle, a, k) for its k-th move: their tours are the
        `CycleTours` of the current pheromone matrix. The delta starts
        from zero and ends as the cycle's delta; the shortest length and
        its route follow the tours `seen` before and this cycle's tours. */
    method ReleaseAnts(cityMap: CityMap, weight: Weight, cycle: nat, startDraw: (nat, nat) -> nat,
                       cityDraw: (nat, nat, nat) -> real, ghost seen: seq<seq<nat>>,
                       minDistance: Bound, route: seq<nat>)
      returns (pheromonesDelta: seq<seq<real>>, newMinDistance: Bound, newRoute: seq<nat>,
               ghost cycleTours: seq<seq<nat>>)
      requires cityMap.Valid() && Positive(cityMap.pheromones)
      requires ValidDistances(cityMap.distances, cityMap.numberOfCities) && PositiveOnEdges(weight)
      requires forall a :: startDraw(cycle, a) < cityMap.numberOfCities
      requires forall a, step :: 0.0 <= cityDraw(cycle, a, step) < 1.0
      requires AllInRange(seen, |cityMap.distances|)
      requires minDistance == MinLength(seen, cityMap.distances)
      requires route == BestRoute(seen, cityMap.distances)
      ensures cycleTours == CycleTours(cityMap.pheromones, cityMap.distances, cityMap.numberOfCities,
                                       antCanVisitPreviousCities, weight, numberOfAnts, startDraw, cityDraw, cycle)
      ensures |cycleTours| == numberOfAnts
      ensures forall a :: 0 <= a < |cycleTours| ==>
        IsTour(cycleTours[a], cityMap.numberOfCities) && cycleTours[a][0] == startDraw(cycle, a)
      ensures AllInRange(cycleTours, |cityMap.distances|) && AllInRange(seen + cycleTours, |cityMap.distances|)
      ensures pheromonesDelta == CycleDelta(cycleTours, cityMap.distances, pheromoneAddition)
      ensures newMinDistance == MinLength(seen + cycleTours, cityMap.distances)
      ensures newRoute == BestRoute(seen + cycleTours, cityMap.distances)
    {
      var n := cityMap.numberOfCities;
      pheromonesDelta := Zeros(n);
      newMinDistance, newRoute := minDistance, route;
      cycleTours := [];
      CycleStart(cityMap.distances, n, pheromoneAddition, startDraw, cycle, seen);
      ghost var planned := CycleTours(cityMap.pheromones, cityMap.distances, n, antCanVisitPreviousCities, weight,
                                      numberOfAnts, startDraw, cityDraw, cycle);
      for antNumber := 0 to numberOfAnts
        invariant |cycleTours| == antNumber && cycleTours == planned[..antNumber]
        invariant CycleProgress(cityMap.distances, n, pheromoneAddition, startDraw, cycle, seen, cycleTours,
                                pheromonesDelta, newMinDistance, newRoute)
      {
        var newDelta, nextMin, nextRoute;
        ghost var tour;
        newDelta, nextMin, nextRoute, tour :=
          AddAnt(cityMap, weight, startDraw(cycle, antNumber), AntDraws(cityDraw, cycle, antNumber),
                 pheromonesDelta, newMinDistance, newRoute);
        CycleStep(cityMap.distances, n, pheromoneAddition, startDraw, cycle, seen, cycleTours,
                  pheromonesDelta, newMinDistance, newRoute, tour, newDelta, nextMin, nextRoute);
        pheromonesDelta, newMinDistance, newRoute := newDelta, nextMin, nextRoute;
        CycleToursPrefix(cityMap.pheromones, cityMap.distances, n, antCanVisitPreviousCities, weight,
                         numberOfAnts, startDraw, cityDraw, cycle, antNumber, tour);
        cycleTours := cycleTours + [tour];
      }
      assert planned[..numberOfAnts] == planned;
      CellwiseEqual(pheromonesDelta, CycleDelta(cycleTours, cityMap.distances, pheromoneAddition), n);
    }

    /** Runs the colony: every cycle releases numberOfAnts ants, the a-th
        starting at startDraw(cycle, a) and drawing cityDraw(cycle, a, k) for
        its k-th move, so the cycles' tours are those of the `Run`; it keeps the shortest closed tour length seen and
        applies one pheromone update with the cycle's whole delta at the end
        of the cycle. Returns that shortest length. */
    method FindRoute(cityMap: CityMap, weight: Weight, startDraw: (nat, nat) -> nat,
                     cityDraw: (nat, nat, nat) -> real)
      returns (minDistance: Bound, route: seq<nat>, ghost cycles: seq<seq<seq<nat>>>, ghost tours: seq<seq<nat>>)
      requires cityMap.Valid() && Positive(cityMap.pheromones) && cityMap.numberOfCities >= 1
      requires ValidDistances(cityMap.distances, cityMap.numberOfCities) && PositiveOnEdges(weight)
      requires forall cycle, a :: startDraw(cycle, a) < cityMap.numberOfCities
      requires forall cycle, a, step :: 0.0 <= cityDraw(cycle, a, step) < 1.0
      modifies cityMap
      ensures cityMap.Valid() && Positive(cityMap.pheromones)
      ensures cycles == Run(old(cityMap.pheromones), cityMap.distances, pheromoneEvaporationRate, pheromoneAddition,
                            antCanVisitPreviousCities, weight, numberOfAnts, startDraw, cityDraw, maxColonyCycles)
      ensures |cycles| == maxColonyCycles
      ensures forall c :: 0 <= c < |cycles| ==> |cycles[c]| == numberOfAnts
      ensures forall c, a :: 0 <= c < |cycles| && 0 <= a < |cycles[c]| ==>
        IsTour(cycles[c][a], cityMap.numberOfCities) && cycles[c][a][0] == startDraw(c, a)
      ensures CyclesInRange(cycles, |cityMap.distances|)
      ensures tours == Flatten(cycles) && AllInRange(tours, |cityMap.distances|)
      ensures forall k :: 0 <= k < |tours| ==> IsTour(tours[k], cityMap.numberOfCities)
      ensures minDistance == MinLength(tours, cityMap.distances)
      ensures minDistance.Finite?
      ensures forall k :: 0 <= k < |tours| ==> minDistance.value <= TourLength(tours[k], cityMap.distances)
      ensures exists k :: 0 <= k < |tours| && TourLength(tours[k], cityMap.distances) == minDistance.value
      ensures route == BestRoute(tours, cityMap.distances)
      ensures cityMap.pheromones ==
        Evolve(old(cityMap.pheromones), cycles, cityMap.distances, pheromoneEvaporationRate, pheromoneAddition)
    {
      ghost var initial := cityMap.pheromones;
      var n := cityMap.numberOfCities;
      minDistance := Infinity;
      route := [];
      cycles, tours := [], [];
      for cycle := 0 to maxColonyCycles
        invariant cityMap.Valid() && |cycles| == cycle
        invariant cycles == Run(initial, cityMap.distances, pheromoneEvaporationRate, pheromoneAddition,
                                antCanVisitPreviousCities, weight, numberOfAnts, startDraw, cityDraw, cycle)
        invariant ColonyProgress(initial, cityMap.pheromones, cityMap.distances, n, pheromoneEvaporationRate,
                                 pheromoneAddition, numberOfAnts, startDraw, cycles, tours, minDistance, route)
      {
        var pheromonesDelta, newMinDistance, newRoute;
        ghost var cycleTours;
        ghost var pheromones := cityMap.pheromones;
        pheromonesDelta, newMinDistance, newRoute, cycleTours :=
          ReleaseAnts(cityMap, weight, cycle, startDraw, cityDraw, tours, minDistance, route);
        cityMap.UpdatePheromones(pheromoneEvaporationRate, pheromonesDelta);
        ColonyStep(initial, pheromones, cityMap.distances, n, pheromoneEvaporationRate, pheromoneAddition,
                   antCanVisitPreviousCities, weight, numberOfAnts, startDraw, cityDraw, cycles, tours, minDistance, route,
                   cycleTours, cityMap.pheromones, newMinDistance, newRoute);
        minDistance, route := newMinDistance, newRoute;
        cycles := cycles + [cycleTours];
        tours := tours + cycleTours;
      }
      ColonyFinish(initial, cityMap.pheromones, cityMap.distances, n, pheromoneEvaporationRate, pheromoneAddition,
                   numberOfAnts, startDraw, cycles, tours, minDistance, route);
    }
  }
}
