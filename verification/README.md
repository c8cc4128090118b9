# Ant colony optimisation for the travelling salesman problem

This project models the ant colony search in `main.py` of aco-for-tsp. The
search looks for a short closed tour through every city of a distance matrix:

- A `CityMap` holds the distances and a pheromone level per directed edge.
- Each `Ant` builds one tour city by city, by roulette-wheel selection.
  Cities that are closer and have more pheromone are likelier to be chosen.
- A `Colony` runs 50 cycles of 500 ants each. Every ant deposits
  `pheromoneAddition / antDistance` on each consecutive pair of its route.
  The closing edge back to the start gets nothing, although `antDistance`
  counts it. After the cycle, every pheromone level evaporates by 20% and
  then receives the cycle's deposits.
- The colony keeps the shortest closed tour length seen, and the route that
  first reached it.

Modules, one per file:

| file | module | contents |
|---|---|---|
| `matrix.dfy` | `Matrices` | square matrices as sequences of rows |
| `tours.dfy` | `Tours` | routes and tours, path length and closed tour length, edge traversal counts, pigeonhole facts |
| `city_map.dfy` | `CityMaps` | class `CityMap` with the in-place pheromone update, and its specification `Evaporated` |
| `ant.dfy` | `Ants` | class `Ant` |
| `selection.dfy` | `Selection` | the weights and their normalisation into probabilities, and the roulette-wheel choice `RouletteChoice` |
| `deposits.dfy` | `Deposits` | the deposits of one tour and of one cycle (`CycleDelta`), and the pheromone matrix after a sequence of cycles (`Evolve`) |
| `best.dfy` | `BestResults` | the shortest length seen (`MinLength`) and its route (`BestRoute`) |
| `colony.dfy` | `Colonies` | class `Colony` with the source's constants and methods, and the invariant of one cycle |

The draws decide every route. `Selection.Choice` is the roulette-wheel answer
for one draw. `Selection.Walk` is the route an ant builds from its start and
its draws. `Colonies.CycleTours` is the list of one cycle's routes, computed
from the pheromones of that cycle. `Colonies.Run` is the list of all cycles'
routes, with the pheromones updated between cycles. The methods are proved
to produce exactly these. `Walk` also stops when the total weight is 0 or no
city is chosen. The preconditions of the methods rule both cases out.

The source's loops are kept as `while`/`for` loops with invariants. Each loop
is proved against the specification functions above, and the promised
properties are proved about those functions as lemmas. Some loop bodies of
`FindRoute` are separate methods:

- `CompleteTour`: lines 88-90.
- `ReleaseAnt`: lines 87-91.
- `DepositTour`: lines 95-96.
- `AddAnt`: one ant, lines 87-96.
- `ReleaseAnts`: one cycle's ants, lines 85-96.

How the model stands in for the source:

- Distances are unbounded integers (`int`). The source reads them as numpy
  64-bit integers, whose sums wrap around above 2^63 - 1. `Tours.TourFitsInInt64`
  gives the bound under which the two agree.
- Pheromones, weights and probabilities are exact reals.
- The edge weight `pow(pheromone, 0.01) * pow(1 / distance, 9.5)` is a
  parameter `weight`. The model only assumes it is positive for a positive
  pheromone level and a positive distance (`PositiveOnEdges`).
- The random draws are parameters:
  - `startDraw(cycle, ant)` is the starting city.
  - `cityDraw(cycle, ant, step)` is the value in [0, 1) drawn for a move.
- `float('inf')` is the `Infinity` case of `BestResults.Bound`.
- The division by a zero total weight becomes the error
  `Failure(DegenerateSelection)`.
- `FindRoute` also returns the route it keeps in a local variable. The ghost
  sequences of the cycles' tours are returned as well, so its contract can
  speak about them.

## Model

| member | source | states |
|---|---|---|
| Ants.Ant.constructor | main.py:40-47 | a new ant stands on its starting city, has visited only that city and has walked distance 0 |
| Ants.Ant.Move | main.py:49-56 | the ant moves to the new city, which is appended to its visited cities; the edge length is added to its distance; its starting city is unchanged |
| CityMaps.CityMap.constructor | main.py:12-19 | the map keeps the distance matrix and city count; the initial pheromone matrix is supplied by the caller |
| CityMaps.CityMap.UpdatePheromones | main.py:21-29 | every cell becomes `old * (1 - evaporationRate) + delta`, computed in place row by row; the matrix stays n by n |
| CityMaps.EvaporationKeepsPositive | main.py:26-29 | with a rate in [0, 1) and a non-negative delta, one update keeps every pheromone level strictly positive |
| Colonies.Colony.GetProbabilities | main.py:101-114 | fails exactly when the total weight is 0; otherwise returns the weights of the eligible cities divided by their total, with 0 for the current city and the visited cities |
| Selection.WeightsNormalised | main.py:106-113 | the probabilities have one entry per city and sum to 1; an eligible city gets weight / total; the current city and the visited cities get 0 |
| Selection.NormalisedSumsToOne | main.py:113 | dividing the weights by their non-zero total gives a sum of 1 |
| Selection.CandidateIffPositiveTotal | main.py:108-112 | with positive pheromones and valid distances the total weight is never negative, and it is positive exactly when some city is eligible |
| Colonies.Colony.GetNextCity | main.py:116-128 | fails exactly when the probabilities cannot be formed; otherwise spins them and returns the first city where the running sum of probabilities exceeds the draw, or -1 when no prefix sum exceeds it |
| Colonies.Colony.Spin | main.py:123-128 | subtracts the probabilities from the draw in city order; the answer is the first city whose prefix sum of probabilities exceeds the draw, or -1 when none does |
| Selection.RouletteChoiceUnique | main.py:123-128 | the roulette-wheel answer is determined by the probabilities and the draw |
| Selection.RouletteChoicePositive | main.py:123-125 | with a non-negative draw the chosen city has a positive probability, so it is eligible |
| Selection.RouletteChoiceFound | main.py:123-128 | -1 is returned only when the draw is at least the sum of all probabilities; with probabilities summing to 1 and a draw below 1 a city is always chosen |
| Colonies.Colony.ChooseNextCity | main.py:89 | for an ant that has not visited every city and a draw in [0, 1), the total weight is non-zero, and the next city is the roulette-wheel answer for the ant's probabilities and the draw; it is a real city that is neither the current one nor already visited |
| Colonies.Colony.MoveOn | main.py:88-90 | one move appends the chosen city to the ant's route, keeps it duplicate-free and within range, keeps the distance equal to the path length, and leaves the rest of the walk from the new route the same as from the old one |
| Selection.WalkStep | main.py:88-90 | when the total weight is non-zero, the walk from a route is the walk from that route extended by the roulette-wheel answer for the next draw |
| Selection.Walk | main.py:87-90 | the route an ant builds from its start and its draws stays within the cities |
| Tours.MissingCity | main.py:88-89 | a route with fewer than n distinct cities misses some city, so the ant always has an eligible city |
| Colonies.Colony.CompleteTour | main.py:88-90 | the ant keeps moving until it has visited every city; its route is the walk its draws determine from its earlier route, keeps that prefix and ends as a tour; the walked distance equals the path length of the route |
| Tours.AppendCity | main.py:90 | one move extends the path length by the edge from the last city to the new one, and keeps the route duplicate-free when the city is new |
| Tours.DistinctBound | main.py:88 | a duplicate-free route over n cities has at most n cities, and one with exactly n visits every city |
| Colonies.Colony.ReleaseAnt | main.py:87-91 | the ant's route is the walk its draws determine from the drawn city, and it is a tour starting there; `antDistance` is its closed tour length, the edge back to the start included |
| Tours.TourLengthPositive | main.py:91-96 | a tour through two or more distinct cities has a positive length, so `pheromoneAddition / antDistance` is defined |
| Tours.PathLengthNonNegative | main.py:90 | the walked distance is never negative |
| Tours.TwoCityTour | main.py:91 | with two cities every tour has length `d[0][1] + d[1][0]` |
| Tours.PathLengthAtMost | main.py:56 | a path of k cities over distances of at most `bound` is at most (k - 1) * bound long |
| Tours.TourFitsInInt64 | main.py:56 | when n times the largest distance is at most 2^63 - 1, every running `ant.distance` along a tour and the tour's `antDistance` lie in [0, 2^63 - 1], so the source's 64-bit sums do not wrap |
| Tours.TourBeyondInt64 | main.py:91 | three cities 4 * 10^18 apart have a closed tour longer than 2^63 - 1 |
| Colonies.Colony.DepositTour | main.py:95-96 | every edge between consecutive cities of the route gets `pheromoneAddition / antDistance` more delta per traversal, and no other cell changes |
| Deposits.TourDepositIsShareTimesUses | main.py:95-96 | a tour's deposit on an edge is its share times the number of times the route traverses that edge |
| Tours.EdgeUsedIff | main.py:95-96 | the traversal count of an edge is positive exactly when the edge is a consecutive pair of the route |
| Tours.ClosingEdgeUnused | main.py:95 | the closing edge, from the last city back to the first, is not a consecutive pair of a duplicate-free route |
| Deposits.ClosingEdgeGetsNoDeposit | main.py:91-96 | the closing edge of a tour receives no pheromone from that tour |
| Deposits.TourDepositNonNegative | main.py:96 | a non-negative share never makes a negative deposit |
| Deposits.DepositedNonNegative | main.py:96 | no edge ever receives a negative deposit in a cycle |
| Deposits.DepositStep | main.py:95-96 | one more ant adds its own deposit to every edge's cycle total |
| BestResults.RecordTour | main.py:92-94 | one more tour replaces the minimum and its route exactly when its length is strictly smaller |
| Colonies.Colony.AddAnt | main.py:86-96 | one ant completes the tour its draws determine from its drawn city; the minimum and the route move to it exactly on a strict improvement; its deposit is added to the delta |
| Colonies.CycleStart | main.py:85 | a cycle starts from a zero delta, with no tours and the best result of the earlier cycles |
| Colonies.AppendTour | main.py:87 | a tour from the drawn city, appended to the cycle's tours, keeps every tour starting at its drawn city and within range |
| Colonies.CycleStep | main.py:86-96 | one more ant keeps the invariant of the cycle: the delta is the deposit of the cycle's tours, and the minimum and its route are those of all tours so far |
| Colonies.DeltaStep | main.py:95-96 | after one more ant the delta is the deposit of the cycle's tours with that ant's tour appended |
| Colonies.BestStep | main.py:92-94 | after one more ant the minimum and its route are those of all tours so far with that ant's tour appended |
| Colonies.CycleTours | main.py:85-90 | one cycle's planned routes, one walk per ant from its drawn city, number `ants` and stay within the cities |
| Colonies.CycleToursPrefix | main.py:86-90 | the first k + 1 planned routes of a cycle are the first k followed by ant k's walk |
| Colonies.Colony.ReleaseAnts | main.py:85-96 | one cycle releases 500 ants; their tours are exactly the cycle's planned walks, each a tour from its drawn city; the delta starts from zero and ends as the cycle's delta; the minimum and its route follow the earlier tours and this cycle's tours in order |
| BestResults.MinLengthIsMinimum | main.py:81-99 | after at least one tour, minDistance is finite, no tour is shorter, and some tour has exactly that length |
| BestResults.MinLengthNeverIncreases | main.py:92-93 | minDistance never increases as more tours are seen |
| BestResults.BestRouteIsFirstMinimum | main.py:92-94 | the kept route is the first tour to reach the minimum length; every earlier tour is strictly longer |
| Colonies.Run | main.py:84-97 | the routes of k cycles, each cycle walked under the pheromones left by the earlier ones, form k cycles within the cities |
| Colonies.ColonyStep | main.py:84-97 | one more cycle keeps the colony's invariant: its 500 tours join the earlier ones, each from its drawn city, and the pheromone matrix gets exactly one more update, with that cycle's whole delta, and stays positive |
| Colonies.AppendCycle | main.py:84-87 | appending a cycle's tours keeps every ant's tour a tour from its drawn city |
| Deposits.FlattenKeepsTours | main.py:84-88 | when every cycle's tours are tours, so is every tour of all cycles taken together |
| Deposits.EvolveStep | main.py:84-97 | one more cycle applies exactly one pheromone update, with that cycle's whole delta |
| Deposits.PheromonesStayPositive | main.py:84-97 | with positive initial pheromones, an evaporation rate in [0, 1) and a non-negative addition, pheromones stay strictly positive over any number of cycles |
| Colonies.ColonyFinish | main.py:97-99 | once a cycle of at least one ant has run, the colony's invariant gives a finite minimum that no tour undercuts and some tour attains, and every tour of all cycles is a tour |
| Colonies.Colony.FindRoute | main.py:77-99 | runs 50 cycles of 500 ants; the cycles' routes are exactly those the draws determine under the evolving pheromones, every one a tour from its drawn start; returns the minimum closed tour length over all tours, which is finite and attained; the route is the first tour reaching it; the pheromones are the initial ones with one update per cycle |

## Left out

- Input and output (main.py:130-134): reading the matrix from standard input and printing the result. `numberOfCities` is a constructor parameter.
- Random numbers (main.py:19, 87, 122) are parameters. The initial pheromone matrix is supplied to `CityMap`'s constructor. The model needs it strictly positive, but `np.random.rand()` can return 0.0.
- `pow` and the constants `pheromoneImportance` (0.01) and `distanceImportance` (9.5) are not modelled. The weight is an arbitrary function that is positive on edges with a positive pheromone level and a positive length.
- Floating point: all arithmetic is exact. With floating-point rounding the probabilities may sum to slightly less than 1. `GetNextCity` can then return -1, and the source would move the ant to city -1, which is the last city under Python's negative indexing. Under exact reals `ChooseNextCity` proves that -1 cannot occur for a draw below 1. The model does not capture the floating-point path.
- Colonies.Colony.FindRoute: requires valid distances (non-negative, positive between distinct cities) and at least one city. A zero distance between two cities makes `1 / distance` divide by zero in the source.
- Colonies.Colony.FindRoute: `route = ant.visitedCities` in the source aliases the ant's list. No ant is moved after its tour is recorded, so the model copies the sequence.
- Ants.Ant.Move: `distance` is an unbounded integer. In the source, `self.distance += distance` (main.py:56) adds numpy 64-bit integers and wraps around above 2^63 - 1. Tours.TourFitsInInt64 gives the bound that rules this out.
- Colonies.Colony.ReleaseAnt: `antDistance` (main.py:91) is the unbounded tour length. In the source it can wrap around to a negative value: with 3 cities and every distance between different cities 4 * 10^18, the tour length is 1.2 * 10^19 (Tours.TourBeyondInt64).
- Tours.TourLengthPositive: holds for unbounded integers only. Under 64-bit wrap-around the closed tour length can be negative. Tours.TourFitsInInt64 gives the bound under which it holds for the source.
- Deposits.DepositedNonNegative: assumes the unbounded tour length. A wrapped, negative `antDistance` in the source would make the deposit negative.
- Colonies.Colony.FindRoute: the minimum it returns is over unbounded tour lengths. In the source, a wrapped tour length can become the minimum.
- Convergence and the quality of the returned tour are not modelled. Only what the loop computes is specified.
- `antCanVisitPreviousCities` is the constant `false`, as in the source. With `true` an ant could revisit cities, and the tour properties of `CompleteTour` would not hold.
