/** The next-city weights of an ant and their normalisation into
    probabilities. */
module Selection {
  import opened Matrices
  import opened Tours

  /** The attractiveness of an edge, from its pheromone level and its
      length. The source computes pow(pheromone, 0.01) * pow(1 / distance, 9.5);
      here it is supplied by the caller. */
  type Weight = (real, int) -> real

  /** The weight is positive on every edge with a positive pheromone level
      and a positive length, as the source's power formula is. */
  ghost predicate PositiveOnEdges(weight: Weight)
  {
    forall pheromone: real, distance: int :: pheromone > 0.0 && distance > 0 ==> weight(pheromone, distance) > 0.0
  }

  /** An ant standing on `current` with route `visited` may move to `city`:
      it is another city, and not yet visited unless revisits are allowed. */
  predicate Eligible(city: nat, current: nat, visited: seq<nat>, canRevisit: bool)
  {
    city != current && (canRevisit || city !in visited)
  }

  /** The unnormalised weight of every city: the edge weight for an eligible
      city, zero for every other. */
  function Weights(pheromones: seq<seq<real>>, distances: seq<seq<int>>, n: nat,
                   current: nat, visited: seq<nat>, canRevisit: bool, weight: Weight): (ws: seq<real>)
    requires IsMatrix(pheromones, n) && IsMatrix(distances, n) && current < n
    ensures |ws| == n
  {
    seq(n, c requires 0 <= c < n =>
      if Eligible(c, current, visited, canRevisit) then weight(pheromones[current][c], distances[current][c])
      else 0.0)
  }

  /** Sum of a sequence of reals, accumulated from the front. */
  function Sum(s: seq<real>): real
  {
    if s == [] then 0.0 else Sum(s[..|s| - 1]) + s[|s| - 1]
  }

  /** Every element of `s` divided by `total`. */
  function Scaled(s: seq<real>, total: real): (r: seq<real>)
    requires total != 0.0
    ensures |r| == |s|
  {
    seq(|s|, k requires 0 <= k < |s| => s[k] / total)
  }

  /** A sum of non-negative reals is non-negative, and positive exactly when
      one of its terms is. */
  lemma {:induction false} SumNonNegative(s: seq<real>)
    requires forall k :: 0 <= k < |s| ==> s[k] >= 0.0
    ensures Sum(s) >= 0.0
    ensures Sum(s) > 0.0 <==> exists k :: 0 <= k < |s| && s[k] > 0.0
    decreases |s|
  {
    if s != [] {
      var front := s[..|s| - 1];
      SumNonNegative(front);
      if Sum(front) > 0.0 {
        var k :| 0 <= k < |front| && front[k] > 0.0;
        assert s[k] > 0.0;
      }
      if exists k :: 0 <= k < |s| && s[k] > 0.0 {
        var k :| 0 <= k < |s| && s[k] > 0.0;
        if k < |s| - 1 {
          assert front[k] > 0.0;
        }
      }
    }
  }

  /** Dividing every term by `total` divides the sum by `total`. */
  lemma {:induction false} SumScaled(s: seq<real>, total: real)
    requires total != 0.0
    ensures Sum(Scaled(s, total)) == Sum(s) / total
    decreases |s|
  {
    if s != [] {
      var front := s[..|s| - 1];
      SumScaled(front, total);
      assert Scaled(s, total)[..|s| - 1] == Scaled(front, total);
      assert (Sum(front) + s[|s| - 1]) / total == Sum(front) / total + s[|s| - 1] / total;
    }
  }

  /** Normalising by a non-zero total gives probabilities summing to 1. */
  lemma NormalisedSumsToOne(ws: seq<real>)
    requires Sum(ws) != 0.0
    ensures Sum(Scaled(ws, Sum(ws))) == 1.0
  {
    var total := Sum(ws);
    SumScaled(ws, total);
    assert total / total == 1.0;
  }

  /** The probabilities an ant computes, its weights over their non-zero
      total: one entry per city, summing to 1, the edge weight over the
      total for every eligible city and 0 for every other city (the current
      city, and the visited ones unless revisits are allowed). */
  lemma WeightsNormalised(pheromones: seq<seq<real>>, distances: seq<seq<int>>, n: nat,
                          current: nat, visited: seq<nat>, canRevisit: bool, weight: Weight)
    requires IsMatrix(pheromones, n) && IsMatrix(distances, n) && current < n
    requires Sum(Weights(pheromones, distances, n, current, visited, canRevisit, weight)) != 0.0
    ensures var ws := Weights(pheromones, distances, n, current, visited, canRevisit, weight);
      var p := Scaled(ws, Sum(ws));
      |p| == n && Sum(p) == 1.0 &&
      (forall c :: 0 <= c < n && Eligible(c, current, visited, canRevisit) ==>
         p[c] == weight(pheromones[current][c], distances[current][c]) / Sum(ws)) &&
      (forall c :: 0 <= c < n && !Eligible(c, current, visited, canRevisit) ==> p[c] == 0.0)
  {
    var ws := Weights(pheromones, distances, n, current, visited, canRevisit, weight);
    NormalisedSumsToOne(ws);
  }

  /** With positive pheromones, valid distances and a weight positive on
      edges, the total weight is never negative, and it is positive exactly
      when some city is eligible. */
  lemma CandidateIffPositiveTotal(pheromones: seq<seq<real>>, distances: seq<seq<int>>, n: nat,
                                  current: nat, visited: seq<nat>, canRevisit: bool, weight: Weight)
    requires IsMatrix(pheromones, n) && Positive(pheromones) && ValidDistances(distances, n)
    requires PositiveOnEdges(weight) && current < n
    ensures var total := Sum(Weights(pheromones, distances, n, current, visited, canRevisit, weight));
      total >= 0.0 &&
      (total > 0.0 <==> exists c :: 0 <= c < n && Eligible(c, current, visited, canRevisit))
  {
    var ws := Weights(pheromones, distances, n, current, visited, canRevisit, weight);
    forall c | 0 <= c < n
      ensures ws[c] >= 0.0 && (ws[c] > 0.0 <==> Eligible(c, current, visited, canRevisit))
    {
      if Eligible(c, current, visited, canRevisit) {
        assert pheromones[current][c] > 0.0 && distances[current][c] > 0;
      }
    }
    SumNonNegative(ws);
  }

  /** `city` is the roulette-wheel answer for the probabilities `p` and the
      draw `r`: the first city at which the running sum of the
      probabilities exceeds `r`, or -1 when even the whole sum does not. */
  predicate RouletteChoice(p: seq<real>, r: real, city: int)
  {
    -1 <= city < |p| &&
    (forall k :: 0 < k <= |p| && (city < 0 || k <= city) ==> Sum(p[..k]) <= r) &&
    (city >= 0 ==> r < Sum(p[..city + 1]))
  }

  /** The roulette-wheel answer is determined by the probabilities and the
      draw. */
  lemma RouletteChoiceUnique(p: seq<real>, r: real, city: int, other: int)
    requires RouletteChoice(p, r, city) && RouletteChoice(p, r, other)
    ensures city == other
  {
  }

  /** With a non-negative draw the chosen city has a positive probability. */
  lemma RouletteChoicePositive(p: seq<real>, r: real, city: int)
    requires RouletteChoice(p, r, city) && r >= 0.0 && city >= 0
    ensures p[city] > 0.0
  {
    assert p[..city + 1][..city] == p[..city];
    if city > 0 {
      assert Sum(p[..city]) <= r;
    }
  }

  /** The answer is -1 only when the draw is at least the whole sum; so
      with probabilities summing to 1 and a draw below 1 a city is always
      chosen. */
  lemma RouletteChoiceFound(p: seq<real>, r: real, city: int)
    requires RouletteChoice(p, r, city) && 0.0 <= r < Sum(p)
    ensures city >= 0
  {
    assert p[..|p|] == p;
  }
  /** The roulette-wheel answer the way the source computes it: going
      through the cities from `i` on with what is left of the draw, the first
      city whose probability exceeds it, or -1 when none does. */
  function FirstAbove(p: seq<real>, remaining: real, i: nat): (city: int)
    ensures -1 <= city < |p|
    decreases |p| - i
  {
    if i >= |p| then -1
    else if p[i] > remaining then i
    else FirstAbove(p, remaining - p[i], i + 1)
  }

  /** The city the draw `r` picks from the probabilities `p`. */
  function Choice(p: seq<real>, r: real): int
  {
    FirstAbove(p, r, 0)
  }

  /** The route an ant with the visited cities `route`, standing on the
      last of them, goes on to walk: its k-th further move takes the
      roulette-wheel answer for the draw draws(step + k) over its
      probabilities at that point, until n cities are visited. The walk
      stops early where no city is chosen (a zero total weight or -1). */
  function Walk(pheromones: seq<seq<real>>, distances: seq<seq<int>>, n: nat, canRevisit: bool, weight: Weight,
                route: seq<nat>, draws: nat -> real, step: nat): (walked: seq<nat>)
    requires IsMatrix(pheromones, n) && IsMatrix(distances, n)
    requires |route| >= 1 && InRange(route, n)
    ensures InRange(walked, n)
    decreases n - |route|
  {
    if |route| >= n then route
    else
      var ws := Weights(pheromones, distances, n, route[|route| - 1], route, canRevisit, weight);
      if Sum(ws) == 0.0 then route
      else
        var city := Choice(Scaled(ws, Sum(ws)), draws(step));
        if city < 0 then route
        else Walk(pheromones, distances, n, canRevisit, weight, route + [city], draws, step + 1)
  }
  /** One move of the walk: when the ant standing on `current`, the last
      city of `route`, has a positive total weight and the draw picks
      `city`, the walk goes on from `route + [city]` with the next draw. */
  lemma WalkStep(pheromones: seq<seq<real>>, distances: seq<seq<int>>, n: nat, canRevisit: bool, weight: Weight,
                 route: seq<nat>, current: nat, city: nat, draws: nat -> real, step: nat)
    requires IsMatrix(pheromones, n) && IsMatrix(distances, n)
    requires |route| >= 1 && InRange(route, n) && |route| < n && current == route[|route| - 1]
    requires Sum(Weights(pheromones, distances, n, current, route, canRevisit, weight)) != 0.0
    requires city == Choice(Scaled(Weights(pheromones, distances, n, current, route, canRevisit, weight),
                                   Sum(Weights(pheromones, distances, n, current, route, canRevisit, weight))),
                            draws(step))
    ensures InRange(route + [city], n)
    ensures Walk(pheromones, distances, n, canRevisit, weight, route, draws, step) ==
            Walk(pheromones, distances, n, canRevisit, weight, route + [city], draws, step + 1)
  {
  }
}
