/** The city map: the read-only distance matrix and the pheromone matrix
    that the colony rewrites once per cycle. */
module CityMaps {
  import opened Matrices

  /** The pheromone matrix after one update: each cell evaporates by the
      fraction `rate` and then receives the cell of `delta`. */
  function Evaporated(pheromones: seq<seq<real>>, rate: real, delta: seq<seq<real>>): (r: seq<seq<real>>)
    requires IsMatrix(pheromones, |pheromones|) && IsMatrix(delta, |pheromones|)
    ensures IsMatrix(r, |pheromones|)
  {
    seq(|pheromones|, i requires 0 <= i < |pheromones| =>
      seq(|pheromones|, j requires 0 <= j < |pheromones| =>
        pheromones[i][j] * (1.0 - rate) + delta[i][j]))
  }

  /** With a rate in [0, 1) and no negative deposit, evaporation cannot bring
      a positive cell down to zero. */
  lemma EvaporationKeepsPositive(pheromones: seq<seq<real>>, rate: real, delta: seq<seq<real>>)
    requires IsMatrix(pheromones, |pheromones|) && IsMatrix(delta, |pheromones|)
    requires Positive(pheromones) && NonNegative(delta) && 0.0 <= rate < 1.0
    ensures Positive(Evaporated(pheromones, rate, delta))
  {
    var r := Evaporated(pheromones, rate, delta);
    forall i, j | 0 <= i < |r| && 0 <= j < |r[i]|
      ensures r[i][j] > 0.0
    {
      assert |r| == |pheromones| == |pheromones[i]| == |delta[i]|;
      var p := pheromones[i][j];
      assert p > 0.0 && 1.0 - rate > 0.0 && delta[i][j] >= 0.0;
      var kept := p * (1.0 - rate);
      ProductPositive(p, 1.0 - rate);
      assert r[i][j] == kept + delta[i][j];
    }
  }

  lemma ProductPositive(a: real, b: real)
    requires a > 0.0 && b > 0.0
    ensures a * b > 0.0
  {
  }

  class CityMap {
    /** distances[i][j]: length of the edge from city i to city j. */
    const distances: seq<seq<int>>
    const numberOfCities: nat
    /** pheromones[i][j]: attractiveness of the edge from city i to city j. */
    var pheromones: seq<seq<real>>

    ghost predicate Valid()
      reads this
    {
      IsMatrix(distances, numberOfCities) && IsMatrix(pheromones, numberOfCities)
    }

    /** The initial pheromone levels, which the source draws at random, are
        supplied by the caller. */
    constructor (distancesMatrix: seq<seq<int>>, numberOfCities: nat, initialPheromones: seq<seq<real>>)
      requires IsMatrix(distancesMatrix, numberOfCities)
      requires IsMatrix(initialPheromones, numberOfCities)
      ensures Valid()
      ensures distances == distancesMatrix && this.numberOfCities == numberOfCities
      ensures pheromones == initialPheromones
    {
      distances := distancesMatrix;
      this.numberOfCities := numberOfCities;
      pheromones := initialPheromones;
    }

    /** Evaporates every cell in place and adds the matching cell of
        `pheromoneDelta`. The dimensions do not change. */
    method UpdatePheromones(evaporationRate: real, pheromoneDelta: seq<seq<real>>)
      requires Valid() && IsMatrix(pheromoneDelta, numberOfCities)
      modifies this
      ensures Valid()
      ensures pheromones == Evaporated(old(pheromones), evaporationRate, pheromoneDelta)
    {
      var n := numberOfCities;
      ghost var updated := Evaporated(pheromones, evaporationRate, pheromoneDelta);
      for i := 0 to n
        invariant IsMatrix(pheromones, n)
        invariant forall r :: 0 <= r < i ==> pheromones[r] == updated[r]
        invariant forall r :: i <= r < n ==> pheromones[r] == old(pheromones)[r]
      {
        for j := 0 to n
          invariant IsMatrix(pheromones, n)
          invariant forall r :: 0 <= r < n && r != i ==> pheromones[r] == if r < i then updated[r] else old(pheromones)[r]
          invariant forall c :: 0 <= c < j ==> pheromones[i][c] == updated[i][c]
          invariant forall c :: j <= c < n ==> pheromones[i][c] == old(pheromones)[i][c]
        {
          pheromones := pheromones[i := pheromones[i][j := pheromones[i][j] * (1.0 - evaporationRate)]];
          pheromones := pheromones[i := pheromones[i][j := pheromones[i][j] + pheromoneDelta[i][j]]];
        }
        assert pheromones[i] == updated[i];
      }
      assert pheromones == updated;
    }
  }
}
