/** Square matrices represented as sequences of rows, the shape of the
    distance, pheromone and pheromone-delta tables. */
module Matrices {

  /** `m` has `n` rows of `n` entries each. */
  predicate IsMatrix<T>(m: seq<seq<T>>, n: nat)
  {
    |m| == n && forall i :: 0 <= i < n ==> |m[i]| == n
  }

  /** Every entry of `m` is strictly positive. */
  predicate Positive(m: seq<seq<real>>)
  {
    forall i, j :: 0 <= i < |m| && 0 <= j < |m[i]| ==> m[i][j] > 0.0
  }

  /** No entry of `m` is negative. */
  predicate NonNegative(m: seq<seq<real>>)
  {
    forall i, j :: 0 <= i < |m| && 0 <= j < |m[i]| ==> m[i][j] >= 0.0
  }

  /** The n-by-n matrix of zeros. */
  function Zeros(n: nat): (z: seq<seq<real>>)
    ensures IsMatrix(z, n)
  {
    seq(n, i => seq(n, j => 0.0))
  }

  /** Two n-by-n matrices that agree on every cell are equal. */
  lemma CellwiseEqual(a: seq<seq<real>>, b: seq<seq<real>>, n: nat)
    requires IsMatrix(a, n) && IsMatrix(b, n)
    requires forall i, j :: 0 <= i < n && 0 <= j < n ==> a[i][j] == b[i][j]
    ensures a == b
  {
    forall i | 0 <= i < n
      ensures a[i] == b[i]
    {
    }
  }
}
