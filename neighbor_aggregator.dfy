/**
 * Neighbour averaging: row i of A * F (the edge-weighted sum of the feature
 * rows that row i of A points at) divided by the in-degree of node i.
 */
module NeighborAggregator {
  import opened Linalg
  import opened DegreeIndex

  /**
   * One row of the averaged features. A node whose in-degree is zero gets
   * a row of floating-point NaN/infinity values; the model keeps only that
   * the row is not finite.
   */
  datatype AverageRow = Finite(values: seq<real>) | NonFinite

  /** A vector of integers read as reals. */
  function AsReals(s: seq<int>): seq<real> {
    seq(|s|, k requires 0 <= k < |s| => s[k] as real)
  }

  /**
   * Row i of (A * F) / degree: NonFinite exactly when node i has in-degree
   * 0, and otherwise one entry per feature.
   */
  function AverageNodeFeature(A: Matrix, F: Matrix): (r: seq<AverageRow>)
    requires IsSquare(A) && IsMatrix(F, |A|, Width(F))
    ensures |r| == |A|
    ensures forall i :: 0 <= i < |A| ==> (r[i].NonFinite? <==> InDegree(A, i) == 0)
    ensures forall i :: 0 <= i < |A| && r[i].Finite? ==> |r[i].values| == Width(F)
  {
    var n, f := |A|, Width(F);
    var neighbourSum := MatMul(A, F, n, n, f);
    var degree := Degrees(A);
    seq(n, i requires 0 <= i < n =>
      if degree[i] == 0 then NonFinite
      else Finite(seq(f, c requires 0 <= c < f => neighbourSum[i][c] as real / degree[i] as real)))
  }

  /**
   * For a node with nonzero in-degree, entry c of its row times the
   * in-degree gives back the edge-weighted sum of feature c over the nodes
   * its row points at.
   */
  lemma AverageTimesDegree(A: Matrix, F: Matrix, i: nat, c: nat)
    requires IsSquare(A) && IsMatrix(F, |A|, Width(F))
    requires i < |A| && c < Width(F) && InDegree(A, i) != 0
    ensures AverageNodeFeature(A, F)[i].Finite?
    ensures AverageNodeFeature(A, F)[i].values[c] * InDegree(A, i) as real
         == Dot(A[i], Column(F, c)) as real
  {
  }

  /**
   * A node with a single out-edge of weight 1, to node k, and in-degree 1
   * gets exactly the features of node k.
   */
  lemma AverageOfSingleNeighbour(A: Matrix, F: Matrix, i: nat, k: nat)
    requires IsSquare(A) && IsMatrix(F, |A|, Width(F))
    requires i < |A| && k < |A|
    requires A[i][k] == 1 && forall j :: 0 <= j < |A| && j != k ==> A[i][j] == 0
    requires InDegree(A, i) == 1
    ensures AverageNodeFeature(A, F)[i] == Finite(AsReals(F[k]))
  {
    var row := AverageNodeFeature(A, F)[i];
    forall c | 0 <= c < Width(F)
      ensures row.values[c] == F[k][c] as real
    {
      AverageTimesDegree(A, F, i, c);
      DotSelects(A[i], Column(F, c), k);
    }
    assert row.values == AsReals(F[k]);
  }

  /**
   * On the directed 3-cycle 0 -> 1 -> 2 -> 0 every node has in-degree 1 and
   * row i becomes the features of node (i + 1) mod 3.
   */
  lemma ThreeCycleAverage()
    ensures AverageNodeFeature([[0, 1, 0], [0, 0, 1], [1, 0, 0]], [[1, 0], [0, 1], [1, 1]])
         == [Finite([0.0, 1.0]), Finite([1.0, 1.0]), Finite([1.0, 0.0])]
  {
    var A: Matrix := [[0, 1, 0], [0, 0, 1], [1, 0, 0]];
    var F: Matrix := [[1, 0], [0, 1], [1, 1]];
    assert Column(A, 0) == [0, 0, 1];
    assert Column(A, 1) == [1, 0, 0];
    assert Column(A, 2) == [0, 1, 0];
    AverageOfSingleNeighbour(A, F, 0, 1);
    AverageOfSingleNeighbour(A, F, 1, 2);
    AverageOfSingleNeighbour(A, F, 2, 0);
    assert AsReals(F[1]) == [0.0, 1.0];
    assert AsReals(F[2]) == [1.0, 1.0];
    assert AsReals(F[0]) == [1.0, 0.0];
  }
}
