/**
 * Node masking: zero every row and every column of the adjacency matrix
 * whose index is in a set of cleared nodes, keeping all other entries.
 *
 * The source builds a 0/1 diagonal vector D in a loop over the cleared
 * indices, then computes (D * (D * A)^T)^T. Indices are used as Python
 * list indices: an index in [-N, -1] counts from the end and clears node
 * N + index, and any other index outside [0, N) raises an error before any
 * matrix is built.
 */
module NodeMasker {
  import opened Linalg
  import opened DegreeIndex

  datatype Error = IndexOutOfRange(index: int)

  datatype Result<T> = Ok(value: T) | Err(error: Error)

  /** idx is a valid Python index into a list of length n. */
  predicate InListRange(idx: int, n: nat) {
    -(n as int) <= idx < n
  }

  /**
   * The list position a valid Python index denotes: the index itself when
   * non-negative, counted from the end when negative.
   */
  function Position(idx: int, n: nat): (p: nat)
    requires InListRange(idx, n)
    ensures p < n
    ensures p == idx % n
  {
    if idx < 0 then n + idx else idx
  }

  /**
   * The nodes that a list of valid indices clears: node j is cleared when
   * j itself or its negative alias j - n is listed. Order and repetition in
   * the list do not matter.
   */
  function ClearedSet(clearNodes: seq<int>, n: nat): (s: set<nat>)
    requires forall idx :: idx in clearNodes ==> InListRange(idx, n)
    ensures forall j: nat :: j in s <==> j < n && (j in clearNodes || j - n in clearNodes)
  {
    set idx | idx in clearNodes :: Position(idx, n)
  }

  /** The diagonal of the masking matrix: 0 for cleared nodes, 1 elsewhere. */
  function DiagVector(n: nat, S: set<nat>): (d: seq<int>)
    ensures |d| == n
  {
    seq(n, j requires 0 <= j < n => if j in S then 0 else 1)
  }

  /**
   * The masked adjacency matrix: rows and columns in S are zero, every
   * other entry is the input's.
   */
  function Masked(A: Matrix, S: set<nat>): (r: Matrix)
    requires IsSquare(A)
    ensures IsSquare(r) && |r| == |A|
  {
    seq(|A|, i requires 0 <= i < |A| =>
      seq(|A|, j requires 0 <= j < |A| => if i in S || j in S then 0 else A[i][j]))
  }

  /**
   * Every row and column in S of the masked matrix is zero, and an entry
   * whose row and column are both outside S keeps its value.
   */
  lemma MaskedEntries(A: Matrix, S: set<nat>)
    requires IsSquare(A)
    ensures forall k: nat, j :: k in S && k < |A| && 0 <= j < |A| ==>
      Masked(A, S)[k][j] == 0 && Masked(A, S)[j][k] == 0
    ensures forall i: nat, j: nat :: i < |A| && j < |A| && i !in S && j !in S ==>
      Masked(A, S)[i][j] == A[i][j]
  {
  }

  /**
   * The source's way of clearing: scale the rows by diag(d), transpose,
   * scale the rows again (the original columns), and transpose back.
   */
  function ScaleByTransposes(A: Matrix, d: seq<int>): (r: Matrix)
    requires IsSquare(A) && |d| == |A|
    ensures IsSquare(r) && |r| == |A|
  {
    var n, D := |A|, Diag(d);
    Transpose(MatMul(D, Transpose(MatMul(D, A, n, n, n), n, n), n, n, n), n, n)
  }

  /** Square matrices of one size that agree entry by entry are equal. */
  lemma EqualByEntries(X: Matrix, Y: Matrix)
    requires IsSquare(X) && IsSquare(Y) && |X| == |Y|
    requires forall i, j :: 0 <= i < |X| && 0 <= j < |X| ==> X[i][j] == Y[i][j]
    ensures X == Y
  {
    forall i | 0 <= i < |X|
      ensures X[i] == Y[i]
    {
      assert forall j :: 0 <= j < |X| ==> X[i][j] == Y[i][j];
    }
  }

  /** (D * (D * A)^T)^T scales entry (i, j) by d[i] * d[j]. */
  lemma ScaleByTransposesAt(A: Matrix, d: seq<int>, i: nat, j: nat)
    requires IsSquare(A) && |d| == |A| && i < |A| && j < |A|
    ensures ScaleByTransposes(A, d)[i][j] == d[i] * d[j] * A[i][j]
  {
    var n := |A|;
    var rowScaled := MatMul(Diag(d), A, n, n, n);
    var flipped := Transpose(rowScaled, n, n);
    DiagTimesAt(d, A, n, i, j);
    DiagTimesAt(d, flipped, n, j, i);
  }

  /** The two-sided product D * A * D scales entry (i, j) by d[i] * d[j]. */
  lemma ScaleBothSidesAt(A: Matrix, d: seq<int>, i: nat, j: nat)
    requires IsSquare(A) && |d| == |A| && i < |A| && j < |A|
    ensures MatMul(MatMul(Diag(d), A, |A|, |A|, |A|), Diag(d), |A|, |A|, |A|)[i][j]
         == d[i] * d[j] * A[i][j]
  {
    var n := |A|;
    var rowScaled := MatMul(Diag(d), A, n, n, n);
    DiagTimesAt(d, A, n, i, j);
    TimesDiagAt(rowScaled, d, n, i, j);
  }

  /** Clearing through two transposes is the two-sided product D * A * D. */
  lemma TransposesGiveTwoSidedProduct(A: Matrix, d: seq<int>)
    requires IsSquare(A) && |d| == |A|
    ensures ScaleByTransposes(A, d)
         == MatMul(MatMul(Diag(d), A, |A|, |A|, |A|), Diag(d), |A|, |A|, |A|)
  {
    var n := |A|;
    var viaTransposes := ScaleByTransposes(A, d);
    var twoSided := MatMul(MatMul(Diag(d), A, n, n, n), Diag(d), n, n, n);
    forall i, j | 0 <= i < n && 0 <= j < n
      ensures viaTransposes[i][j] == twoSided[i][j]
    {
      ScaleByTransposesAt(A, d, i, j);
      ScaleBothSidesAt(A, d, i, j);
    }
    EqualByEntries(viaTransposes, twoSided);
  }

  /** With the 0/1 vector of S on the diagonal, the scaling is the masked matrix. */
  lemma DiagonalProductsMask(A: Matrix, S: set<nat>)
    requires IsSquare(A)
    ensures ScaleByTransposes(A, DiagVector(|A|, S)) == Masked(A, S)
  {
    var d, m := DiagVector(|A|, S), Masked(A, S);
    var scaled := ScaleByTransposes(A, d);
    forall i, j | 0 <= i < |A| && 0 <= j < |A|
      ensures scaled[i][j] == m[i][j]
    {
      ScaleByTransposesAt(A, d, i, j);
      if i in S {
        assert d[i] == 0;
      } else if j in S {
        assert d[j] == 0;
      } else {
        assert d[i] == 1 && d[j] == 1;
      }
    }
    EqualByEntries(scaled, m);
  }

  /**
   * Clears the rows and columns of the listed nodes, or reports the first
   * index that is not a valid list index. Duplicates are harmless.
   */
  method ResetSparse(A: Matrix, clearNodes: seq<int>) returns (r: Result<Matrix>)
    requires IsSquare(A)
    ensures r.Err? <==> exists k :: 0 <= k < |clearNodes| && !InListRange(clearNodes[k], |A|)
    ensures r.Err? ==> exists k :: 0 <= k < |clearNodes| && r.error == IndexOutOfRange(clearNodes[k])
                          && !InListRange(clearNodes[k], |A|)
                          && forall m :: 0 <= m < k ==> InListRange(clearNodes[m], |A|)
    ensures r.Ok? ==> r.value == Masked(A, ClearedSet(clearNodes, |A|))
  {
    var n := |A|;
    var diagData := new int[n](_ => 1);
    for k := 0 to |clearNodes|
      invariant forall m :: 0 <= m < k ==> InListRange(clearNodes[m], n)
      invariant forall j :: 0 <= j < n ==>
        diagData[j] == if j in ClearedSet(clearNodes[..k], n) then 0 else 1
    {
      var idx := clearNodes[k];
      if !(-n <= idx < n) {
        return Err(IndexOutOfRange(idx));
      }
      diagData[Position(idx, n)] := 0;
      assert clearNodes[..k + 1] == clearNodes[..k] + [idx];
    }
    assert clearNodes[..|clearNodes|] == clearNodes;
    var S := ClearedSet(clearNodes, n);
    assert diagData[..] == DiagVector(n, S);
    r := Ok(ScaleByTransposes(A, diagData[..]));
    DiagonalProductsMask(A, S);
  }

  /** Clearing no node returns the input. */
  lemma MaskNothing(A: Matrix)
    requires IsSquare(A)
    ensures Masked(A, {}) == A
  {
    var r := Masked(A, {});
    forall i | 0 <= i < |A|
      ensures r[i] == A[i]
    {
      assert forall j :: 0 <= j < |A| ==> r[i][j] == A[i][j];
    }
  }

  /** Masking S and then T is masking their union. */
  lemma MaskTwice(A: Matrix, S: set<nat>, T: set<nat>)
    requires IsSquare(A)
    ensures Masked(Masked(A, S), T) == Masked(A, S + T)
  {
    var lhs, rhs := Masked(Masked(A, S), T), Masked(A, S + T);
    forall i | 0 <= i < |A|
      ensures lhs[i] == rhs[i]
    {
      assert forall j :: 0 <= j < |A| ==> lhs[i][j] == rhs[i][j];
    }
  }

  /** Masking the same nodes again changes nothing. */
  lemma MaskIdempotent(A: Matrix, S: set<nat>)
    requires IsSquare(A)
    ensures Masked(Masked(A, S), S) == Masked(A, S)
  {
    MaskTwice(A, S, S);
    assert S + S == S;
  }

  /** Lists holding the same indices, in any order and multiplicity, clear the same nodes. */
  lemma ClearedSetIgnoresOrder(xs: seq<int>, ys: seq<int>, n: nat)
    requires forall idx :: idx in xs ==> InListRange(idx, n)
    requires forall idx :: idx in xs <==> idx in ys
    ensures ClearedSet(xs, n) == ClearedSet(ys, n)
  {
  }

  /** A cleared node has in-degree 0, so a search for degree 0 finds it. */
  lemma ClearedNodeHasDegreeZero(A: Matrix, S: set<nat>, k: nat)
    requires IsSquare(A) && k in S && k < |A|
    ensures InDegree(Masked(A, S), k) == 0
    ensures k in SearchNodeByDegree(Masked(A, S), 0)
  {
    var m := Masked(A, S);
    SumOfZeros(Column(m, k));
  }
}
