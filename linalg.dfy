/**
 * Dense integer matrices and the few linear-algebra operations that the
 * sparse-matrix utilities are built from: column extraction, dot products,
 * transposition, matrix products, diagonal matrices and subtraction.
 *
 * The sparse layouts the utilities convert between (coordinate form,
 * compressed-row form, 1 x N dense matrices) all denote the same
 * mathematical matrix; this module works with that matrix directly, as a
 * sequence of rows.
 */
module Linalg {

  /** A matrix as a sequence of rows. */
  type Matrix = seq<seq<int>>

  /** M has `rows` rows, each of length `cols`. */
  predicate IsMatrix(M: Matrix, rows: nat, cols: nat) {
    |M| == rows && forall i :: 0 <= i < |M| ==> |M[i]| == cols
  }

  /** M is N x N for N = |M|: the shape of an adjacency matrix. */
  predicate IsSquare(M: Matrix) {
    IsMatrix(M, |M|, |M|)
  }

  /** The number of columns of a matrix (0 for a matrix without rows). */
  function Width(M: Matrix): nat {
    if |M| == 0 then 0 else |M[0]|
  }

  /** The sum of a vector's entries. */
  function Sum(s: seq<int>): int {
    if |s| == 0 then 0 else s[0] + Sum(s[1..])
  }

  /** The dot product of two vectors of equal length. */
  function Dot(u: seq<int>, v: seq<int>): int
    requires |u| == |v|
  {
    if |u| == 0 then 0 else u[0] * v[0] + Dot(u[1..], v[1..])
  }

  /** Column j of M, top to bottom. */
  function Column(M: Matrix, j: nat): seq<int>
    requires forall i :: 0 <= i < |M| ==> j < |M[i]|
  {
    seq(|M|, i requires 0 <= i < |M| => M[i][j])
  }

  /** The transpose of a rows x cols matrix. */
  function Transpose(M: Matrix, rows: nat, cols: nat): (t: Matrix)
    requires IsMatrix(M, rows, cols)
    ensures IsMatrix(t, cols, rows)
  {
    seq(cols, i requires 0 <= i < cols =>
      seq(rows, j requires 0 <= j < rows => M[j][i]))
  }

  /** The product of an n x m matrix X and an m x p matrix Y. */
  function MatMul(X: Matrix, Y: Matrix, n: nat, m: nat, p: nat): (r: Matrix)
    requires IsMatrix(X, n, m) && IsMatrix(Y, m, p)
    ensures IsMatrix(r, n, p)
  {
    seq(n, i requires 0 <= i < n =>
      seq(p, j requires 0 <= j < p => Dot(X[i], Column(Y, j))))
  }

  /** The square diagonal matrix whose diagonal is d. */
  function Diag(d: seq<int>): (D: Matrix)
    ensures IsMatrix(D, |d|, |d|)
  {
    seq(|d|, i requires 0 <= i < |d| =>
      seq(|d|, j requires 0 <= j < |d| => if i == j then d[i] else 0))
  }

  /** The main diagonal of a square matrix. */
  function Diagonal(M: Matrix): seq<int>
    requires IsSquare(M)
  {
    seq(|M|, i requires 0 <= i < |M| => M[i][i])
  }

  /** Entry-wise difference of two matrices of the same shape. */
  function Sub(X: Matrix, Y: Matrix, rows: nat, cols: nat): (r: Matrix)
    requires IsMatrix(X, rows, cols) && IsMatrix(Y, rows, cols)
    ensures IsMatrix(r, rows, cols)
  {
    seq(rows, i requires 0 <= i < rows =>
      seq(cols, j requires 0 <= j < cols => X[i][j] - Y[i][j]))
  }

  /** A vector of zeros sums to zero. */
  lemma {:induction false} SumOfZeros(s: seq<int>)
    requires forall k :: 0 <= k < |s| ==> s[k] == 0
    ensures Sum(s) == 0
  {
    if |s| > 0 {
      SumOfZeros(s[1..]);
    }
  }

  /** Dotting with a zero vector gives zero. */
  lemma {:induction false} DotOfZeros(u: seq<int>, v: seq<int>)
    requires |u| == |v|
    requires forall k :: 0 <= k < |u| ==> u[k] == 0
    ensures Dot(u, v) == 0
  {
    if |u| > 0 {
      DotOfZeros(u[1..], v[1..]);
    }
  }

  /** The dot product is symmetric. */
  lemma {:induction false} DotCommutes(u: seq<int>, v: seq<int>)
    requires |u| == |v|
    ensures Dot(u, v) == Dot(v, u)
  {
    if |u| > 0 {
      DotCommutes(u[1..], v[1..]);
    }
  }

  /**
   * When u is zero everywhere except at position k, the dot product picks
   * out the k-th entry of v, scaled by u[k].
   */
  lemma {:induction false} DotSelects(u: seq<int>, v: seq<int>, k: nat)
    requires |u| == |v| && k < |u|
    requires forall j :: 0 <= j < |u| && j != k ==> u[j] == 0
    ensures Dot(u, v) == u[k] * v[k]
  {
    if k == 0 {
      DotOfZeros(u[1..], v[1..]);
    } else {
      DotSelects(u[1..], v[1..], k - 1);
    }
  }

  /** Multiplying on the left by diag(d) scales row i by d[i]. */
  lemma DiagTimesAt(d: seq<int>, M: Matrix, p: nat, i: nat, j: nat)
    requires IsMatrix(M, |d|, p) && i < |d| && j < p
    ensures MatMul(Diag(d), M, |d|, |d|, p)[i][j] == d[i] * M[i][j]
  {
    DotSelects(Diag(d)[i], Column(M, j), i);
  }

  /** Multiplying on the right by diag(d) scales column j by d[j]. */
  lemma TimesDiagAt(M: Matrix, d: seq<int>, rows: nat, i: nat, j: nat)
    requires IsMatrix(M, rows, |d|) && i < rows && j < |d|
    ensures MatMul(M, Diag(d), rows, |d|, |d|)[i][j] == M[i][j] * d[j]
  {
    var c := Column(Diag(d), j);
    DotCommutes(M[i], c);
    DotSelects(c, M[i], j);
  }

  /** Transposing twice gives back the original matrix. */
  lemma TransposeTwice(M: Matrix, rows: nat, cols: nat)
    requires IsMatrix(M, rows, cols)
    ensures Transpose(Transpose(M, rows, cols), cols, rows) == M
  {
    var t := Transpose(Transpose(M, rows, cols), cols, rows);
    forall i | 0 <= i < rows
      ensures t[i] == M[i]
    {
    }
  }
}
