/**
 * Self-loop stripping: A - diag(diagonal(A)), which zeroes the main
 * diagonal and leaves every other entry as it was.
 */
module SelfLoopStripper {
  import opened Linalg

  /** The adjacency matrix with every self-loop removed. */
  function SetDiag(A: Matrix): (r: Matrix)
    requires IsSquare(A)
    ensures IsSquare(r) && |r| == |A|
    ensures forall i :: 0 <= i < |A| ==> r[i][i] == 0
    ensures forall i, j :: 0 <= i < |A| && 0 <= j < |A| && i != j ==> r[i][j] == A[i][j]
  {
    Sub(A, Diag(Diagonal(A)), |A|, |A|)
  }

  /** Stripping twice is the same as stripping once. */
  lemma SetDiagIdempotent(A: Matrix)
    requires IsSquare(A)
    ensures SetDiag(SetDiag(A)) == SetDiag(A)
  {
    var once := SetDiag(A);
    var twice := SetDiag(once);
    forall i | 0 <= i < |A|
      ensures twice[i] == once[i]
    {
      assert forall j :: 0 <= j < |A| ==> twice[i][j] == once[i][j];
    }
  }

  /** A matrix is left unchanged exactly when it has no self-loops. */
  lemma SetDiagFixedPoints(A: Matrix)
    requires IsSquare(A)
    ensures SetDiag(A) == A <==> forall i :: 0 <= i < |A| ==> A[i][i] == 0
  {
    var r := SetDiag(A);
    if forall i :: 0 <= i < |A| ==> A[i][i] == 0 {
      forall i | 0 <= i < |A|
        ensures r[i] == A[i]
      {
        assert forall j :: 0 <= j < |A| ==> r[i][j] == A[i][j];
      }
    }
  }
}
