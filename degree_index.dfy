/**
 * Degree search: the nodes whose in-degree (column sum of the adjacency
 * matrix) equals a target value, as an ascending list of column indices.
 */
module DegreeIndex {
  import opened Linalg

  /** The target degree used when the caller gives none. */
  const DefaultDegree: int := 100

  /** In-degree of node j: the sum of column j of the adjacency matrix. */
  function InDegree(A: Matrix, j: nat): int
    requires IsSquare(A) && j < |A|
  {
    Sum(Column(A, j))
  }

  /** The degree vector: one column sum per node. */
  function Degrees(A: Matrix): (deg: seq<int>)
    requires IsSquare(A)
    ensures |deg| == |A|
  {
    seq(|A|, j requires 0 <= j < |A| => InDegree(A, j))
  }

  /** s is strictly increasing, hence free of duplicates. */
  predicate StrictlyAscending(s: seq<nat>) {
    forall p, q :: 0 <= p < q < |s| ==> s[p] < s[q]
  }

  /**
   * The positions of v holding d, in increasing order: every position
   * listed holds d, and no position holding d is missing.
   */
  function Where(v: seq<int>, d: int): (r: seq<nat>)
    ensures forall k :: 0 <= k < |r| ==> r[k] < |v| && v[r[k]] == d
    ensures forall j :: 0 <= j < |v| && v[j] == d ==> j in r
    ensures StrictlyAscending(r)
  {
    if |v| == 0 then []
    else
      var last := |v| - 1;
      Where(v[..last], d) + (if v[last] == d then [last] else [])
  }

  /**
   * The column indices whose column sum equals `degree`: exactly those,
   * ascending and without duplicates (empty when N = 0 or nothing matches).
   */
  function SearchNodeByDegree(A: Matrix, degree: int := DefaultDegree): (r: seq<nat>)
    requires IsSquare(A)
    ensures forall j: nat :: j in r <==> j < |A| && InDegree(A, j) == degree
    ensures StrictlyAscending(r)
  {
    Where(Degrees(A), degree)
  }

  /** Two strictly ascending lists holding the same elements are equal. */
  lemma {:induction false} AscendingListsWithSameElements(a: seq<nat>, b: seq<nat>)
    requires StrictlyAscending(a) && StrictlyAscending(b)
    requires forall x :: x in a <==> x in b
    ensures a == b
  {
    // each list's first element lies in the other, so both are empty or neither is
    assert |a| > 0 ==> a[0] in b;
    assert |b| > 0 ==> b[0] in a;
    if |a| > 0 {
      // a[0] and b[0] are the least elements of the same set
      assert a[0] == b[0];
      forall x
        ensures x in a[1..] <==> x in b[1..]
      {
        if x in a[1..] {
          assert x in b && x != b[0];
        }
        if x in b[1..] {
          assert x in a && x != a[0];
        }
      }
      AscendingListsWithSameElements(a[1..], b[1..]);
    }
  }

  /**
   * The search result is the only strictly ascending list of the nodes
   * with the requested degree.
   */
  lemma SearchResultIsUnique(A: Matrix, degree: int, s: seq<nat>)
    requires IsSquare(A)
    requires StrictlyAscending(s)
    requires forall j: nat :: j in s <==> j < |A| && InDegree(A, j) == degree
    ensures s == SearchNodeByDegree(A, degree)
  {
    AscendingListsWithSameElements(s, SearchNodeByDegree(A, degree));
  }
}
