# Sparse adjacency-matrix utilities, modelled in Dafny

This project models `python/sparse.py`, a small module of operations on the
square adjacency matrix of a graph, used to preprocess graphs for
graph-neural-network pipelines:

- **degree search** (`search_node_by_degree`): the ascending list of nodes whose
  in-degree (column sum) equals a target value, 100 by default;
- **neighbour averaging** (`average_node_feature`): row i of `A · F` divided by
  the in-degree of node i;
- **node masking** (`reset_sparse`): zero every row and column of the cleared
  nodes. The source fills a 0/1 diagonal vector in a loop and then computes
  `(D · (D · A)ᵀ)ᵀ`;
- **self-loop stripping** (`set_diag`): `A - diag(diagonal(A))`.

A matrix is modelled densely as a sequence of rows of integers (`Linalg.Matrix`).
The sparse layouts the source converts between all denote that same matrix.

Files and modules:

- `linalg.dfy` (`Linalg`) holds the linear algebra the source borrows from its
  matrix library: `Sum`, `Column`, `Dot`, `Transpose`, `MatMul`, `Diag`,
  `Diagonal` and `Sub`. It also proves the facts about diagonal matrices and
  transposes that the operations rely on.
- `degree_index.dfy` (`DegreeIndex`) models `search_node_by_degree`. The
  `degree` parameter defaults to the constant `DefaultDegree` (100), as in the source.
- `neighbor_aggregator.dfy` (`NeighborAggregator`) models `average_node_feature`.
- `node_masker.dfy` (`NodeMasker`) models `reset_sparse`. It is a method that
  fills an array `diagData` in a loop, exactly as the source does.
- `self_loop_stripper.dfy` (`SelfLoopStripper`) models `set_diag`.

Behaviour of the code that the model keeps:

- Cleared-node indices are Python list indices. An index in `[-N, -1]` is
  accepted and clears node `N + index`. Any index `>= N` or `< -N` makes
  `diag_data[n_idx] = 0` raise before any matrix is built. `ResetSparse` returns
  `Err(IndexOutOfRange(idx))` for the first such index and otherwise `Ok`.
- On the directed 3-cycle `[[0,1,0],[0,0,1],[1,0,0]]` the code gives row i the
  features of node (i + 1) mod 3, the node that row i points at.
  `ThreeCycleAverage` proves the result `[[0,1],[1,1],[1,0]]`.
- The averaging divides by the column sum (in-degree), while `A · F` sums along
  row i. The model keeps this literally. No symmetry is assumed.

## Model

| member | source | states |
|---|---|---|
| `DegreeIndex.Where` | python/sparse.py:32 | every listed position holds the target value, every position holding it is listed, and the list is strictly ascending |
| `DegreeIndex.SearchNodeByDegree` | python/sparse.py:16-33 | j is in the result iff j < N and column j sums to `degree`; the result is strictly ascending, so it has no duplicates and is empty when N = 0 or nothing matches |
| `DegreeIndex.SearchResultIsUnique` | python/sparse.py:30-32 | any strictly ascending list of exactly the nodes with that degree equals the search result |
| `NeighborAggregator.AverageNodeFeature` | python/sparse.py:36-56 | one row per node; a row is non-finite exactly when the node's in-degree is 0, and otherwise has one entry per feature |
| `NeighborAggregator.AverageTimesDegree` | python/sparse.py:50-55 | for nonzero in-degree d of node i, entry c of row i times d equals row i of A dotted with feature column c, so the entry is that sum divided by d |
| `NeighborAggregator.AverageOfSingleNeighbour` | python/sparse.py:50-55 | a node whose row has a single weight-1 edge to node k and whose in-degree is 1 gets exactly node k's features |
| `NeighborAggregator.ThreeCycleAverage` | python/sparse.py:36-56 | on the 3-cycle with features `[[1,0],[0,1],[1,1]]` the result is `[[0,1],[1,1],[1,0]]` |
| `NodeMasker.Position` | python/sparse.py:81-82 | a valid Python index in [-N, N) denotes the position idx mod N, which is below N: a non-negative index is itself and a negative one counts from the end |
| `NodeMasker.ClearedSet` | python/sparse.py:79-82 | node j is cleared iff j < N and j or its negative alias j - N is listed, so order and duplicates do not matter |
| `NodeMasker.ClearedSetIgnoresOrder` | python/sparse.py:81-82 | two index lists with the same elements clear the same nodes |
| `NodeMasker.ResetSparse` | python/sparse.py:59-94 | fails exactly when some index is outside [-N, N), reporting the first such index; otherwise returns the input with the rows and columns of the cleared set zeroed |
| `NodeMasker.MaskedEntries` | python/sparse.py:86-91 | rows and columns of cleared nodes are all zero, and an entry whose row and column are both kept is unchanged |
| `NodeMasker.ScaleByTransposesAt` | python/sparse.py:87-91 | `(D · (D · A)ᵀ)ᵀ` has entry d[i]·d[j]·A[i][j] |
| `NodeMasker.TransposesGiveTwoSidedProduct` | python/sparse.py:87-91 | the transpose-based computation equals the two-sided product `D · A · D` |
| `NodeMasker.DiagonalProductsMask` | python/sparse.py:84-91 | with the 0/1 vector of the cleared set on the diagonal, the transpose-based computation is the masked matrix |
| `NodeMasker.MaskNothing` | python/sparse.py:79-94 | clearing no node returns the input |
| `NodeMasker.MaskTwice` | python/sparse.py:79-94 | masking S and then T is masking S ∪ T |
| `NodeMasker.MaskIdempotent` | python/sparse.py:79-94 | masking the same set twice equals masking it once |
| `NodeMasker.ClearedNodeHasDegreeZero` | python/sparse.py:30-32 | a cleared node has in-degree 0 afterwards, so searching for degree 0 finds it |
| `SelfLoopStripper.SetDiag` | python/sparse.py:96-108 | the result is N x N with an all-zero diagonal and equals the input off the diagonal |
| `SelfLoopStripper.SetDiagIdempotent` | python/sparse.py:106 | stripping twice equals stripping once |
| `SelfLoopStripper.SetDiagFixedPoints` | python/sparse.py:106 | stripping leaves a matrix unchanged iff its diagonal is already zero |
| `Linalg.DiagTimesAt` | python/sparse.py:87 | `diag(d) · M` scales row i of M by d[i] |
| `Linalg.TransposeTwice` | python/sparse.py:88-91 | transposing twice gives back the original matrix |

## Left out

- Sparse layouts and their conversions (`coo_matrix`, `tocsr`, `.tolist()`, the 1 x N `np.matrix` shape of the column sums) are not modelled. They are library representations of the same matrix.
- NeighborAggregator.AverageNodeFeature: the NaN (0/0) and ±infinity (x/0) rows of a zero in-degree node are collapsed into one `NonFinite` row. Other rows are exact rational quotients, not floating-point values.
- Feature matrices hold integers, so that `A · F` shares `Linalg.MatMul` with the masking products. The division is done over reals.
- Non-square adjacency matrices, a feature matrix whose row count differs from N, ragged rows and dtype promotion are excluded by preconditions. This is a modelling choice. The source itself does not check shapes. `reset_sparse`, `set_diag` and, for mismatched features, `average_node_feature` fail inside the matrix library. `search_node_by_degree` accepts an N x M matrix and returns column indices in [0, M); the model covers only the square case.
- The integer width of numpy arrays is not modelled. Entries are unbounded integers, and the source's sums do not overflow in intended use.
- Performance concerns are not modelled: sparsity, non-zero counts, and the choice of a transpose over column access.
- The returned list's element type (numpy integers in a Python list) is not modelled. The model returns a sequence of naturals.
