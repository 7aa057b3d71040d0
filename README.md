# Graph-local Benjamini–Hochberg correction, modelled in Dafny

This project models the algorithm module of QuTE, a multiple-testing correction
for p-values attached to the nodes of a graph. The module has three parts:

- `BH(p_vals, alpha)` is the per-neighbourhood test. It sorts the p-values with
  `argsort` and rejects the entry at 1-based sorted position k exactly when its
  own p-value is at most `k * alpha / n`. Each entry is decided by its own
  comparison; there is no step-up over the largest passing rank. The decisions
  are mapped back to input order through the inverse permutation
  `reverse_inds[sorted_inds] = arange(n)`.
- There are two neighbourhood providers:
  - `get_1_neighbours` returns the out-neighbours of a node, then the node itself.
  - `get_c_neighbours` enumerates the box `[x-c, x+c] × [y-c, y+c]` around a
    node of a row-major grid, `right + 1` columns wide and `upper + 1` rows
    high. It keeps the in-grid points within L1 distance `c` and maps them back
    to node indices.
- `generalized_BH_original` starts from an all-False reject vector. For each
  node in turn it runs `BH` on that node's neighbourhood at level
  `alpha * |nbhd| / num_nodes`, then ORs the local decisions into the vector in
  place. `generalized_BH` binds the result to the caller's data object.

The files:

- `vectors.dfy` (module `Vectors`) holds the NumPy primitives on sequences:
  `arange`, fancy indexing, `logical_or`, and fancy assignment. The model
  takes the writes of a fancy assignment in order, so the last write wins.
- `permutations.dfy` (module `Permutations`) holds index permutations, ranks,
  and the inverse-permutation scatter as an array loop.
- `bh_test.dfy` (module `BHTest`) holds `reshape_func`, the contract of `argsort`,
  the reference definition `LocalBH` and the `BH` method.
- `neighbourhoods.dfy` (module `Neighbourhoods`) holds both providers.
- `generalized_bh.dfy` (module `GeneralizedBH`) holds the orchestration:
  - a specification function `RunNodes`, which folds the loop body over a list of nodes;
  - the method `GeneralizedBHOriginal`, over a Boolean array;
  - the in-place merge `OrInto`;
  - the data-binding wrapper.
- `scenarios.dfy` (module `Scenarios`) holds worked instances: a 4-node path
  graph, and a node with a self-loop.

P-values and `alpha` are `real`. `np.argsort` is a parameter
`argsort: seq<real> -> seq<nat>`; the model requires only that it returns a
permutation that sorts its input ascending (`IsArgsort`), and leaves the
tie-break open. A graph is its adjacency, `seq<seq<nat>>`, and its node count is
the length of that sequence. The `get_nbhd` argument is the datatype `Provider`:
either `OneHop`, or `CNeighbours(c, upper, right)` for the grid provider with
its parameters bound.

Duplicate indices: a self-loop makes `get_1_neighbours` list a node twice. The
merge `ifreject[nbhd] = logical_or(ifreject[nbhd], local)` reads its right-hand
side before any write. The model takes the writes in order, so the last
occurrence's decision is the one kept. The reading "OR over every occurrence"
is guaranteed only when a neighbourhood's indices are distinct
(`GeneralizedBHDistinct`). Distinctness is sufficient, not necessary: repeated
indices whose decisions agree give the same result either way.
`SelfLoopLastWriteWins` and `SelfLoopResult` show a self-loop where one
occurrence is rejected and the node can still end unrejected, depending on the
sort's tie-break.

## Model

| member | source | states |
|---|---|---|
| `Vectors.Arange` | algorithm.py:72-73 | `np.arange(lo, hi)` has hi - lo entries (none when hi <= lo), entry k is lo + k, and it holds exactly the integers in [lo, hi) |
| `Vectors.Gather` | algorithm.py:109 | fancy indexing `a[inds]` has one entry per index, and entry p is `a[inds[p]]` |
| `Vectors.LogicalOr` | algorithm.py:113 | `np.logical_or` is the pointwise OR of two equally long vectors |
| `Vectors.LastIndex` | algorithm.py:112 | the last position at which an index occurs: it holds that index, and no later position does |
| `Vectors.Scatter` | algorithm.py:112-113 | fancy assignment keeps the length of the target; only the length is stated here, and `Vectors.ScatterAt` states the value at each index |
| `BHTest.ReshapeFunc` | algorithm.py:4-9 | yields the rank vector unchanged exactly for the choice "id"; any other choice yields no value |
| `Permutations.PermutationOnto` | algorithm.py:25 | an injective index map of 0..n-1 into itself lists every index, so each index has a sorted position |
| `Permutations.Invert` | algorithm.py:31-32 | the scatter `reverse_inds[sorted_inds] = arange(n)` gives the inverse: `inv[s[k]] == k` and `s[inv[i]] == i` for every position and index |
| `Permutations.InverseIsPermutation` | algorithm.py:31-32 | that inverse is itself a permutation of 0..n-1, and holds each index's sorted position |
| `BHTest.SortedRejections` | algorithm.py:28-29 | sorted position k (0-based) is rejected iff the p-value placed there is at most (k+1) * alpha / n |
| `BHTest.LocalBH` | algorithm.py:28-35 | in input order, the entry at sorted position k is rejected iff its p-value is at most (k+1) * alpha / n |
| `BHTest.BH` | algorithm.py:11-35 | returns n decisions in input order; entry i is rejected iff p[i] <= (rank of i + 1) * alpha / n for the permutation argsort returned; equals `LocalBH` |
| `BHTest.LocalBHMonotoneInAlpha` | algorithm.py:28-29 | with the same p-values and sort, a larger alpha rejects every entry a smaller one rejected |
| `BHTest.LocalBHEquivariant` | algorithm.py:24-35 | listing the p-values in another order, and sorting by the correspondingly relabelled permutation, relabels the decisions the same way |
| `BHTest.PointwiseRuleExample` | algorithm.py:28-29 | each entry is decided on its own: of 0.03 and 0.04 at level 0.05 the larger is rejected and the smaller is not |
| `BHTest.TieBreakDecides` | algorithm.py:25-29 | for tied p-values, which entry is rejected depends on the sort's tie-break |
| `Neighbourhoods.Get1Neighbours` | algorithm.py:37-43 | the out-neighbours in order followed by i: the length is out-degree + 1, and j is a member iff j == i or j is an out-neighbour |
| `Neighbourhoods.GridCoord` | algorithm.py:69-70 | `(i mod (right+1), i div (right+1))` has column at most right and round-trips: `y*(right+1)+x == i` |
| `Neighbourhoods.RowMajorUnique` | algorithm.py:84 | `y*(right+1)+x` determines (x, y) when x <= right |
| `Neighbourhoods.NodeIndex` | algorithm.py:84 | the node index of an in-grid coordinate maps back to that coordinate |
| `Neighbourhoods.RowInGrid` | algorithm.py:82 | a node lies in the first upper+1 rows iff its index is below (upper+1)*(right+1) |
| `Neighbourhoods.Product` | algorithm.py:78 | `product(xids, yids)` has `|xids| * |yids|` pairs; `ProductMembers` and `ProductSorted` state which pairs and in what order |
| `Neighbourhoods.Keep` | algorithm.py:79-83 | the comprehension keeps at most as many coordinates as it is given; `KeepMembers` and `KeepSorted` state which ones and in what order |
| `Neighbourhoods.ProductMembers` | algorithm.py:78 | `product(xids, yids)` holds exactly the pairs of an x id with a y id |
| `Neighbourhoods.ProductSorted` | algorithm.py:78 | `product` of two increasing id lists is in x-major order |
| `Neighbourhoods.KeepMembers` | algorithm.py:79-83 | the comprehension keeps exactly the coordinates within L1 distance c inside [0,right]×[0,upper] |
| `Neighbourhoods.KeepSorted` | algorithm.py:79-83 | the comprehension keeps x-major order |
| `Neighbourhoods.DiscCoords` | algorithm.py:72-83 | the kept coordinates of the box [x-c,x+c]×[y-c,y+c] are exactly the in-grid points within distance c |
| `Neighbourhoods.DiscCoordsSorted` | algorithm.py:72-83 | those coordinates come in x-major, then y, order |
| `Neighbourhoods.GetCNeighbours` | algorithm.py:45-84 | one node per kept coordinate, in the same order, each mapping back to its coordinate |
| `Neighbourhoods.CNeighboursMembers` | algorithm.py:69-84 | soundness and completeness: j is returned iff its coordinate is in [0,right]×[0,upper] at L1 distance <= c from i's |
| `Neighbourhoods.CNeighboursOrdered` | algorithm.py:78-84 | the nodes come in x-major coordinate order, so none is returned twice |
| `Neighbourhoods.CNeighboursInGrid` | algorithm.py:79-84 | every returned index is a node of the (upper+1)×(right+1) grid |
| `Neighbourhoods.CNeighboursContainsSelf` | algorithm.py:69-84 | a node of the grid is in its own neighbourhood for any c >= 0 |
| `Neighbourhoods.CNeighboursRadiusZero` | algorithm.py:72-84 | with c = 0 and i a node of the grid the result is exactly [i] |
| `Neighbourhoods.CNeighboursMonotoneInRadius` | algorithm.py:79-83 | a larger radius never drops a node |
| `Neighbourhoods.CNeighboursPlusShape` | algorithm.py:69-84 | the centre of the 3×3 grid at radius 1 gives the plus shape [3, 1, 4, 7, 5] |
| `GeneralizedBH.GetNbhd` | algorithm.py:106 | `get_nbhd(graph, i)` puts i in its own neighbourhood: the one-hop provider lists it last, after its out-neighbours, and the grid provider includes it when c >= 0 and i is a grid node |
| `GeneralizedBH.GeneralizedBHResult` | algorithm.py:102-115 | the specification of the loop over nodes 0..num_nodes-1 has one decision per node; `RunNodesAt` states what each decision is |
| `GeneralizedBH.AllFalse` | algorithm.py:102 | `np.array([False] * num_nodes)` has num_nodes entries, none of them True |
| `GeneralizedBH.Range` | algorithm.py:104 | `xrange(num_nodes)` visits 0, 1, ..., num_nodes-1 in that order |
| `GeneralizedBH.LocalAlpha` | algorithm.py:109-110 | the local level `alpha * |nbhd| / num_nodes` is non-negative for non-negative alpha, and at most alpha when the neighbourhood is no larger than the graph |
| `GeneralizedBH.LocalAlphaMonotone` | algorithm.py:109-110 | the local level grows with alpha |
| `GeneralizedBH.LocalRejection` | algorithm.py:109-110 | node i's local decisions are aligned with its neighbourhood (one per listed index); only the length is stated here, and `BHTest.BH` with `BHTest.LocalBH` state the decisions |
| `GeneralizedBH.Merge` | algorithm.py:112-113 | the merge keeps the reject vector's length; only the length is stated here, and `GeneralizedBH.MergeAt` states the value at each index |
| `Vectors.ScatterAt` | algorithm.py:112-113 | after the fancy assignment an index holds the value of its last write, and an index not written keeps its value |
| `GeneralizedBH.MergeAt` | algorithm.py:112-113 | after the merge, an index of the neighbourhood holds its old value OR the local decision at its last occurrence; any other index is unchanged |
| `GeneralizedBH.MergeOnlySets` | algorithm.py:112-113 | one iteration never turns True into False and changes only indices its neighbourhood lists |
| `GeneralizedBH.MergeDistinct` | algorithm.py:112-113 | with distinct indices, the merged entry is the old one OR some position's local decision for that index |
| `GeneralizedBH.OrInto` | algorithm.py:112-113 | the in-place merge on the array computes the OR from the entries before the statement and leaves the array equal to `Merge` of its old contents |
| `GeneralizedBH.RunNodes` | algorithm.py:102-113 | the reject vector after running the loop body for a list of nodes has one entry per node |
| `GeneralizedBH.RunNodesAt` | algorithm.py:102-113 | after running a list of nodes, k is rejected iff one of those nodes' local tests rejects k at its last occurrence in that neighbourhood |
| `GeneralizedBH.RunOrderIndependent` | algorithm.py:104-113 | two runs over the same set of nodes, in any order and with any repetitions, give the same reject vector |
| `GeneralizedBH.ReverseOrderSameResult` | algorithm.py:104 | visiting the nodes from last to first gives the result of the index-order loop |
| `GeneralizedBH.GeneralizedBHDistinct` | algorithm.py:102-115 | when no neighbourhood repeats an index, k is finally rejected iff some node's local test, at its scaled level, rejected the entry standing for k |
| `GeneralizedBH.GeneralizedBHMonotoneInAlpha` | algorithm.py:102-115 | raising alpha never withdraws a rejection |
| `GeneralizedBH.OneHopValid` | algorithm.py:37-43 | one-hop neighbourhoods are non-empty and index the graph exactly when every listed out-neighbour is a node |
| `GeneralizedBH.CNeighboursValid` | algorithm.py:45-84 | grid neighbourhoods are non-empty and index the graph when c >= 0 and the graph has (upper+1)*(right+1) nodes |
| `GeneralizedBH.VisitNode` | algorithm.py:106-113 | one loop iteration takes node i's neighbourhood, runs BH at the scaled level and merges, advancing the array from the run over nodes 0..i-1 to the run over 0..i |
| `GeneralizedBH.GeneralizedBHOriginal` | algorithm.py:86-115 | returns num_nodes decisions, equal to the loop's specification over nodes 0..num_nodes-1 |
| `GeneralizedBH.GeneralizedBHOn` | algorithm.py:117-132 | binds that result to the data object's `ifreject` and changes nothing else |
| `Scenarios.PathGraphResult` | algorithm.py:86-115 | on the path 0-1-2-3 with p-values 0.01, 0.04, 0.03, 0.20 at level 0.05 and one-hop neighbourhoods, exactly node 0 is rejected, whatever the tie-break |
| `Scenarios.SelfLoopResult` | algorithm.py:86-115 | the whole procedure on one node with a self-loop, p-value 0.04 at level 0.03: the node ends rejected exactly when the sort puts the second of its two entries last |
| `Scenarios.SelfLoopLastWriteWins` | algorithm.py:112-113 | with a self-loop, node 0 appears twice in its neighbourhood; the merge keeps the last occurrence's decision, so the outcome follows the tie-break even though one occurrence was rejected either way |

## Left out

- The graph library: `get_out_neighbours` becomes an adjacency sequence, and `num_vertices` becomes its length. The unused `graph` argument of `get_c_neighbours` is dropped.
- Floating point: p-values and levels are exact reals. Rounding in `alpha / float(n)` and NaN p-values are not modelled.
- Division by zero: `BH` requires a non-empty input. On an empty neighbourhood the source divides by `float(0)`; the orchestrator instead requires every neighbourhood to be non-empty (`ValidNbhds`).
- IndexError paths are preconditions (`Valid`), not error results. These are a neighbour index at or beyond the node count, and fewer p-values than nodes.
- `GeneralizedBH.GeneralizedBHOriginal` requires at least as many p-values as nodes. P-values beyond the node count are ignored, as in the source.
- Negative grid dimensions and negative NumPy indices are not modelled: grid dimensions are `nat`, and node indices are `nat`.
- The `.astype(int)` cast is not modelled: indices are already naturals.
- Vectors.Scatter: NumPy does not specify which write survives when a fancy assignment repeats an index. The model fixes last-write-wins, which is NumPy's behaviour on one-dimensional arrays. `Vectors.ScatterAt`, `GeneralizedBH.MergeAt`, `GeneralizedBH.Rejects`, `GeneralizedBH.RunNodesAt`, `Scenarios.SelfLoopResult` and `Scenarios.SelfLoopLastWriteWins` depend on that choice whenever a neighbourhood repeats a node. With distinct indices the order does not matter (`GeneralizedBH.GeneralizedBHDistinct`).
- The tie-break of `np.argsort` is left abstract: any ascending-sorting permutation is allowed.
- `reshape_func` choices other than `'id'` implicitly return `None`. They are modelled as `None` and never used.
- Parallel execution of the per-node loop is not modelled. `RunOrderIndependent` states the order independence that would justify it.
- Loading and generating the data object is not modelled. Only the attribute `ifreject` it receives is.
