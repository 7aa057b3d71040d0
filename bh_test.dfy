/**
 * `BH(p_vals, alpha)`: the per-neighbourhood test. The p-values are put in
 * ascending order by `argsort`; the entry at 1-based sorted position k is
 * rejected exactly when its own p-value is at most k * (alpha / n). Each entry
 * is decided by its own comparison only (there is no step-up over the largest
 * passing rank); the decisions are mapped back to the input order through the
 * inverse of the sorting permutation.
 */
module BHTest {
  import opened Permutations
  import opened Vectors

  datatype Option<T> = None | Some(value: T)

  /**
   * `reshape_func(k, choice)`: the identity on the rank vector for the choice
   * "id"; every other choice falls through and yields no value.
   */
  function ReshapeFunc(k: seq<int>, choice: string := "id"): (r: Option<seq<int>>)
    ensures r.Some? <==> choice == "id"
    ensures r.Some? ==> r.value == k
  {
    if choice == "id" then Some(k) else None
  }

  /** What `np.argsort(p)` promises: a permutation of the indices of `p` listing them by ascending p-value. */
  predicate SortsAscending(p: seq<real>, perm: seq<nat>) {
    && |perm| == |p|
    && IsPermutation(perm)
    && forall k :: 0 <= k < |perm| - 1 ==> p[perm[k]] <= p[perm[k + 1]]
  }

  /** `argsort` sorts every vector it is given; its tie-break is left open. */
  ghost predicate IsArgsort(argsort: seq<real> -> seq<nat>) {
    forall q :: SortsAscending(q, argsort(q))
  }

  /** The rejection threshold of the 1-based rank `rank` among `n` tests at level `alpha`. */
  function Threshold(rank: int, alpha: real, n: nat): real
    requires n > 0
  {
    rank as real * (alpha / n as real)
  }

  /**
   * `p_vals[sorted_inds] <= reshape_func(arange(1, n+1)) * (alpha / n)`:
   * the decisions in sorted order.
   */
  function SortedRejections(p: seq<real>, alpha: real, sortedInds: seq<nat>): (r: seq<bool>)
    requires |p| > 0 && |sortedInds| == |p| && IsPermutation(sortedInds)
    ensures |r| == |p|
    ensures forall k :: 0 <= k < |p| ==> (r[k] <==> p[sortedInds[k]] <= Threshold(k + 1, alpha, |p|))
  {
    var n := |p|;
    var sortedP := Gather(p, sortedInds);
    var ranks := ReshapeFunc(Arange(1, n + 1)).value;
    seq(n, k requires 0 <= k < n => sortedP[k] <= ranks[k] as real * (alpha / n as real))
  }

  /**
   * The reference definition of the test, in input order: entry `i` is
   * rejected iff its p-value is at most its 1-based rank times alpha / n.
   */
  function LocalBH(p: seq<real>, alpha: real, perm: seq<nat>): (r: seq<bool>)
    requires |p| > 0 && |perm| == |p| && IsPermutation(perm)
    ensures |r| == |p|
    ensures forall k :: 0 <= k < |p| ==> (r[perm[k]] <==> p[perm[k]] <= Threshold(k + 1, alpha, |p|))
  {
    seq(|p|, i requires 0 <= i < |p| => p[i] <= Threshold(Rank(perm, i) + 1, alpha, |p|))
  }

  /** `BH(p_vals, alpha)`, with `np.argsort` supplied as `argsort`. */
  method BH(pVals: seq<real>, alpha: real, argsort: seq<real> -> seq<nat>) returns (reject: seq<bool>)
    requires |pVals| > 0
    requires SortsAscending(pVals, argsort(pVals))
    ensures |reject| == |pVals|
    ensures forall i :: 0 <= i < |pVals| ==>
              (reject[i] <==> pVals[i] <= Threshold(Rank(argsort(pVals), i) + 1, alpha, |pVals|))
    ensures reject == LocalBH(pVals, alpha, argsort(pVals))
  {
    var n := |pVals|;
    var sortedInds := argsort(pVals);
    var ifreject := SortedRejections(pVals, alpha, sortedInds);
    var reverseInds := Invert(sortedInds);
    reject := Gather(ifreject, reverseInds);
    forall i | 0 <= i < n
      ensures reject[i] == LocalBH(pVals, alpha, sortedInds)[i]
    {
      assert sortedInds[reverseInds[i]] == i;
      assert reverseInds[i] == Rank(sortedInds, i);
    }
  }

  lemma ThresholdMonotone(rank: nat, alpha1: real, alpha2: real, n: nat)
    requires n > 0 && alpha1 <= alpha2
    ensures Threshold(rank, alpha1, n) <= Threshold(rank, alpha2, n)
  {
    assert alpha1 / n as real <= alpha2 / n as real;
  }

  /**
   * Raising the level never withdraws a rejection: with the same p-values and
   * the same sorting permutation, every entry rejected at `alpha1` is rejected
   * at `alpha2 >= alpha1`, because each entry is decided by its own comparison.
   */
  lemma LocalBHMonotoneInAlpha(p: seq<real>, alpha1: real, alpha2: real, perm: seq<nat>)
    requires |p| > 0 && |perm| == |p| && IsPermutation(perm)
    requires alpha1 <= alpha2
    ensures forall i :: 0 <= i < |p| && LocalBH(p, alpha1, perm)[i] ==> LocalBH(p, alpha2, perm)[i]
  {
    forall i | 0 <= i < |p|
      ensures LocalBH(p, alpha1, perm)[i] ==> LocalBH(p, alpha2, perm)[i]
    {
      ThresholdMonotone(Rank(perm, i) + 1, alpha1, alpha2, |p|);
    }
  }

  /**
   * Order equivariance: listing the p-values in another order `sigma`, and
   * sorting them by the correspondingly relabelled permutation, relabels the
   * decisions the same way.
   */
  lemma LocalBHEquivariant(p: seq<real>, q: seq<real>, sigma: seq<nat>, alpha: real,
                           perm: seq<nat>, permQ: seq<nat>)
    requires |p| > 0 && |perm| == |p| && IsPermutation(perm)
    requires |sigma| == |p| && IsPermutation(sigma)
    requires |q| == |p| && forall j :: 0 <= j < |q| ==> q[j] == p[sigma[j]]
    requires |permQ| == |q| && IsPermutation(permQ)
    requires forall k :: 0 <= k < |p| ==> sigma[permQ[k]] == perm[k]
    ensures forall j :: 0 <= j < |q| ==> LocalBH(q, alpha, permQ)[j] == LocalBH(p, alpha, perm)[sigma[j]]
  {
    forall j | 0 <= j < |q|
      ensures LocalBH(q, alpha, permQ)[j] == LocalBH(p, alpha, perm)[sigma[j]]
    {
      var k := Rank(permQ, j);
      assert perm[k] == sigma[j];
      RankOfAt(perm, k);
    }
  }

  /**
   * The pointwise rule is not the step-up procedure: of the p-values 0.03 and
   * 0.04 at level 0.05, the larger one is rejected and the smaller one is not.
   */
  lemma PointwiseRuleExample()
    ensures LocalBH([0.03, 0.04], 0.05, [0, 1]) == [false, true]
  {
    assert Rank([0, 1], 0) == 0;
    assert Rank([0, 1], 1) == 1;
  }

  /**
   * Tied p-values can be decided differently, and which of them is rejected
   * depends on the tie-break of the sort.
   */
  lemma TieBreakDecides()
    ensures LocalBH([0.03, 0.03], 0.05, [0, 1]) == [false, true]
    ensures LocalBH([0.03, 0.03], 0.05, [1, 0]) == [true, false]
  {
    assert Rank([0, 1], 0) == 0;
    assert Rank([0, 1], 1) == 1;
    assert Rank([1, 0], 0) == 1;
    assert Rank([1, 0], 1) == 0;
  }
}
