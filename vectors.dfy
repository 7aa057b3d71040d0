/**
 * The NumPy vector primitives the algorithm is written with, on sequences:
 * `np.arange`, fancy indexing `a[inds]`, `np.logical_or`, and fancy
 * assignment `a[inds] = vals`. NumPy does not promise an order for the
 * writes of a fancy assignment whose indices repeat; the model takes them in
 * order, so that when an index occurs more than once the last write wins,
 * which is what NumPy does on one-dimensional arrays.
 */
module Vectors {

  /** `np.arange(lo, hi)`: the integers lo, lo+1, ..., hi-1. */
  function Arange(lo: int, hi: int): (r: seq<int>)
    ensures |r| == if lo <= hi then hi - lo else 0
    ensures forall k :: 0 <= k < |r| ==> r[k] == lo + k
    ensures forall v :: v in r <==> lo <= v < hi
    decreases hi - lo
  {
    if lo < hi then [lo] + Arange(lo + 1, hi) else []
  }

  /** Every entry of `inds` is a valid index into a vector of length `n`. */
  predicate IndicesBelow(inds: seq<nat>, n: nat) {
    forall p :: 0 <= p < |inds| ==> inds[p] < n
  }

  /** Fancy indexing `a[inds]`. */
  function Gather<T>(a: seq<T>, inds: seq<nat>): (r: seq<T>)
    requires IndicesBelow(inds, |a|)
    ensures |r| == |inds|
    ensures forall p :: 0 <= p < |inds| ==> r[p] == a[inds[p]]
  {
    seq(|inds|, p requires 0 <= p < |inds| => a[inds[p]])
  }

  /** `np.logical_or(a, b)` on two vectors of the same length. */
  function LogicalOr(a: seq<bool>, b: seq<bool>): (r: seq<bool>)
    requires |a| == |b|
    ensures |r| == |a|
    ensures forall p :: 0 <= p < |a| ==> (r[p] <==> a[p] || b[p])
  {
    seq(|a|, p requires 0 <= p < |a| => a[p] || b[p])
  }

  /** The last position at which `i` occurs in `s`. */
  function LastIndex(s: seq<nat>, i: nat): (r: nat)
    requires i in s
    ensures r < |s| && s[r] == i
    ensures forall q :: r < q < |s| ==> s[q] != i
  {
    if s[|s| - 1] == i then |s| - 1 else LastIndex(s[..|s| - 1], i)
  }

  /** The first `m` writes of the fancy assignment `a[inds] = vals`. */
  function Scatter<T>(a: seq<T>, inds: seq<nat>, vals: seq<T>, m: nat): (r: seq<T>)
    requires m <= |inds| == |vals|
    requires IndicesBelow(inds, |a|)
    ensures |r| == |a|
  {
    if m == 0 then a else Scatter(a, inds, vals, m - 1)[inds[m - 1] := vals[m - 1]]
  }

  /**
   * After the first `m` writes, an index holds the value of its last write,
   * and an index not written keeps its old value.
   */
  lemma {:induction false} ScatterAt<T>(a: seq<T>, inds: seq<nat>, vals: seq<T>, m: nat, k: nat)
    requires m <= |inds| == |vals|
    requires IndicesBelow(inds, |a|)
    requires k < |a|
    ensures Scatter(a, inds, vals, m)[k] ==
              if k in inds[..m] then vals[LastIndex(inds[..m], k)] else a[k]
  {
    if m > 0 {
      ScatterAt(a, inds, vals, m - 1, k);
      assert inds[..m][..m - 1] == inds[..m - 1];
      assert inds[..m] == inds[..m - 1] + [inds[m - 1]];
    }
  }
}
