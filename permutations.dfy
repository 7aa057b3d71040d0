/**
 * Index permutations of 0..n-1, the shape of what `np.argsort` returns,
 * and the inverse-permutation scatter `reverse_inds[sorted_inds] = arange(n)`
 * that the BH test uses to map sorted-order decisions back to input order.
 */
module Permutations {

  /** `s` holds each of 0..|s|-1 at most once (and hence, by PermutationOnto, exactly once). */
  predicate IsPermutation(s: seq<nat>) {
    && (forall k :: 0 <= k < |s| ==> s[k] < |s|)
    && (forall k, l :: 0 <= k < l < |s| ==> s[k] != s[l])
  }

  /** The first position at which `i` occurs in `s`. */
  function IndexOf(s: seq<nat>, i: nat): (k: nat)
    requires i in s
    ensures k < |s| && s[k] == i
    ensures forall l :: 0 <= l < k ==> s[l] != i
  {
    if s[0] == i then 0 else 1 + IndexOf(s[1..], i)
  }

  /** The values at the first `m` positions of `s`. */
  function Image(s: seq<nat>, m: nat): set<nat>
    requires m <= |s|
  {
    set k | 0 <= k < m :: s[k]
  }

  /** The numbers 0..n-1 as a set. */
  function Below(n: nat): (r: set<nat>)
    ensures forall i: nat :: i in r <==> i < n
    ensures |r| == n
  {
    if n == 0 then {} else Below(n - 1) + {n - 1}
  }

  lemma {:induction false} ImageCard(s: seq<nat>, m: nat)
    requires m <= |s|
    requires forall k, l :: 0 <= k < l < |s| ==> s[k] != s[l]
    ensures |Image(s, m)| == m
  {
    if m > 0 {
      ImageCard(s, m - 1);
      assert Image(s, m) == Image(s, m - 1) + {s[m - 1]};
      assert s[m - 1] !in Image(s, m - 1);
    }
  }

  lemma {:induction false} SubsetCard(a: set<nat>, b: set<nat>)
    requires a <= b
    ensures |a| <= |b|
    decreases |b|
  {
    if a != {} {
      var e :| e in a;
      SubsetCard(a - {e}, b - {e});
    }
  }

  /**
   * Pigeonhole: an injective map of 0..n-1 into 0..n-1 is onto, so every index
   * has a position in a permutation.
   */
  lemma PermutationOnto(s: seq<nat>)
    requires IsPermutation(s)
    ensures forall i :: 0 <= i < |s| ==> i in s
  {
    var n := |s|;
    ImageCard(s, n);
    assert Image(s, n) <= Below(n);
    forall i | 0 <= i < n
      ensures i in s
    {
      if i !in s {
        assert i !in Image(s, n);
        assert Image(s, n) <= Below(n) - {i};
        SubsetCard(Image(s, n), Below(n) - {i});
        assert false;
      }
    }
  }

  /** The sorted position of index `i` in the permutation `s`. */
  function Rank(s: seq<nat>, i: nat): (k: nat)
    requires IsPermutation(s) && i < |s|
    ensures k < |s| && s[k] == i
  {
    PermutationOnto(s);
    IndexOf(s, i)
  }

  /** Two positions holding the same index of a permutation are the same position. */
  lemma RankOfAt(s: seq<nat>, k: nat)
    requires IsPermutation(s) && k < |s|
    ensures Rank(s, s[k]) == k
  {
  }

  /**
   * `reverse_inds = zeros(n); reverse_inds[sorted_inds] = arange(n)`:
   * the scatter that inverts the permutation `s`.
   */
  method Invert(s: seq<nat>) returns (inv: seq<nat>)
    requires IsPermutation(s)
    ensures |inv| == |s|
    ensures forall k :: 0 <= k < |s| ==> inv[s[k]] == k
    ensures forall i :: 0 <= i < |s| ==> inv[i] < |s| && s[inv[i]] == i
  {
    var reverse := new nat[|s|](_ => 0);
    for k := 0 to |s|
      invariant forall l :: 0 <= l < k ==> reverse[s[l]] == l
    {
      reverse[s[k]] := k;
    }
    inv := reverse[..];
    forall i | 0 <= i < |s|
      ensures inv[i] < |s| && s[inv[i]] == i
    {
      var k := Rank(s, i);
      assert inv[s[k]] == k;
    }
  }

  /** The inverse computed by Invert is itself a permutation. */
  lemma InverseIsPermutation(s: seq<nat>, inv: seq<nat>)
    requires IsPermutation(s) && |inv| == |s|
    requires forall k :: 0 <= k < |s| ==> inv[s[k]] == k
    ensures IsPermutation(inv)
    ensures forall i :: 0 <= i < |s| ==> inv[i] == Rank(s, i)
  {
    forall i | 0 <= i < |s|
      ensures inv[i] == Rank(s, i)
    {
      var k := Rank(s, i);
      assert inv[s[k]] == k;
    }
    forall k, l | 0 <= k < l < |inv|
      ensures inv[k] != inv[l]
    {
      assert s[Rank(s, k)] == k && s[Rank(s, l)] == l;
    }
  }
}
