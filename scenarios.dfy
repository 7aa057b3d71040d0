/**
 * Worked instances of the procedure: the path graph 0 - 1 - 2 - 3 with
 * one-hop neighbourhoods, and a node with a self-loop. The self-loop lists
 * its node twice, so the merge, whose writes the model takes in order, keeps
 * the last occurrence's decision rather than the OR of both.
 */
module Scenarios {
  import opened Vectors
  import opened Permutations
  import opened BHTest
  import opened Neighbourhoods
  import opened GeneralizedBH

  /** The undirected path 0 - 1 - 2 - 3, each edge listed from both ends. */
  function PathGraph(): (g: seq<seq<nat>>)
    ensures ValidGraph(g)
  {
    [[1], [0, 2], [1, 3], [2]]
  }

  /** The path graph with p-values 0.01, 0.04, 0.03, 0.20 at level 0.05 and one-hop neighbourhoods. */
  function PathInstance(argsort: seq<real> -> seq<nat>): Instance {
    Instance(PathGraph(), [0.01, 0.04, 0.03, 0.20], 0.05, OneHop, argsort)
  }

  lemma PathValid(argsort: seq<real> -> seq<nat>)
    requires IsArgsort(argsort)
    ensures Valid(PathInstance(argsort))
  {
    OneHopValid(PathGraph());
  }

  /** Two distinct p-values have one ascending order. */
  lemma SortTwo(q: seq<real>, s: seq<nat>)
    requires |q| == 2 && q[0] != q[1] && SortsAscending(q, s)
    ensures s == if q[0] < q[1] then [0, 1] else [1, 0]
  {
    assert s == [s[0], s[1]];
    assert s[0] < 2 && s[1] < 2 && s[0] != s[1];
    assert q[s[0]] <= q[s[1]];
  }

  /** A sorting permutation of three entries, position by position. */
  lemma SortThree(q: seq<real>, s: seq<nat>)
    requires |q| == 3 && SortsAscending(q, s)
    ensures s == [s[0], s[1], s[2]]
    ensures s[0] < 3 && s[1] < 3 && s[2] < 3 && s[0] != s[1] && s[0] != s[2] && s[1] != s[2]
    ensures q[s[0]] <= q[s[1]] <= q[s[2]]
  {
  }

  lemma SortThreeIncreasing(s: seq<nat>)
    requires SortsAscending([0.01, 0.03, 0.04], s)
    ensures s == [0, 1, 2]
  {
    SortThree([0.01, 0.03, 0.04], s);
  }

  lemma SortThreeRotated(s: seq<nat>)
    requires SortsAscending([0.04, 0.20, 0.03], s)
    ensures s == [2, 0, 1]
  {
    SortThree([0.04, 0.20, 0.03], s);
  }

  /** Node `i`'s local decisions, once its p-values, their order and its level are known. */
  lemma LocalRejectionIs(inst: Instance, i: nat, nbhd: seq<nat>, q: seq<real>, s: seq<nat>, a: real)
    requires Valid(inst) && i < |inst.graph|
    requires nbhd == Nbhd(inst, i) && q == Gather(inst.pVals, nbhd) && s == inst.argsort(q)
    requires a == LocalAlpha(inst.alpha, |nbhd|, |inst.graph|)
    ensures |q| > 0 && |s| == |q| && IsPermutation(s)
    ensures LocalRejection(inst, i) == LocalBH(q, a, s)
  {
    assert SortsAscending(q, s);
  }

  /** Node 0: neighbourhood [1, 0], level 0.025; only node 0 (p = 0.01 <= 0.0125) is rejected. */
  lemma PathNode0(argsort: seq<real> -> seq<nat>)
    requires IsArgsort(argsort)
    ensures Valid(PathInstance(argsort))
    ensures Nbhd(PathInstance(argsort), 0) == [1, 0]
    ensures LocalRejection(PathInstance(argsort), 0) == [false, true]
  {
    PathValid(argsort);
    var q := Gather([0.01, 0.04, 0.03, 0.20], [1, 0]);
    assert q == [0.04, 0.01];
    SortTwo(q, argsort(q));
    assert LocalAlpha(0.05, 2, 4) == 0.025;
    LocalRejectionIs(PathInstance(argsort), 0, [1, 0], q, [1, 0], 0.025);
    assert Rank([1, 0], 0) == 1 && Rank([1, 0], 1) == 0;
  }

  /** Node 1: neighbourhood [0, 2, 1], level 0.0375; only node 0 (p = 0.01 <= 0.0125) is rejected. */
  lemma PathNode1(argsort: seq<real> -> seq<nat>)
    requires IsArgsort(argsort)
    ensures Valid(PathInstance(argsort))
    ensures Nbhd(PathInstance(argsort), 1) == [0, 2, 1]
    ensures LocalRejection(PathInstance(argsort), 1) == [true, false, false]
  {
    PathValid(argsort);
    var q := Gather([0.01, 0.04, 0.03, 0.20], [0, 2, 1]);
    assert q == [0.01, 0.03, 0.04];
    SortThreeIncreasing(argsort(q));
    assert LocalAlpha(0.05, 3, 4) == 0.0375;
    LocalRejectionIs(PathInstance(argsort), 1, [0, 2, 1], q, [0, 1, 2], 0.0375);
    assert Rank([0, 1, 2], 0) == 0 && Rank([0, 1, 2], 1) == 1 && Rank([0, 1, 2], 2) == 2;
  }

  /** Node 2: neighbourhood [1, 3, 2], level 0.0375; nothing is rejected. */
  lemma PathNode2(argsort: seq<real> -> seq<nat>)
    requires IsArgsort(argsort)
    ensures Valid(PathInstance(argsort))
    ensures Nbhd(PathInstance(argsort), 2) == [1, 3, 2]
    ensures LocalRejection(PathInstance(argsort), 2) == [false, false, false]
  {
    PathValid(argsort);
    var q := Gather([0.01, 0.04, 0.03, 0.20], [1, 3, 2]);
    assert q == [0.04, 0.20, 0.03];
    SortThreeRotated(argsort(q));
    assert LocalAlpha(0.05, 3, 4) == 0.0375;
    LocalRejectionIs(PathInstance(argsort), 2, [1, 3, 2], q, [2, 0, 1], 0.0375);
    assert Rank([2, 0, 1], 0) == 1 && Rank([2, 0, 1], 1) == 2 && Rank([2, 0, 1], 2) == 0;
  }

  /** Node 3: neighbourhood [2, 3], level 0.025; nothing is rejected. */
  lemma PathNode3(argsort: seq<real> -> seq<nat>)
    requires IsArgsort(argsort)
    ensures Valid(PathInstance(argsort))
    ensures Nbhd(PathInstance(argsort), 3) == [2, 3]
    ensures LocalRejection(PathInstance(argsort), 3) == [false, false]
  {
    PathValid(argsort);
    var q := Gather([0.01, 0.04, 0.03, 0.20], [2, 3]);
    assert q == [0.03, 0.20];
    SortTwo(q, argsort(q));
    assert LocalAlpha(0.05, 2, 4) == 0.025;
    LocalRejectionIs(PathInstance(argsort), 3, [2, 3], q, [0, 1], 0.025);
    assert Rank([0, 1], 0) == 0 && Rank([0, 1], 1) == 1;
  }

  /** Which node's local test rejects which node on the path graph. */
  lemma PathRejects(argsort: seq<real> -> seq<nat>, i: nat, k: nat)
    requires IsArgsort(argsort) && i < 4
    ensures Valid(PathInstance(argsort))
    ensures Rejects(PathInstance(argsort), i, k) <==> k == 0 && i <= 1
  {
    PathNode0(argsort);
    PathNode1(argsort);
    PathNode2(argsort);
    PathNode3(argsort);
    var inst := PathInstance(argsort);
    if k in Nbhd(inst, i) {
      var last := LastIndex(Nbhd(inst, i), k);
      if i == 0 {
        assert k == 0 ==> last == 1;
      } else if i == 1 {
        assert k == 0 ==> last == 0;
      }
    }
  }

  /**
   * On the path graph exactly node 0 is rejected, whatever tie-break the sort
   * uses (the p-values of every neighbourhood are distinct).
   */
  lemma PathGraphResult(argsort: seq<real> -> seq<nat>)
    requires IsArgsort(argsort)
    ensures Valid(PathInstance(argsort))
    ensures GeneralizedBHResult(PathInstance(argsort)) == [true, false, false, false]
  {
    PathValid(argsort);
    var inst := PathInstance(argsort);
    var nodes := Range(4);
    var r := GeneralizedBHResult(inst);
    forall k | 0 <= k < 4
      ensures r[k] <==> k == 0
    {
      RunNodesAt(inst, nodes, k);
      forall j | 0 <= j < 4
        ensures Rejects(inst, nodes[j], k) <==> k == 0 && j <= 1
      {
        PathRejects(argsort, j, k);
      }
      if k == 0 {
        assert Rejects(inst, nodes[0], k);
      }
    }
  }

  /** Two entries are sorted one way or the other. */
  lemma SortTwoTied(q: seq<real>, s: seq<nat>)
    requires |q| == 2 && SortsAscending(q, s)
    ensures s == [0, 1] || s == [1, 0]
  {
    assert s == [s[0], s[1]];
    assert s[0] < 2 && s[1] < 2 && s[0] != s[1];
  }

  /** The one-node graph with a self-loop, p-value 0.04, level 0.03, one-hop neighbourhoods. */
  function SelfLoopInstance(argsort: seq<real> -> seq<nat>): Instance {
    Instance([[0]], [0.04], 0.03, OneHop, argsort)
  }

  /** Node 0's neighbourhood and its local decisions in the self-loop instance. */
  lemma SelfLoopNode(argsort: seq<real> -> seq<nat>)
    requires IsArgsort(argsort)
    ensures Valid(SelfLoopInstance(argsort))
    ensures Nbhd(SelfLoopInstance(argsort), 0) == [0, 0]
    ensures LocalRejection(SelfLoopInstance(argsort), 0) ==
              if argsort([0.04, 0.04]) == [0, 1] then [false, true] else [true, false]
  {
    var inst := SelfLoopInstance(argsort);
    OneHopValid([[0]]);
    var q := Gather([0.04], [0, 0]);
    assert q == [0.04, 0.04];
    var s := argsort(q);
    SortTwoTied(q, s);
    SelfLoopLocal();
    LocalRejectionIs(inst, 0, [0, 0], q, s, LocalAlpha(0.03, 2, 1));
  }

  /**
   * The whole procedure on a node with a self-loop. Its p-value 0.04 passes
   * the local level 0.06 at rank 2 only, and only one of its two entries gets
   * rank 2. The node ends rejected exactly when the sort puts the second entry
   * last, since the merge keeps the last occurrence's decision.
   */
  lemma SelfLoopResult(argsort: seq<real> -> seq<nat>)
    requires IsArgsort(argsort)
    ensures Valid(SelfLoopInstance(argsort))
    ensures GeneralizedBHResult(SelfLoopInstance(argsort)) == [argsort([0.04, 0.04]) == [0, 1]]
  {
    var inst := SelfLoopInstance(argsort);
    SelfLoopNode(argsort);
    var r := GeneralizedBHResult(inst);
    RunNodesAt(inst, Range(1), 0);
    assert Range(1)[0] == 0;
    assert LastIndex([0, 0], 0) == 1;
    assert r == [r[0]];
  }

  /** The local test on a self-loop's two equal p-values, under each of the two tie-breaks. */
  lemma SelfLoopLocal()
    ensures SortsAscending([0.04, 0.04], [1, 0]) && SortsAscending([0.04, 0.04], [0, 1])
    ensures LocalBH([0.04, 0.04], LocalAlpha(0.03, 2, 1), [1, 0]) == [true, false]
    ensures LocalBH([0.04, 0.04], LocalAlpha(0.03, 2, 1), [0, 1]) == [false, true]
  {
    assert LocalAlpha(0.03, 2, 1) == 0.06;
    assert Rank([1, 0], 0) == 1 && Rank([1, 0], 1) == 0;
    assert Rank([0, 1], 0) == 0 && Rank([0, 1], 1) == 1;
  }

  /** Merging two decisions for the same index keeps the second. */
  lemma SelfLoopMerge(local: seq<bool>)
    requires |local| == 2
    ensures Merge([false], [0, 0], local) == [local[1]]
  {
    MergeAt([false], [0, 0], local, 0);
    assert LastIndex([0, 0], 0) == 1;
  }

  /**
   * A self-loop lists node 0 twice in its own neighbourhood. Both entries
   * carry the same p-value, the sort's tie-break decides which of them gets
   * rank 1, and the merge keeps the decision of the last entry: with one
   * order node 0 ends rejected, with the other it does not, although in both
   * one of its two entries was rejected.
   */
  lemma SelfLoopLastWriteWins()
    ensures Get1Neighbours([[0]], 0) == [0, 0]
    ensures SortsAscending([0.04, 0.04], [1, 0]) && SortsAscending([0.04, 0.04], [0, 1])
    ensures LocalBH([0.04, 0.04], LocalAlpha(0.03, 2, 1), [1, 0]) == [true, false]
    ensures LocalBH([0.04, 0.04], LocalAlpha(0.03, 2, 1), [0, 1]) == [false, true]
    ensures Merge([false], [0, 0], [true, false]) == [false]
    ensures Merge([false], [0, 0], [false, true]) == [true]
  {
    SelfLoopLocal();
    SelfLoopMerge([true, false]);
    SelfLoopMerge([false, true]);
  }
}
