/**
 * `generalized_BH_original(graph, p_vals, alpha, get_nbhd)`: for every node i
 * in turn, take its neighbourhood, run the BH test on the p-values of that
 * neighbourhood at the level alpha * |nbhd| / num_nodes, and OR the local
 * decisions into a reject vector that starts all False. The merge is the
 * NumPy statement `ifreject[nbhd] = logical_or(ifreject[nbhd], local)`: its
 * right-hand side is read before any write. The model then takes the writes
 * in order, so an index listed twice keeps the value of its last write; NumPy
 * itself does not promise an order for repeated indices. Reading the merge as
 * an OR over every occurrence is guaranteed only when the indices are
 * distinct (`GeneralizedBHDistinct`).
 */
module GeneralizedBH {
  import opened Vectors
  import opened Permutations
  import opened BHTest
  import opened Neighbourhoods

  /**
   * The `get_nbhd` argument: `get_1_neighbours`, or `get_c_neighbours` with
   * the radius and the grid dimensions bound in advance.
   */
  datatype Provider = OneHop | CNeighbours(c: int, upper: nat, right: nat)

  /**
   * `get_nbhd(graph, i)` for node `i` of the graph. Either provider puts the
   * node in its own neighbourhood: the one-hop one last, after its
   * out-neighbours, and the grid one whenever the radius is non-negative and
   * the node lies in the grid.
   */
  function GetNbhd(get: Provider, graph: seq<seq<nat>>, i: nat): (nbhd: seq<nat>)
    requires i < |graph|
    ensures get.OneHop? ==> |nbhd| == |graph[i]| + 1 && nbhd[|graph[i]|] == i
    ensures get.CNeighbours? && 0 <= get.c && i < (get.upper + 1) * (get.right + 1) ==> i in nbhd
  {
    match get
    case OneHop => Get1Neighbours(graph, i)
    case CNeighbours(c, upper, right) =>
      if 0 <= c && i < (upper + 1) * (right + 1) then
        CNeighboursContainsSelf(i, c, upper, right);
        GetCNeighbours(i, c, upper, right)
      else
        GetCNeighbours(i, c, upper, right)
  }

  /** Every out-neighbour listed in the adjacency is a node of the graph. */
  predicate ValidGraph(graph: seq<seq<nat>>) {
    forall i, p :: 0 <= i < |graph| && 0 <= p < |graph[i]| ==> graph[i][p] < |graph|
  }

  /**
   * What the loop needs of the provider: each node's neighbourhood is
   * non-empty (the local level divides by its size) and lists nodes of the
   * graph only (it indexes the reject vector).
   */
  predicate ValidNbhds(get: Provider, graph: seq<seq<nat>>) {
    forall i :: 0 <= i < |graph| ==>
      |GetNbhd(get, graph, i)| > 0 && IndicesBelow(GetNbhd(get, graph, i), |graph|)
  }

  /** The arguments of one call, with `np.argsort` supplied as `argsort`. */
  datatype Instance = Instance(
    graph: seq<seq<nat>>,
    pVals: seq<real>,
    alpha: real,
    get: Provider,
    argsort: seq<real> -> seq<nat>)

  /** There is a p-value for every node, the neighbourhoods are valid, and `argsort` sorts. */
  ghost predicate Valid(inst: Instance) {
    && ValidNbhds(inst.get, inst.graph)
    && |inst.graph| <= |inst.pVals|
    && IsArgsort(inst.argsort)
  }

  /** `alpha * len(nbhd_nodes) / float(num_nodes)`: the level of a local test. */
  function LocalAlpha(alpha: real, size: nat, numNodes: nat): (a: real)
    requires numNodes > 0
    ensures 0.0 <= alpha ==> 0.0 <= a
    ensures size <= numNodes && 0.0 <= alpha ==> a <= alpha
  {
    var a := alpha * size as real / numNodes as real;
    assert a == alpha * (size as real / numNodes as real);
    a
  }

  lemma LocalAlphaMonotone(alpha1: real, alpha2: real, size: nat, numNodes: nat)
    requires numNodes > 0 && alpha1 <= alpha2
    ensures LocalAlpha(alpha1, size, numNodes) <= LocalAlpha(alpha2, size, numNodes)
  {
    var f := size as real / numNodes as real;
    assert 0.0 <= f;
    assert 0.0 <= (alpha2 - alpha1) * f;
    assert LocalAlpha(alpha1, size, numNodes) == alpha1 * f;
    assert LocalAlpha(alpha2, size, numNodes) == alpha2 * f;
    assert alpha2 * f - alpha1 * f == (alpha2 - alpha1) * f;
  }

  /** The neighbourhood of node `i`. */
  function Nbhd(inst: Instance, i: nat): seq<nat>
    requires i < |inst.graph|
  {
    GetNbhd(inst.get, inst.graph, i)
  }

  /** `BH(p_vals[nbhd_nodes], alpha * len(nbhd_nodes) / num_nodes)` for node `i`, aligned with its neighbourhood. */
  function LocalRejection(inst: Instance, i: nat): (r: seq<bool>)
    requires Valid(inst) && i < |inst.graph|
    ensures |r| == |Nbhd(inst, i)|
  {
    var nbhd := Nbhd(inst, i);
    var q := Gather(inst.pVals, nbhd);
    assert SortsAscending(q, inst.argsort(q));
    LocalBH(q, LocalAlpha(inst.alpha, |nbhd|, |inst.graph|), inst.argsort(q))
  }

  /** `ifreject[nbhd] = np.logical_or(ifreject[nbhd], local)`. */
  function Merge(reject: seq<bool>, nbhd: seq<nat>, local: seq<bool>): (r: seq<bool>)
    requires IndicesBelow(nbhd, |reject|) && |local| == |nbhd|
    ensures |r| == |reject|
  {
    Scatter(reject, nbhd, LogicalOr(Gather(reject, nbhd), local), |nbhd|)
  }

  /**
   * After the merge, an index of the neighbourhood holds its old value OR the
   * local decision at its last occurrence; every other index is unchanged.
   */
  lemma MergeAt(reject: seq<bool>, nbhd: seq<nat>, local: seq<bool>, k: nat)
    requires IndicesBelow(nbhd, |reject|) && |local| == |nbhd| && k < |reject|
    ensures Merge(reject, nbhd, local)[k] ==
              if k in nbhd then reject[k] || local[LastIndex(nbhd, k)] else reject[k]
  {
    var merged := LogicalOr(Gather(reject, nbhd), local);
    ScatterAt(reject, nbhd, merged, |nbhd|, k);
    assert nbhd[..|nbhd|] == nbhd;
  }

  /** One loop iteration only sets entries, and only entries its neighbourhood lists. */
  lemma MergeOnlySets(reject: seq<bool>, nbhd: seq<nat>, local: seq<bool>)
    requires IndicesBelow(nbhd, |reject|) && |local| == |nbhd|
    ensures forall k :: 0 <= k < |reject| && reject[k] ==> Merge(reject, nbhd, local)[k]
    ensures forall k :: 0 <= k < |reject| && k !in nbhd ==> Merge(reject, nbhd, local)[k] == reject[k]
  {
    forall k | 0 <= k < |reject|
      ensures reject[k] ==> Merge(reject, nbhd, local)[k]
      ensures k !in nbhd ==> Merge(reject, nbhd, local)[k] == reject[k]
    {
      MergeAt(reject, nbhd, local, k);
    }
  }

  /** No index occurs twice in `s`. */
  predicate Distinct(s: seq<nat>) {
    forall p, q :: 0 <= p < q < |s| ==> s[p] != s[q]
  }

  /** With distinct indices the merge is the OR of the old value and the local decision at the index's position. */
  lemma MergeDistinct(reject: seq<bool>, nbhd: seq<nat>, local: seq<bool>, k: nat)
    requires IndicesBelow(nbhd, |reject|) && |local| == |nbhd| && k < |reject|
    requires Distinct(nbhd)
    ensures Merge(reject, nbhd, local)[k] <==>
              reject[k] || exists p :: 0 <= p < |nbhd| && nbhd[p] == k && local[p]
  {
    MergeAt(reject, nbhd, local, k);
    if k in nbhd {
      var last := LastIndex(nbhd, k);
      forall p | 0 <= p < |nbhd| && nbhd[p] == k
        ensures p == last
      {
      }
    }
  }

  /** The valid node indices of the graph. */
  predicate NodesOf(inst: Instance, nodes: seq<nat>) {
    forall j :: 0 <= j < |nodes| ==> nodes[j] < |inst.graph|
  }

  /** `np.array([False] * n)`. */
  function AllFalse(n: nat): (r: seq<bool>)
    ensures |r| == n && forall k :: 0 <= k < n ==> !r[k]
  {
    seq(n, _ => false)
  }

  /** The reject vector after the loop body has run for `nodes`, in that order. */
  function RunNodes(inst: Instance, nodes: seq<nat>): (r: seq<bool>)
    requires Valid(inst) && NodesOf(inst, nodes)
    ensures |r| == |inst.graph|
    decreases |nodes|
  {
    if nodes == [] then AllFalse(|inst.graph|)
    else
      var i := nodes[|nodes| - 1];
      Merge(RunNodes(inst, nodes[..|nodes| - 1]), Nbhd(inst, i), LocalRejection(inst, i))
  }

  /** `xrange(m)`: the nodes 0, 1, ..., m-1. */
  function Range(m: nat): (r: seq<nat>)
    ensures |r| == m
    ensures forall j :: 0 <= j < m ==> r[j] == j
  {
    if m == 0 then [] else Range(m - 1) + [m - 1]
  }

  /** The result of `generalized_BH_original`: the loop run over every node in index order. */
  function GeneralizedBHResult(inst: Instance): (r: seq<bool>)
    requires Valid(inst)
    ensures |r| == |inst.graph|
  {
    RunNodes(inst, Range(|inst.graph|))
  }

  /**
   * Node `i`'s local test rejects node `k`: `k` is in `i`'s neighbourhood and
   * the decision at its last occurrence there, the one the merge keeps, is True.
   */
  predicate Rejects(inst: Instance, i: nat, k: nat)
    requires Valid(inst) && i < |inst.graph|
  {
    k in Nbhd(inst, i) && LocalRejection(inst, i)[LastIndex(Nbhd(inst, i), k)]
  }

  /** The last node of a run ORs its own local decision for `k` into what the earlier nodes left. */
  lemma RunNodesLast(inst: Instance, nodes: seq<nat>, k: nat)
    requires Valid(inst) && NodesOf(inst, nodes) && nodes != [] && k < |inst.graph|
    ensures RunNodes(inst, nodes)[k] <==>
              RunNodes(inst, nodes[..|nodes| - 1])[k] || Rejects(inst, nodes[|nodes| - 1], k)
  {
    var i := nodes[|nodes| - 1];
    MergeAt(RunNodes(inst, nodes[..|nodes| - 1]), Nbhd(inst, i), LocalRejection(inst, i), k);
  }

  /** Some node of `nodes` has a local test that rejects node `k`. */
  predicate RejectedBy(inst: Instance, nodes: seq<nat>, k: nat)
    requires Valid(inst) && NodesOf(inst, nodes)
  {
    exists j :: 0 <= j < |nodes| && Rejects(inst, nodes[j], k)
  }

  lemma RejectedByPrefix(inst: Instance, nodes: seq<nat>, m: nat, k: nat)
    requires Valid(inst) && NodesOf(inst, nodes) && m <= |nodes|
    ensures RejectedBy(inst, nodes[..m], k) ==> RejectedBy(inst, nodes, k)
  {
    if RejectedBy(inst, nodes[..m], k) {
      var j :| 0 <= j < m && Rejects(inst, nodes[..m][j], k);
      assert nodes[j] == nodes[..m][j];
    }
  }

  lemma RejectedBySplit(inst: Instance, nodes: seq<nat>, k: nat)
    requires Valid(inst) && NodesOf(inst, nodes) && nodes != []
    ensures RejectedBy(inst, nodes, k) ==>
              RejectedBy(inst, nodes[..|nodes| - 1], k) || Rejects(inst, nodes[|nodes| - 1], k)
  {
    if RejectedBy(inst, nodes, k) {
      var j :| 0 <= j < |nodes| && Rejects(inst, nodes[j], k);
      if j < |nodes| - 1 {
        assert nodes[..|nodes| - 1][j] == nodes[j];
      }
    }
  }

  lemma RejectedByLast(inst: Instance, nodes: seq<nat>, k: nat)
    requires Valid(inst) && NodesOf(inst, nodes) && nodes != []
    ensures RejectedBy(inst, nodes, k) <==>
              RejectedBy(inst, nodes[..|nodes| - 1], k) || Rejects(inst, nodes[|nodes| - 1], k)
  {
    RejectedByPrefix(inst, nodes, |nodes| - 1, k);
    RejectedBySplit(inst, nodes, k);
  }

  /** After running `nodes`, node `k` is rejected iff one of those nodes' local tests rejects it. */
  lemma {:induction false} RunNodesAt(inst: Instance, nodes: seq<nat>, k: nat)
    requires Valid(inst) && NodesOf(inst, nodes) && k < |inst.graph|
    ensures RunNodes(inst, nodes)[k] <==> RejectedBy(inst, nodes, k)
    decreases |nodes|
  {
    if nodes != [] {
      RunNodesAt(inst, nodes[..|nodes| - 1], k);
      RunNodesLast(inst, nodes, k);
      RejectedByLast(inst, nodes, k);
    }
  }

  /**
   * The order of the loop does not matter: two runs over the same set of
   * nodes (in any order, with any repetitions) give the same reject vector.
   */
  lemma RunOrderIndependent(inst: Instance, nodes1: seq<nat>, nodes2: seq<nat>)
    requires Valid(inst) && NodesOf(inst, nodes1) && NodesOf(inst, nodes2)
    requires forall i :: i in nodes1 <==> i in nodes2
    ensures RunNodes(inst, nodes1) == RunNodes(inst, nodes2)
  {
    var r1, r2 := RunNodes(inst, nodes1), RunNodes(inst, nodes2);
    forall k | 0 <= k < |inst.graph|
      ensures r1[k] == r2[k]
    {
      RunNodesAt(inst, nodes1, k);
      RunNodesAt(inst, nodes2, k);
      if r1[k] {
        var j :| 0 <= j < |nodes1| && Rejects(inst, nodes1[j], k);
        assert nodes1[j] in nodes2;
        var j2 :| 0 <= j2 < |nodes2| && nodes2[j2] == nodes1[j];
      }
      if r2[k] {
        var j :| 0 <= j < |nodes2| && Rejects(inst, nodes2[j], k);
        assert nodes2[j] in nodes1;
        var j1 :| 0 <= j1 < |nodes1| && nodes1[j1] == nodes2[j];
      }
    }
  }

  /** The result is the same when the nodes are visited from last to first. */
  lemma ReverseOrderSameResult(inst: Instance, rev: seq<nat>)
    requires Valid(inst)
    requires |rev| == |inst.graph| && forall j :: 0 <= j < |rev| ==> rev[j] == |rev| - 1 - j
    ensures RunNodes(inst, rev) == GeneralizedBHResult(inst)
  {
    var fwd := Range(|inst.graph|);
    forall i ensures i in rev <==> i in fwd {
      if i in fwd {
        assert rev[|rev| - 1 - i] == i;
      }
      if i in rev {
        var j :| 0 <= j < |rev| && rev[j] == i;
        assert fwd[i] == i;
      }
    }
    RunOrderIndependent(inst, rev, fwd);
  }

  /**
   * When no neighbourhood lists an index twice, node `k` is finally rejected
   * iff some node's local test rejected the entry of its neighbourhood that
   * stands for `k`.
   */
  lemma GeneralizedBHDistinct(inst: Instance, k: nat)
    requires Valid(inst) && k < |inst.graph|
    requires forall i :: 0 <= i < |inst.graph| ==> Distinct(Nbhd(inst, i))
    ensures GeneralizedBHResult(inst)[k] <==>
              exists i, p :: 0 <= i < |inst.graph| && 0 <= p < |Nbhd(inst, i)| &&
                Nbhd(inst, i)[p] == k && LocalRejection(inst, i)[p]
  {
    var nodes := Range(|inst.graph|);
    RunNodesAt(inst, nodes, k);
    if GeneralizedBHResult(inst)[k] {
      var j :| 0 <= j < |nodes| && Rejects(inst, nodes[j], k);
      var i := nodes[j];
      var p := LastIndex(Nbhd(inst, i), k);
      assert Nbhd(inst, i)[p] == k && LocalRejection(inst, i)[p];
    } else {
      forall i, p | 0 <= i < |inst.graph| && 0 <= p < |Nbhd(inst, i)| && Nbhd(inst, i)[p] == k
        ensures !LocalRejection(inst, i)[p]
      {
        assert nodes[i] == i;
        assert !Rejects(inst, i, k);
        assert LastIndex(Nbhd(inst, i), k) == p;
      }
    }
  }

  /** A local test at a higher global level rejects everything it rejected before. */
  lemma RejectsMonotoneInAlpha(inst: Instance, alpha2: real, i: nat, k: nat)
    requires Valid(inst) && inst.alpha <= alpha2 && i < |inst.graph|
    ensures Valid(inst.(alpha := alpha2))
    ensures Rejects(inst, i, k) ==> Rejects(inst.(alpha := alpha2), i, k)
  {
    var inst2 := inst.(alpha := alpha2);
    var nbhd := Nbhd(inst, i);
    var q := Gather(inst.pVals, nbhd);
    assert SortsAscending(q, inst.argsort(q));
    LocalAlphaMonotone(inst.alpha, alpha2, |nbhd|, |inst.graph|);
    LocalBHMonotoneInAlpha(q, LocalAlpha(inst.alpha, |nbhd|, |inst.graph|),
                           LocalAlpha(alpha2, |nbhd|, |inst.graph|), inst.argsort(q));
    assert LocalRejection(inst, i) == LocalBH(q, LocalAlpha(inst.alpha, |nbhd|, |inst.graph|), inst.argsort(q));
    assert LocalRejection(inst2, i) == LocalBH(q, LocalAlpha(alpha2, |nbhd|, |inst.graph|), inst.argsort(q));
  }

  /**
   * Raising the global level never withdraws a rejection: with the same
   * graph, p-values, provider and sort, every node rejected at `alpha` is
   * rejected at any `alpha2 >= alpha`.
   */
  lemma GeneralizedBHMonotoneInAlpha(inst: Instance, alpha2: real)
    requires Valid(inst) && inst.alpha <= alpha2
    ensures Valid(inst.(alpha := alpha2))
    ensures forall k :: 0 <= k < |inst.graph| && GeneralizedBHResult(inst)[k] ==>
              GeneralizedBHResult(inst.(alpha := alpha2))[k]
  {
    var inst2 := inst.(alpha := alpha2);
    var nodes := Range(|inst.graph|);
    forall k | 0 <= k < |inst.graph| && GeneralizedBHResult(inst)[k]
      ensures GeneralizedBHResult(inst2)[k]
    {
      RunNodesAt(inst, nodes, k);
      RunNodesAt(inst2, nodes, k);
      var j :| 0 <= j < |nodes| && Rejects(inst, nodes[j], k);
      RejectsMonotoneInAlpha(inst, alpha2, nodes[j], k);
    }
  }

  /** One-hop neighbourhoods are valid exactly when the adjacency lists only nodes of the graph. */
  lemma OneHopValid(graph: seq<seq<nat>>)
    ensures ValidNbhds(OneHop, graph) <==> ValidGraph(graph)
  {
    if ValidNbhds(OneHop, graph) {
      forall i, p | 0 <= i < |graph| && 0 <= p < |graph[i]|
        ensures graph[i][p] < |graph|
      {
        assert GetNbhd(OneHop, graph, i)[p] == graph[i][p];
      }
    }
  }

  /**
   * Grid neighbourhoods are valid when the graph has exactly the
   * (upper + 1) * (right + 1) nodes of the grid and the radius is not negative.
   */
  lemma CNeighboursValid(graph: seq<seq<nat>>, c: int, upper: nat, right: nat)
    requires 0 <= c && |graph| == (upper + 1) * (right + 1)
    ensures ValidNbhds(CNeighbours(c, upper, right), graph)
  {
    forall i | 0 <= i < |graph|
      ensures |GetNbhd(CNeighbours(c, upper, right), graph, i)| > 0
      ensures IndicesBelow(GetNbhd(CNeighbours(c, upper, right), graph, i), |graph|)
    {
      CNeighboursContainsSelf(i, c, upper, right);
      CNeighboursInGrid(i, c, upper, right);
    }
  }

  /**
   * `ifreject[nbhd] = np.logical_or(ifreject[nbhd], local)` on the reject
   * array: the OR is computed from the entries as they were before the
   * statement, then written back position by position.
   */
  method OrInto(ifreject: array<bool>, nbhd: seq<nat>, local: seq<bool>)
    requires IndicesBelow(nbhd, ifreject.Length) && |local| == |nbhd|
    modifies ifreject
    ensures ifreject[..] == Merge(old(ifreject[..]), nbhd, local)
  {
    var merged := LogicalOr(Gather(ifreject[..], nbhd), local);
    for p := 0 to |nbhd|
      invariant ifreject[..] == Scatter(old(ifreject[..]), nbhd, merged, p)
    {
      ifreject[nbhd[p]] := merged[p];
    }
  }

  /** What the loop body may rely on for node `i`. */
  lemma NbhdFacts(inst: Instance, i: nat)
    requires Valid(inst) && i < |inst.graph|
    ensures |Nbhd(inst, i)| > 0
    ensures IndicesBelow(Nbhd(inst, i), |inst.graph|) && IndicesBelow(Nbhd(inst, i), |inst.pVals|)
    ensures SortsAscending(Gather(inst.pVals, Nbhd(inst, i)), inst.argsort(Gather(inst.pVals, Nbhd(inst, i))))
  {
  }

  /** One more turn of the loop merges node `i`'s local decisions into the vector left by nodes 0..i-1. */
  lemma RunRangeStep(inst: Instance, i: nat, before: seq<bool>, local: seq<bool>)
    requires Valid(inst) && i < |inst.graph|
    requires before == RunNodes(inst, Range(i)) && local == LocalRejection(inst, i)
    ensures IndicesBelow(Nbhd(inst, i), |before|) && |local| == |Nbhd(inst, i)|
    ensures RunNodes(inst, Range(i + 1)) == Merge(before, Nbhd(inst, i), local)
  {
    assert Range(i + 1)[..i] == Range(i);
  }

  /**
   * The body of the loop for node `i`: take its neighbourhood, run the local
   * test at the scaled level, and OR the decisions into `ifreject`.
   */
  method VisitNode(ifreject: array<bool>, graph: seq<seq<nat>>, pVals: seq<real>, alpha: real,
                   get: Provider, argsort: seq<real> -> seq<nat>, i: nat)
    requires Valid(Instance(graph, pVals, alpha, get, argsort)) && i < |graph|
    requires ifreject[..] == RunNodes(Instance(graph, pVals, alpha, get, argsort), Range(i))
    modifies ifreject
    ensures ifreject[..] == RunNodes(Instance(graph, pVals, alpha, get, argsort), Range(i + 1))
  {
    ghost var inst := Instance(graph, pVals, alpha, get, argsort);
    NbhdFacts(inst, i);
    var nbhdNodes := GetNbhd(get, graph, i);
    var localRejection := BH(Gather(pVals, nbhdNodes), LocalAlpha(alpha, |nbhdNodes|, |graph|), argsort);
    ghost var before := ifreject[..];
    OrInto(ifreject, nbhdNodes, localRejection);
    RunRangeStep(inst, i, before, localRejection);
  }

  /** `generalized_BH_original(graph, p_vals, alpha, get_nbhd=get_1_neighbours)`. */
  method GeneralizedBHOriginal(graph: seq<seq<nat>>, pVals: seq<real>, alpha: real,
                               argsort: seq<real> -> seq<nat>, get: Provider := OneHop)
    returns (reject: seq<bool>)
    requires Valid(Instance(graph, pVals, alpha, get, argsort))
    ensures |reject| == |graph|
    ensures reject == GeneralizedBHResult(Instance(graph, pVals, alpha, get, argsort))
  {
    var numNodes := |graph|;
    var ifreject := new bool[numNodes](_ => false);
    assert ifreject[..] == AllFalse(numNodes);
    for i := 0 to numNodes
      invariant ifreject[..] == RunNodes(Instance(graph, pVals, alpha, get, argsort), Range(i))
    {
      VisitNode(ifreject, graph, pVals, alpha, get, argsort, i);
    }
    reject := ifreject[..];
  }

  /** The caller's data object: its graph, its p-values, and the attribute the result is bound to. */
  class Data {
    var graph: seq<seq<nat>>
    var pVals: seq<real>
    var ifreject: seq<bool>

    constructor (graph: seq<seq<nat>>, pVals: seq<real>)
      ensures this.graph == graph && this.pVals == pVals && ifreject == []
    {
      this.graph := graph;
      this.pVals := pVals;
      ifreject := [];
    }
  }

  /** `generalized_BH(data, alpha, get_nbhd=get_1_neighbours)`: bind the result to `data.ifreject`. */
  method GeneralizedBHOn(data: Data, alpha: real, argsort: seq<real> -> seq<nat>, get: Provider := OneHop)
    requires Valid(Instance(data.graph, data.pVals, alpha, get, argsort))
    modifies data`ifreject
    ensures data.ifreject == GeneralizedBHResult(Instance(data.graph, data.pVals, alpha, get, argsort))
  {
    data.ifreject := GeneralizedBHOriginal(data.graph, data.pVals, alpha, argsort, get);
  }
}
