/**
 * What find_hamiltonian_paths computes, as functions: walk the permutations
 * of the node list in itertools order and keep those whose every step, taken
 * as an ORDERED pair, occurs in the edge list. A stored (a, b) allows the
 * step a -> b only; it does not allow b -> a.
 */
module Hamiltonian {
  import opened Seqs
  import opened Itertools

  type NodeId = int
  type Edge = (NodeId, NodeId)

  /** path_edges: the consecutive ordered pairs (perm[i], perm[i+1]) of perm. */
  function PathEdges(perm: seq<NodeId>): seq<Edge>
  {
    seq(if |perm| == 0 then 0 else |perm| - 1, i requires 0 <= i < |perm| - 1 => (perm[i], perm[i + 1]))
  }

  /** all(edge in edges for edge in path_edges), membership by tuple equality. */
  predicate UsesOnlyEdges(perm: seq<NodeId>, edges: seq<Edge>)
  {
    forall e :: e in PathEdges(perm) ==> e in edges
  }

  /** The permutations of perms that pass the edge test, in their original order. */
  function KeepPaths(perms: seq<seq<NodeId>>, edges: seq<Edge>): seq<seq<NodeId>>
  {
    if perms == [] then []
    else
      var last := perms[|perms| - 1];
      KeepPaths(perms[..|perms| - 1], edges) + (if UsesOnlyEdges(last, edges) then [last] else [])
  }

  /** The list find_hamiltonian_paths returns for the node list nodes. */
  function HamiltonianPaths(nodes: seq<NodeId>, edges: seq<Edge>): seq<seq<NodeId>>
  {
    KeepPaths(Permutations(nodes), edges)
  }

  /** Reference definition of a walk along directed edges: every step is a stored ordered pair. */
  predicate FollowsEdges(p: seq<NodeId>, edges: seq<Edge>)
  {
    forall i :: 0 <= i < |p| - 1 ==> (p[i], p[i + 1]) in edges
  }

  // ------------------------------------------------------------------ the edge test

  /** The code's test (build path_edges, look each up) is the reference definition. */
  lemma UsesOnlyEdgesIff(p: seq<NodeId>, edges: seq<Edge>)
    ensures UsesOnlyEdges(p, edges) <==> FollowsEdges(p, edges)
  {
    var pe := PathEdges(p);
    if UsesOnlyEdges(p, edges) {
      forall i | 0 <= i < |p| - 1 ensures (p[i], p[i + 1]) in edges {
        assert pe[i] == (p[i], p[i + 1]);
      }
    }
    if FollowsEdges(p, edges) {
      forall e | e in pe ensures e in edges {
        var i :| 0 <= i < |pe| && pe[i] == e;
      }
    }
  }

  // ------------------------------------------------------------------ the filter

  lemma {:induction false} KeepPathsMember(perms: seq<seq<NodeId>>, edges: seq<Edge>, p: seq<NodeId>)
    ensures p in KeepPaths(perms, edges) <==> p in perms && UsesOnlyEdges(p, edges)
  {
    if perms != [] {
      var init := perms[..|perms| - 1];
      KeepPathsMember(init, edges, p);
      assert perms == init + [perms[|perms| - 1]];
    }
  }

  /** Filtering keeps the order of what it keeps. */
  lemma {:induction false} KeepPathsOrdered(rank: NodeId -> int, perms: seq<seq<NodeId>>, edges: seq<Edge>)
    requires StrictlyOrdered(rank, perms)
    ensures StrictlyOrdered(rank, KeepPaths(perms, edges))
  {
    if perms != [] {
      var n := |perms|;
      var init := perms[..n - 1];
      var last := perms[n - 1];
      KeepPathsOrdered(rank, init, edges);
      var kept := KeepPaths(init, edges);
      forall i | 0 <= i < |kept| ensures LexBefore(rank, kept[i], last) {
        KeepPathsMember(init, edges, kept[i]);
        var k :| 0 <= k < n - 1 && init[k] == kept[i];
      }
    }
  }

  lemma {:induction false} KeepPathsAll(perms: seq<seq<NodeId>>, edges: seq<Edge>)
    requires forall p :: p in perms ==> UsesOnlyEdges(p, edges)
    ensures KeepPaths(perms, edges) == perms
  {
    if perms != [] {
      var init := perms[..|perms| - 1];
      KeepPathsAll(init, edges);
      assert perms == init + [perms[|perms| - 1]];
    }
  }

  lemma {:induction false} KeepPathsNone(perms: seq<seq<NodeId>>, edges: seq<Edge>)
    requires forall p :: p in perms ==> !UsesOnlyEdges(p, edges)
    ensures KeepPaths(perms, edges) == []
  {
    if perms != [] {
      KeepPathsNone(perms[..|perms| - 1], edges);
    }
  }

  // ------------------------------------------------------------------ the enumerator

  /** Soundness and completeness: the result holds exactly the rearrangements of the node
      list whose every step is a stored ordered pair. */
  lemma HamiltonianPathsExactly(nodes: seq<NodeId>, edges: seq<Edge>, p: seq<NodeId>)
    ensures p in HamiltonianPaths(nodes, edges) <==>
      multiset(p) == multiset(nodes) && FollowsEdges(p, edges)
  {
    KeepPathsMember(Permutations(nodes), edges, p);
    PermutationsExactly(nodes, p);
    UsesOnlyEdgesIff(p, edges);
  }

  /** With a duplicate-free node list (a dict's keys), a path is returned exactly when it
      visits every node once, visits nothing else, and follows stored edges. */
  lemma HamiltonianPathsVisitAll(nodes: seq<NodeId>, edges: seq<Edge>, p: seq<NodeId>)
    requires Distinct(nodes)
    ensures p in HamiltonianPaths(nodes, edges) <==>
      |p| == |nodes| && Distinct(p) && (forall x :: x in p <==> x in nodes) && FollowsEdges(p, edges)
  {
    HamiltonianPathsExactly(nodes, edges, p);
    DistinctMultiplicity(nodes);
    DistinctMultiplicity(p);
    if multiset(p) == multiset(nodes) {
      assert |p| == |multiset(p)| == |nodes|;
      assert Distinct(p);
    }
    if Distinct(p) {
      DistinctSameElements(p, nodes);
      if forall x :: x in p <==> x in nodes {
        assert multiset(p) == multiset(nodes);
      }
      if multiset(p) == multiset(nodes) {
        assert forall x :: x in p <==> x in nodes;
      }
    }
  }

  /** The result lists the kept paths in permutation order: lexicographic by position in the
      node list, with no path twice. */
  lemma HamiltonianPathsOrdered(nodes: seq<NodeId>, edges: seq<Edge>)
    requires Distinct(nodes)
    ensures StrictlyOrdered(x => IndexOf(nodes, x), HamiltonianPaths(nodes, edges))
    ensures Distinct(HamiltonianPaths(nodes, edges))
  {
    PermutationsByPosition(nodes);
    KeepPathsOrdered(x => IndexOf(nodes, x), Permutations(nodes), edges);
    StrictlyOrderedDistinct(x => IndexOf(nodes, x), HamiltonianPaths(nodes, edges));
  }

  /** With two or more nodes and no edges, nothing is returned. */
  lemma NoEdgesNoPaths(nodes: seq<NodeId>)
    requires |nodes| >= 2
    ensures HamiltonianPaths(nodes, []) == []
  {
    forall p | p in Permutations(nodes) ensures !UsesOnlyEdges(p, []) {
      PermutationsExactly(nodes, p);
      assert |p| == |multiset(p)| == |nodes|;
      assert PathEdges(p)[0] in PathEdges(p);
    }
    KeepPathsNone(Permutations(nodes), []);
  }

  /** With at most one node there is no step to check: the single arrangement is returned. */
  lemma AtMostOneNode(nodes: seq<NodeId>, edges: seq<Edge>)
    requires |nodes| <= 1
    ensures HamiltonianPaths(nodes, edges) == [nodes]
  {
    if |nodes| == 1 {
      var x := nodes[0];
      assert RemoveAt(nodes, 0) == [];
      assert Permutations(RemoveAt(nodes, 0)) == [[]];
      assert [x] + [] == [x];
      assert Prepend(x, Permutations(RemoveAt(nodes, 0))) == [[x]];
      assert PermutationsFrom(nodes, 1) == [];
      assert Permutations(nodes) == PermutationsFrom(nodes, 0) == [[x]];
      assert [nodes[0]] == nodes;
    } else {
      assert Permutations(nodes) == [nodes];
    }
    assert PathEdges(nodes) == [];
    assert UsesOnlyEdges(nodes, edges);
    assert [nodes][..0] == [];
    assert KeepPaths([nodes], edges) == KeepPaths([], edges) + [nodes];
    assert Permutations(nodes) == [nodes];
  }

  /** When every ordered pair of distinct nodes is stored, every permutation is returned: |nodes|! paths. */
  lemma CompleteGraphAllPaths(nodes: seq<NodeId>, edges: seq<Edge>)
    requires Distinct(nodes)
    requires forall a, b :: a in nodes && b in nodes && a != b ==> (a, b) in edges
    ensures HamiltonianPaths(nodes, edges) == Permutations(nodes)
    ensures |HamiltonianPaths(nodes, edges)| == Factorial(|nodes|)
  {
    forall p | p in Permutations(nodes) ensures UsesOnlyEdges(p, edges) {
      PermutationsExactly(nodes, p);
      DistinctMultiplicity(nodes);
      DistinctMultiplicity(p);
      forall i | 0 <= i < |p| - 1 ensures (p[i], p[i + 1]) in edges {
        assert p[i] in multiset(nodes) && p[i + 1] in multiset(nodes);
      }
      UsesOnlyEdgesIff(p, edges);
    }
    KeepPathsAll(Permutations(nodes), edges);
    PermutationsCount(nodes);
  }

  /** A three-node arrangement passes the edge test exactly when both of its steps are stored. */
  lemma UsesOnlyEdgesOfThree(a: NodeId, b: NodeId, c: NodeId, edges: seq<Edge>)
    ensures UsesOnlyEdges([a, b, c], edges) <==> (a, b) in edges && (b, c) in edges
  {
    var pe := PathEdges([a, b, c]);
    assert pe[0] == (a, b) && pe[1] == (b, c);
    assert pe == [(a, b), (b, c)];
  }

  /** The candidate p if it passes the edge test, nothing otherwise. */
  function KeepOne(p: seq<NodeId>, edges: seq<Edge>): seq<seq<NodeId>> {
    if UsesOnlyEdges(p, edges) then [p] else []
  }

  lemma KeepPathsSnoc(perms: seq<seq<NodeId>>, p: seq<NodeId>, edges: seq<Edge>)
    ensures KeepPaths(perms + [p], edges) == KeepPaths(perms, edges) + KeepOne(p, edges)
  {
    assert (perms + [p])[..|perms|] == perms;
  }

  /** Filtering distributes over concatenation. */
  lemma {:induction false} KeepPathsAppend(xs: seq<seq<NodeId>>, ys: seq<seq<NodeId>>, edges: seq<Edge>)
    ensures KeepPaths(xs + ys, edges) == KeepPaths(xs, edges) + KeepPaths(ys, edges)
    decreases |ys|
  {
    if ys == [] {
      assert xs + ys == xs;
    } else {
      var init, last := ys[..|ys| - 1], ys[|ys| - 1];
      assert ys == init + [last];
      assert xs + ys == (xs + init) + [last];
      KeepPathsAppend(xs, init, edges);
      KeepPathsSnoc(xs + init, last, edges);
      KeepPathsSnoc(init, last, edges);
    }
  }

  lemma KeepPathsOfThree(p0: seq<NodeId>, p1: seq<NodeId>, p2: seq<NodeId>, edges: seq<Edge>)
    ensures KeepPaths([p0, p1, p2], edges) == KeepOne(p0, edges) + KeepOne(p1, edges) + KeepOne(p2, edges)
  {
    assert [p0] == [] + [p0];
    KeepPathsSnoc([], p0, edges);
    assert [p0, p1] == [p0] + [p1];
    KeepPathsSnoc([p0], p1, edges);
    assert [p0, p1, p2] == [p0, p1] + [p2];
    KeepPathsSnoc([p0, p1], p2, edges);
  }

  /** Filtering six candidates keeps each one that passes, in order. */
  lemma KeepPathsOfSix(p0: seq<NodeId>, p1: seq<NodeId>, p2: seq<NodeId>,
                       p3: seq<NodeId>, p4: seq<NodeId>, p5: seq<NodeId>, edges: seq<Edge>)
    ensures KeepPaths([p0, p1, p2, p3, p4, p5], edges) ==
      KeepOne(p0, edges) + KeepOne(p1, edges) + KeepOne(p2, edges) +
      KeepOne(p3, edges) + KeepOne(p4, edges) + KeepOne(p5, edges)
  {
    assert [p0, p1, p2, p3, p4, p5] == [p0, p1, p2] + [p3, p4, p5];
    KeepPathsAppend([p0, p1, p2], [p3, p4, p5], edges);
    KeepPathsOfThree(p0, p1, p2, edges);
    KeepPathsOfThree(p3, p4, p5, edges);
  }

  /** On three nodes the result lists, in permutation order, each arrangement whose two steps are stored. */
  lemma ThreeNodePaths(a: NodeId, b: NodeId, c: NodeId, edges: seq<Edge>)
    ensures HamiltonianPaths([a, b, c], edges) ==
      KeepOne([a, b, c], edges) + KeepOne([a, c, b], edges) + KeepOne([b, a, c], edges) +
      KeepOne([b, c, a], edges) + KeepOne([c, a, b], edges) + KeepOne([c, b, a], edges)
  {
    PermutationsOfThree(a, b, c);
    KeepPathsOfSix([a, b, c], [a, c, b], [b, a, c], [b, c, a], [c, a, b], [c, b, a], edges);
  }

  lemma KeepOneOfThree(x: NodeId, y: NodeId, z: NodeId, edges: seq<Edge>)
    ensures KeepOne([x, y, z], edges) == if (x, y) in edges && (y, z) in edges then [[x, y, z]] else []
  {
    UsesOnlyEdgesOfThree(x, y, z, edges);
  }

  /** Membership is directional: for three distinct nodes with only (a, b) and (b, c) stored, the
      single path is a -> b -> c; in particular c -> b -> a is not one. */
  lemma OneWayExample(a: NodeId, b: NodeId, c: NodeId)
    requires a != b && b != c && a != c
    ensures HamiltonianPaths([a, b, c], [(a, b), (b, c)]) == [[a, b, c]]
  {
    var one := [(a, b), (b, c)];
    ThreeNodePaths(a, b, c, one);
    KeepOneOfThree(a, b, c, one);
    assert (a, c) !in one && (b, a) !in one && (c, a) !in one && (c, b) !in one;
    KeepOneOfThree(a, c, b, one);
    KeepOneOfThree(b, a, c, one);
    KeepOneOfThree(b, c, a, one);
    KeepOneOfThree(c, a, b, one);
    KeepOneOfThree(c, b, a, one);
  }

  /** Storing the reverse pairs as well makes c -> b -> a a path too, listed after a -> b -> c. */
  lemma BothWaysExample(a: NodeId, b: NodeId, c: NodeId)
    requires a != b && b != c && a != c
    ensures HamiltonianPaths([a, b, c], [(a, b), (b, a), (b, c), (c, b)]) == [[a, b, c], [c, b, a]]
  {
    var both := [(a, b), (b, a), (b, c), (c, b)];
    ThreeNodePaths(a, b, c, both);
    assert (a, b) in both && (b, a) in both && (b, c) in both && (c, b) in both;
    assert (a, c) !in both && (c, a) !in both;
    KeepOneOfThree(a, b, c, both);
    KeepOneOfThree(a, c, b, both);
    KeepOneOfThree(b, a, c, both);
    KeepOneOfThree(b, c, a, both);
    KeepOneOfThree(c, a, b, both);
    KeepOneOfThree(c, b, a, both);
  }

  /** OneWayExample and BothWaysExample on the ids 0, 1, 2. */
  lemma DirectionalExample()
    ensures HamiltonianPaths([0, 1, 2], [(0, 1), (1, 2)]) == [[0, 1, 2]]
    ensures HamiltonianPaths([0, 1, 2], [(0, 1), (1, 0), (1, 2), (2, 1)]) == [[0, 1, 2], [2, 1, 0]]
  {
    OneWayExample(0, 1, 2);
    BothWaysExample(0, 1, 2);
  }
}
