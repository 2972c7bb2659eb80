/**
 * The operations of adn.py: build a graph of DNA-labelled nodes, sample its
 * edges, and enumerate its Hamiltonian paths by brute force.
 */
module Adn {
  import opened Seqs
  import opened Itertools
  import opened Random
  import opened Dicts
  import opened Hamiltonian

  type Label = string

  /** The graph: node id -> DNA label, keys in insertion order. */
  type Graph = Dict<Label>

  const Alphabet: string := "ACGT"

  /** generate_dna_sequence's default length. */
  const DefaultLength: nat := 6

  /** A label of the given length over the four DNA bases. */
  predicate IsDna(dna: Label, length: nat)
  {
    |dna| == length && forall c :: c in dna ==> c in Alphabet
  }

  /**
   * generate_dna_sequence(length): random.choices("ACGT", k=length) joined
   * into a string; draws(offset + t) is the outcome of its t-th pick.
   */
  function GenerateDnaSequence(length: nat, draws: nat -> nat, offset: nat): (dna: Label)
    ensures IsDna(dna, length)
  {
    Choices(Alphabet, length, draws, offset).value
  }

  /** list(range(n)): 0, 1, ..., n - 1, and nothing when n <= 0. */
  function NodeRange(n: int): (r: seq<NodeId>)
    ensures |r| == if n <= 0 then 0 else n
    ensures forall i :: 0 <= i < |r| ==> r[i] == i
  {
    if n <= 0 then [] else NodeRange(n - 1) + [n - 1]
  }

  /**
   * generate_graph(num_nodes): inserts the keys 0 .. num_nodes - 1 in
   * increasing order, node i getting the label built from draws 6i .. 6i + 5.
   * A negative count inserts nothing.
   */
  method GenerateGraph(numNodes: int, draws: nat -> nat) returns (graph: Graph)
    ensures graph.Valid()
    ensures graph.keys == NodeRange(numNodes)
    ensures forall i :: 0 <= i < numNodes ==>
      i in graph.values && graph.values[i] == GenerateDnaSequence(DefaultLength, draws, i * DefaultLength)
    ensures forall i :: i in graph.values ==> IsDna(graph.values[i], DefaultLength)
  {
    graph := Empty();
    var i := 0;
    while i < numNodes
      invariant 0 <= i <= (if numNodes < 0 then 0 else numNodes)
      invariant graph.Valid()
      invariant graph.keys == NodeRange(i)
      invariant forall j :: 0 <= j < i ==>
        j in graph.values && graph.values[j] == GenerateDnaSequence(DefaultLength, draws, j * DefaultLength)
      invariant forall j :: j in graph.values ==> IsDna(graph.values[j], DefaultLength)
    {
      graph := graph.Set(i, GenerateDnaSequence(DefaultLength, draws, i * DefaultLength));
      i := i + 1;
    }
  }

  function Min(a: int, b: int): int
  {
    if a < b then a else b
  }

  /**
   * generate_edges(graph): every 2-combination of the node list, of which
   * random.sample keeps min(C(N, 2), 2N); order is the outcome of the draw.
   * The requested size never exceeds the population, so the sample never
   * raises.
   */
  function GenerateEdges(graph: Graph, order: seq<nat>): (edges: seq<Edge>)
    requires IsShuffle(order, |Pairs(graph.keys)|)
    ensures |edges| == Min(|graph.keys| * (|graph.keys| - 1) / 2, 2 * |graph.keys|)
    ensures forall e :: e in edges ==> e in Pairs(graph.keys)
    ensures |graph.keys| * (|graph.keys| - 1) / 2 <= 2 * |graph.keys| ==>
      multiset(edges) == multiset(Pairs(graph.keys))
  {
    var nodes := graph.keys;
    var all := Pairs(nodes);
    PairsCount(nodes);
    Sample(all, Min(|all|, |nodes| * 2), order).value
  }

  /**
   * find_hamiltonian_paths(graph, edges): loops over the permutations of the
   * node list in itertools order and appends each one whose consecutive
   * ordered pairs all occur in edges.
   */
  method FindHamiltonianPaths(graph: Graph, edges: seq<Edge>) returns (validPaths: seq<seq<NodeId>>)
    ensures validPaths == HamiltonianPaths(graph.keys, edges)
    ensures forall p :: p in validPaths <==>
      multiset(p) == multiset(graph.keys) && FollowsEdges(p, edges)
  {
    var nodes := graph.keys;
    var perms := Permutations(nodes);
    validPaths := [];
    for k := 0 to |perms|
      invariant validPaths == KeepPaths(perms[..k], edges)
    {
      var perm := perms[k];
      var pathEdges := PathEdges(perm);
      if forall e :: e in pathEdges ==> e in edges {
        validPaths := validPaths + [perm];
      }
      assert perms[..k + 1][..k] == perms[..k];
    }
    assert perms[..|perms|] == perms;
    forall p ensures p in validPaths <==> multiset(p) == multiset(nodes) && FollowsEdges(p, edges) {
      HamiltonianPathsExactly(nodes, edges, p);
    }
  }

  // ---------------------------------------------------------------- properties of the pipeline

  /** Over a dict's keys, every sampled edge joins two different nodes, the first one inserted
      before the second, and no edge is drawn twice; with at most one node there are none. */
  lemma GenerateEdgesWellFormed(graph: Graph, order: seq<nat>)
    requires graph.Valid()
    requires IsShuffle(order, |Pairs(graph.keys)|)
    ensures Distinct(GenerateEdges(graph, order))
    ensures forall e :: e in GenerateEdges(graph, order) ==>
      e.0 in graph.values && e.1 in graph.values &&
      IndexOf(graph.keys, e.0) < IndexOf(graph.keys, e.1)
    ensures |graph.keys| <= 1 ==> GenerateEdges(graph, order) == []
  {
    var nodes := graph.keys;
    PairsDistinct(nodes);
    forall e | e in GenerateEdges(graph, order)
      ensures e.0 in graph.values && e.1 in graph.values
      ensures IndexOf(nodes, e.0) < IndexOf(nodes, e.1)
    {
      PairsExactly(nodes, e.0, e.1);
      var i, j :| 0 <= i < j < |nodes| && nodes[i] == e.0 && nodes[j] == e.1;
      assert IndexOf(nodes, e.0) == i && IndexOf(nodes, e.1) == j;
    }
    if |nodes| <= 1 {
      assert |nodes| * (|nodes| - 1) == 0;
    }
  }

  /** The graph built for n nodes gets min(C(n, 2), 2n) edges, each (a, b) with 0 <= a < b < n. */
  lemma EdgesOfGeneratedGraph(n: nat, graph: Graph, order: seq<nat>)
    requires graph.Valid() && graph.keys == NodeRange(n)
    requires IsShuffle(order, |Pairs(graph.keys)|)
    ensures |GenerateEdges(graph, order)| == Min(n * (n - 1) / 2, 2 * n)
    ensures Distinct(GenerateEdges(graph, order))
    ensures forall e :: e in GenerateEdges(graph, order) ==> 0 <= e.0 < e.1 < n
  {
    assert |graph.keys| == n;
    GenerateEdgesWellFormed(graph, order);
    PairsOfRange(n);
  }

  lemma PairsOfRange(n: nat)
    ensures forall e :: e in Pairs(NodeRange(n)) ==> 0 <= e.0 < e.1 < n
  {
    forall e | e in Pairs(NodeRange(n)) ensures 0 <= e.0 < e.1 < n {
      PairsExactly(NodeRange(n), e.0, e.1);
    }
  }

  /** On the graph generate_graph builds, paths come out in increasing lexicographic order of
      node ids, with no path twice. */
  lemma PathsOfGeneratedGraphSorted(n: int, edges: seq<Edge>)
    ensures StrictlyOrdered(x => x, HamiltonianPaths(NodeRange(n), edges))
    ensures Distinct(HamiltonianPaths(NodeRange(n), edges))
  {
    var nodes := NodeRange(n);
    assert IncreasingBy(x => x, nodes);
    PermutationsOrdered(x => x, nodes);
    KeepPathsOrdered(x => x, Permutations(nodes), edges);
    StrictlyOrderedDistinct(x => x, HamiltonianPaths(nodes, edges));
  }

  /** A strictly increasing list of n ids drawn from 0 .. n - 1 is 0, 1, ..., n - 1. */
  lemma {:induction false} IncreasingRangeIsIdentity(n: nat, p: seq<NodeId>)
    requires |p| == n
    requires forall x :: x in p ==> 0 <= x < n
    requires forall i :: 0 <= i < |p| - 1 ==> p[i] < p[i + 1]
    ensures p == NodeRange(n)
  {
    forall i | 0 <= i < n ensures p[i] == i {
      AtLeastIndex(p, i);
      AtMostIndex(n, p, i);
    }
  }

  lemma {:induction false} AtLeastIndex(p: seq<NodeId>, i: nat)
    requires i < |p|
    requires forall x :: x in p ==> 0 <= x
    requires forall k :: 0 <= k < |p| - 1 ==> p[k] < p[k + 1]
    ensures p[i] >= i
  {
    if i > 0 {
      AtLeastIndex(p, i - 1);
    } else {
      assert p[0] in p;
    }
  }

  lemma {:induction false} AtMostIndex(n: nat, p: seq<NodeId>, i: nat)
    requires |p| == n && i < n
    requires forall x :: x in p ==> x < n
    requires forall k :: 0 <= k < |p| - 1 ==> p[k] < p[k + 1]
    ensures p[i] <= i
    decreases n - i
  {
    if i < n - 1 {
      AtMostIndex(n, p, i + 1);
    } else {
      assert p[i] in p;
    }
  }

  /** Under forward-only edges, a returned path can only be 0 .. n - 1. */
  lemma ForwardPathIsIdentity(n: int, edges: seq<Edge>, p: seq<NodeId>)
    requires forall e :: e in edges ==> e.0 < e.1
    requires p in HamiltonianPaths(NodeRange(n), edges)
    ensures p == NodeRange(n)
  {
    var nodes := NodeRange(n);
    var m := if n <= 0 then 0 else n;
    HamiltonianPathsExactly(nodes, edges, p);
    assert |p| == |multiset(p)| == m;
    forall x | x in p ensures 0 <= x < m {
      assert x in multiset(nodes);
    }
    forall i | 0 <= i < |p| - 1 ensures p[i] < p[i + 1] {
      assert (p[i], p[i + 1]) in edges;
    }
    IncreasingRangeIsIdentity(m, p);
    assert NodeRange(m) == nodes;
  }

  lemma {:induction false} AllSameMultiplicity<T>(s: seq<T>, x: T)
    requires forall y :: y in s ==> y == x
    ensures multiset(s)[x] == |s|
  {
    if |s| > 0 {
      assert s[0] in s;
      forall y | y in s[1..] ensures y == x {
        assert y in s;
      }
      AllSameMultiplicity(s[1..], x);
      assert s == [s[0]] + s[1..];
      assert multiset(s) == multiset{s[0]} + multiset(s[1..]);
    }
  }

  /** A duplicate-free list all of whose elements equal x is [] or [x]. */
  lemma DistinctAllSame<T>(s: seq<T>, x: T)
    requires Distinct(s)
    requires forall y :: y in s ==> y == x
    ensures s == if x in s then [x] else []
  {
    AllSameMultiplicity(s, x);
    DistinctMultiplicity(s);
    assert |s| <= 1;
    if |s| == 1 {
      assert s[0] in s;
    }
  }

  /** When every stored edge goes from a lower id to a higher one, the node list 0 .. n - 1 is the
      only arrangement that can pass: it is returned exactly when each step i -> i + 1 is stored. */
  lemma ForwardEdgesOnlyIdentityPath(n: int, edges: seq<Edge>)
    requires forall e :: e in edges ==> e.0 < e.1
    ensures HamiltonianPaths(NodeRange(n), edges) ==
      if FollowsEdges(NodeRange(n), edges) then [NodeRange(n)] else []
  {
    var nodes := NodeRange(n);
    var paths := HamiltonianPaths(nodes, edges);
    forall p | p in paths ensures p == nodes {
      ForwardPathIsIdentity(n, edges, p);
    }
    PathsOfGeneratedGraphSorted(n, edges);
    DistinctAllSame(paths, nodes);
    HamiltonianPathsExactly(nodes, edges, nodes);
  }

  /** The whole script: on the graph generate_graph builds and the edges generate_edges samples
      from it, find_hamiltonian_paths returns either nothing or the single path 0 -> 1 -> ... -> n - 1,
      the latter exactly when every step i -> i + 1 was sampled. */
  lemma GeneratedRunFindsAtMostOnePath(n: nat, graph: Graph, order: seq<nat>)
    requires graph.Valid() && graph.keys == NodeRange(n)
    requires IsShuffle(order, |Pairs(graph.keys)|)
    ensures HamiltonianPaths(graph.keys, GenerateEdges(graph, order)) ==
      if FollowsEdges(NodeRange(n), GenerateEdges(graph, order)) then [NodeRange(n)] else []
  {
    EdgesOfGeneratedGraph(n, graph, order);
    ForwardEdgesOnlyIdentityPath(n, GenerateEdges(graph, order));
  }

  /** If every combination of 0 .. n - 1 is an edge, the path 0 -> 1 -> ... -> n - 1 follows the edges. */
  lemma AllPairsFollowRange(n: nat, edges: seq<Edge>)
    requires multiset(edges) == multiset(Pairs(NodeRange(n)))
    ensures FollowsEdges(NodeRange(n), edges)
  {
    var nodes := NodeRange(n);
    var pairs := Pairs(nodes);
    forall i | 0 <= i < |nodes| - 1 ensures (nodes[i], nodes[i + 1]) in edges {
      var e := (nodes[i], nodes[i + 1]);
      PairsExactly(nodes, e.0, e.1);
      assert e in pairs;
      assert e in multiset(pairs);
      assert e in multiset(edges);
    }
  }

  /** The script's five nodes, or any count up to five: C(n, 2) <= 2n, so every combination is
      sampled and find_hamiltonian_paths always returns the single path 0 -> 1 -> ... -> n - 1. */
  lemma SmallGraphAlwaysOnePath(n: nat, graph: Graph, order: seq<nat>)
    requires n <= 5
    requires graph.Valid() && graph.keys == NodeRange(n)
    requires IsShuffle(order, |Pairs(graph.keys)|)
    ensures HamiltonianPaths(graph.keys, GenerateEdges(graph, order)) == [NodeRange(n)]
  {
    assert |graph.keys| == n;
    assert n * (n - 1) / 2 <= 2 * n by {
      assert n == 0 || n == 1 || n == 2 || n == 3 || n == 4 || n == 5;
    }
    AllPairsFollowRange(n, GenerateEdges(graph, order));
    GeneratedRunFindsAtMostOnePath(n, graph, order);
  }
}
