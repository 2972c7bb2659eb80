# Hamiltonian paths over a DNA-labelled graph, in Dafny

`adn.py` builds a graph of `N` nodes. Node ids are `0 .. N-1` and each node gets a random
six-letter label over `A C G T`. The program then samples `min(C(N,2), 2N)` of the
`itertools.combinations` pairs as edges. Finally it enumerates, by brute force over
`itertools.permutations`, every ordering of the nodes in which each consecutive ordered pair
is one of the stored edges.

This project models those three operations and the library calls they rest on:

- `seqs.dfy` (module `Seqs`): duplicate-freedom, removal at a position, position lookup, and
  multiset facts.
- `itertools.dfy` (module `Itertools`): `permutations(s)` and `combinations(s, 2)`. Both are
  defined by their documented output order. `permutations` puts each position of `s` at the
  head in turn and arranges the rest recursively, which is lexicographic order of positions.
  `combinations(s, 2)` yields `(s[i], s[j])` for `i < j` in lexicographic order of `(i, j)`.
- `random_model.dfy` (module `Random`): `random.choices` and `random.sample`. The outcome of
  the random draws is a parameter of each function.
- `dicts.dfy` (module `Dicts`): an insertion-ordered dict with integer keys. `keys` is what
  `list(d.keys())` returns.
- `hamiltonian.dfy` (module `Hamiltonian`): what `find_hamiltonian_paths` returns, as
  functions, plus its soundness, completeness, order and edge cases.
- `adn.dfy` (module `Adn`): `generate_dna_sequence`, `generate_graph` (a method with the
  source's loop), `generate_edges`, and `find_hamiltonian_paths` (a method with the source's
  loop over the permutations, proved equal to the function). It also holds properties of the
  whole pipeline.

Edge membership is directional, as in the code. A path step `a -> b` passes only if the
ordered tuple `(a, b)` is in the edge list, and a stored `(a, b)` does not allow `b -> a`.
`combinations` only yields pairs whose first node comes first in the node list. So on a graph
built by `generate_graph`, every sampled edge goes from a lower id to a higher one. The model
proves the consequence (`Adn.GeneratedRunFindsAtMostOnePath`): the pipeline finds either no
path or only `0 -> 1 -> ... -> N-1`, and it finds that path exactly when every step `i -> i+1`
was sampled. For `N <= 5`, `C(N,2) <= 2N`, so the sample keeps every combination
(`Adn.SmallGraphAlwaysOnePath`). The script itself uses 5 nodes, so it always prints the single
path `0 -> 1 -> 2 -> 3 -> 4`, whatever the random draws.

Two behaviours of the code that are easy to misread:

- `generate_graph` with a negative count runs `range` over nothing and returns an empty dict.
  It does not fail.
- Edges are tested as ordered tuples only, never in both directions.

The enumerator is a pure function of its inputs (`Adn.FindHamiltonianPaths` equals
`Hamiltonian.HamiltonianPaths`), so two calls with the same graph and edges return the same
list.

## Model

| member | source | states |
|---|---|---|
| `Itertools.PermutationsExactly` | adn.py:25 | `permutations(s)` yields a sequence exactly when it has the same multiset of elements as `s`: sound and complete |
| `Itertools.PermutationsCount` | adn.py:25 | `permutations(s)` has `|s|!` entries |
| `Itertools.PermutationsOrdered` | adn.py:25 | if ranks increase along `s`, the permutations come out in strictly increasing lexicographic order |
| `Itertools.PermutationsByPosition` | adn.py:25 | for a duplicate-free `s`, permutations are in lexicographic order of positions in `s`, with no repeats |
| `Itertools.PermutationsOfThree` | adn.py:25 | for `[a, b, c]` the order is abc, acb, bac, bca, cab, cba |
| `Itertools.PairsExactly` | adn.py:18 | `(a, b)` is in `combinations(s, 2)` exactly when `a = s[i]` and `b = s[j]` for some `i < j` |
| `Itertools.PairsCount` | adn.py:18 | `combinations(s, 2)` has `|s|(|s|-1)/2` entries |
| `Itertools.PairsDistinct` | adn.py:18 | over a duplicate-free `s`, no pair repeats and no pair joins a node to itself |
| `Random.Choices` | adn.py:6 | `random.choices(pop, k)` returns `k` elements of `pop` (none if `k <= 0`); it fails only when picking from an empty population |
| `Random.Sample` | adn.py:19 | `random.sample(pop, k)` succeeds exactly when `0 <= k <= |pop|`, and returns `k` members of `pop` drawn without replacement (a sub-multiset of `pop`, all of `pop` when `k = |pop|`), duplicate-free when `pop` is |
| `Dicts.Empty` | adn.py:10 | `{}` has no keys |
| `Dicts.Dict.Set` | adn.py:12 | `d[k] = v` keeps the dict invariant, binds `k` to `v`, leaves other keys alone, and appends `k` to the key order only if it is new |
| `Adn.GenerateDnaSequence` | adn.py:4-6 | the label has the requested length and uses only `A C G T` |
| `Adn.NodeRange` | adn.py:11 | `range(n)` lists `0 .. n-1`, and nothing when `n <= 0` |
| `Adn.GenerateGraph` | adn.py:8-13 | the dict's keys are `0 .. n-1` in insertion order; node `i` has the label drawn for it, a 6-letter DNA string; a negative `n` gives `{}` |
| `Adn.GenerateEdges` | adn.py:15-19 | returns `min(C(N,2), 2N)` edges, each a combination of the node list; the sample size never exceeds the population; when `C(N,2) <= 2N` every combination is kept |
| `Adn.GenerateEdgesWellFormed` | adn.py:15-19 | sampled edges are distinct, join two nodes of the graph, point from the earlier-inserted to the later-inserted node, and are absent when `N <= 1` |
| `Adn.EdgesOfGeneratedGraph` | adn.py:15-19 | for the graph `generate_graph(n)` builds, every edge `(a, b)` has `0 <= a < b < n`; there are `min(C(n,2), 2n)` of them with no repeats |
| `Adn.FindHamiltonianPaths` | adn.py:21-29 | the loop returns the permutations that pass the edge test, in permutation order; a list is in the result exactly when it rearranges the keys and each step is a stored ordered pair |
| `Hamiltonian.UsesOnlyEdgesIff` | adn.py:26-27 | the code's test (build `path_edges`, look each up) holds exactly when every step `(p[i], p[i+1])` is an element of `edges` |
| `Hamiltonian.KeepPathsMember` | adn.py:25-28 | a list is kept exactly when it is one of the candidates and passes the edge test |
| `Hamiltonian.KeepPathsOrdered` | adn.py:25-28 | keeping some candidates preserves their order |
| `Hamiltonian.HamiltonianPathsExactly` | adn.py:21-29 | soundness and completeness: `p` is returned exactly when `p` rearranges the node list and every step of `p` is a stored ordered pair |
| `Hamiltonian.HamiltonianPathsVisitAll` | adn.py:23-28 | with distinct keys, `p` is returned exactly when it has length `N`, has no repeats, has the same elements as the keys, and follows stored edges |
| `Hamiltonian.HamiltonianPathsOrdered` | adn.py:24-28 | with distinct keys, results are in lexicographic order of key positions, with no path twice |
| `Adn.PathsOfGeneratedGraphSorted` | adn.py:21-29 | on keys `0 .. n-1`, results are in increasing lexicographic order of ids, with no repeats |
| `Hamiltonian.NoEdgesNoPaths` | adn.py:25-28 | with two or more nodes and no edges the result is empty |
| `Hamiltonian.AtMostOneNode` | adn.py:25-28 | with zero nodes the result is `[()]`, and with one node `x` it is `[(x,)]` |
| `Hamiltonian.CompleteGraphAllPaths` | adn.py:25-28 | if every ordered pair of distinct nodes is stored, every permutation is returned: `N!` paths |
| `Hamiltonian.OneWayExample` | adn.py:26-27 | on distinct `a, b, c` with only `(a,b), (b,c)` stored, the result is exactly `[a b c]` |
| `Hamiltonian.BothWaysExample` | adn.py:26-27 | adding `(b,a), (c,b)` gives exactly `[a b c], [c b a]` |
| `Hamiltonian.DirectionalExample` | adn.py:26-27 | both scenarios on nodes `0, 1, 2` |
| `Adn.ForwardEdgesOnlyIdentityPath` | adn.py:26-27 | if every stored edge goes from a lower id to a higher one, the result on `0 .. n-1` is `[0 .. n-1]` when each step `i -> i+1` is stored, and empty otherwise |
| `Adn.GeneratedRunFindsAtMostOnePath` | adn.py:32-34 | for the script's pipeline `generate_graph`, `generate_edges`, `find_hamiltonian_paths`, the result is `[0 .. n-1]` or empty, as above |
| `Adn.SmallGraphAlwaysOnePath` | adn.py:32-34 | with the script's 5 nodes, or any count up to 5, every combination is sampled and the result is exactly `[0 .. n-1]` |

## Left out

- Randomness: the model does not choose label letters or sampled edges. `Random.Choices`
  takes the raw pick outcomes as a function `draws`, reduced modulo the population size.
  `Random.Sample` takes the draw as a shuffle of the population's positions and keeps the
  first `k`. Every outcome of the real generator is covered this way, but its distribution,
  seeding and CPython's sampling algorithm are not modelled.
- Random.Sample: the `IsShuffle` requirement describes the draw and asks nothing of the
  caller. The model does not say which shuffle CPython produces.
- The top-level script and its printing (adn.py:32-47): the "Grafo generado", "Conexiones"
  and "Caminos Hamiltonianos" text output is not modelled. The script's three calls appear
  only in `Adn.GeneratedRunFindsAtMostOnePath` (any node count) and
  `Adn.SmallGraphAlwaysOnePath` (the fixed 5, or fewer).
- Laziness: `itertools.permutations` is a lazy iterator. `Adn.FindHamiltonianPaths` builds
  the full list first and then walks it in the same order, so the output is the same.
- Python values: dict keys, node ids and edge endpoints are integers. Arbitrary hashable keys
  are not modelled. Tuples are Dafny sequences and pairs, and strings are `seq<char>`.
- Performance: the `O(N!·N²·|E|)` running time is not modelled.
