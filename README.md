# Resistor lattice reduction, modelled in Dafny

This project models the reduction engine of a small Python program. The
program computes the equivalent resistance across the centre square of a
2N x 2N lattice of unit resistors.

The solver works in these steps:

1. `create_lattice` builds the grid and adds the battery edge. The battery
   edge carries no weight.
2. `fold` contracts the grid across its diagonal.
3. `fold2` contracts it across the anti-diagonal.
4. `simplify_weights` combines the resistors that collided during a fold, in
   parallel.
5. Two fixpoint loops shrink the graph:
   - the first runs `remove_leaf` then `simplify_series`;
   - the second runs `delta_y_transform` then `simplify_series`.

   When a new edge lands on an existing weighted edge, `simplify_parallel`
   merges the two.
6. The resistance is read off the single edge that is left.

`resistor_lattice.py` is an earlier copy of the same engine. Its `fold2` keeps
the other node of each pair.

The graph is a class, `Network.Graph`, with two fields:

- `nodes`: the node list, in insertion order;
- `adj`: a symmetric adjacency map with no self-loops.

The networkx operations are methods that change these fields:

- `contracted_nodes`, `add_edge`, `remove_node` and `remove_nodes_from`;
- the attribute updates of `create_lattice` and `simplify_weights`.

Each method states its new state through a function on the value `Net`. The
passes, folds and loops are proved against recursive specification functions
(`Reductions.PassFrom`, `Contraction.MergeAll`, `Solver.Settle`).

An edge's data is an `Attr` with two parts:

- an optional weight, which the battery lacks;
- the weights recorded in networkx's `contraction` attribute.

Resistances are exact reals.

The modules are:

| module | contents |
|---|---|
| `Resistors` | the parallel and star-mesh laws |
| `Network` | the graph, its well-formedness and the networkx primitives |
| `Contraction` | `contracted_nodes` and chains of contractions |
| `Weights` | `simplify_weights` |
| `Folding` | `fold` and `fold2` |
| `Layout` | the node sets the folds leave |
| `Lattice` | `create_lattice` |
| `Reductions` | `simplify_parallel`, `remove_leaf`, `simplify_series` and `delta_y_transform` |
| `Solver` | `solve` |
| `Variant` | the `fold2` and `solve(G)` of `resistor_lattice.py` |

## Model

| member | source | states |
|---|---|---|
| Resistors.ParallelLaw | solve.py:54 | two positive resistors in parallel are symmetric, below each of them, and have reciprocal 1/a + 1/b |
| Resistors.ParallelAllIsReciprocalSum | solve.py:18-21 | folding the parallel combination two at a time over a weight and its contracted weights gives the reciprocal sum 1/(1/w + sum of 1/w_i) |
| Resistors.ReciprocalSumBounds | solve.py:18-21 | the reciprocal sum of positive resistances is positive and at most w, and strictly below w when anything was contracted |
| Resistors.MeshEdgePositive | solve.py:85-88 | S = RaRb + RbRc + RcRa is positive and each mesh edge S/R is positive |
| Resistors.MeshEdgeSymmetric | solve.py:86-88 | the mesh edge opposite Rc does not depend on the order of the other two arms |
| Resistors.StarMeshTwoTerminal | solve.py:85-88 | between two arms of the star, the mesh edge in parallel with the path through the third node equals Ra + Rb, the star's resistance |
| Resistors.StarMeshEquivalence | solve.py:85-88 | the star and the mesh present the same resistance between each of the three pairs of terminals |
| Network.Omit | solve.py:46 | a node list with some nodes removed keeps exactly the other nodes |
| Network.OmitFacts | solve.py:46 | removal never lengthens the node list, shortens it exactly when a removed node was listed, and keeps it duplicate-free |
| Network.RemoveAllEdge | solve.py:46 | an edge survives the removal exactly when neither end is removed, with its data unchanged |
| Network.RemoveAllWellFormed | solve.py:46 | removing nodes keeps the graph simple and its resistances positive |
| Network.Link | solve.py:11 | add_edge creates both ends if needed and sets the data of both directions, leaving every other edge as it was |
| Network.LinkWellFormed | solve.py:11 | add_edge between two different nodes keeps the graph simple |
| Network.Least | solve.py:61-63 | the chosen neighbour is a member of the set and no larger than any other |
| Network.Pair | solve.py:63 | a two-element neighbour set unpacks into two different nodes that make up the set |
| Network.Triple | solve.py:80 | a three-element neighbour set unpacks into three distinct nodes that make up the set |
| Network.Graph.AddEdge | solve.py:11 | G.add_edge changes the graph to the linked value and keeps a well-formed graph well formed |
| Network.Graph.RemoveNodesFrom | solve.py:46 | G.remove_nodes_from changes the graph to the value without those nodes, which stays well formed |
| Network.Graph.RemoveNode | solve.py:68 | G.remove_node changes the graph to the value without that node and keeps a well-formed graph well formed |
| Network.Graph.Copy | solve.py:44 | G.copy() is a new graph with the same value |
| Reductions.SimplifyParallel | solve.py:49-55 | with a weighted n1-n2 edge the result is the parallel combination, below both weights and with reciprocal 1/w + 1/w_old; with no edge or a weightless edge it is w_new; it is positive for a positive w_new |
| Reductions.SimplifyParallelSymmetric | solve.py:49-55 | the result does not depend on the order of n1 and n2 |
| Reductions.Connect | solve.py:69-70 | adding the merged edge keeps the graph simple and positive and keeps its nodes |
| Reductions.ConnectEdges | solve.py:69-70 | after the merge, the n1-n2 edge carries the simplify_parallel weight and keeps any other data it had |
| Reductions.ConnectOther | solve.py:69-70 | every other edge is unchanged |
| Reductions.LeafPrunedShape | solve.py:43-47 | remove_leaf keeps exactly the nodes whose degree in the input is not 1, in order, with the edges between them and their data; the result is simple and positive |
| Reductions.LeafPrunedFixpoint | solve.py:43-47 | remove_leaf returns its input exactly when there is no leaf, and otherwise has fewer nodes |
| Reductions.DegreeOneNodes | solve.py:45 | the list holds exactly the nodes of degree 1 |
| Reductions.RemoveLeaf | solve.py:43-47 | remove_leaf returns a new graph equal to the leaf-pruned input; the input is not changed |
| Reductions.SeriesMerge | solve.py:62-70 | a series reduction removes exactly the centre node, keeps the others in order, and keeps the graph simple and positive |
| Reductions.SeriesMergeEdges | solve.py:62-70 | the new n1-n2 edge has weight w1 + w2, in parallel with a weighted old n1-n2 edge; edges away from the centre are unchanged; the centre's edges are gone |
| Reductions.SeriesMergeBound | solve.py:65-70 | the resistance a series step leaves between n1 and n2 is positive and at most w1 + w2; when n1 and n2 were already joined by a resistor it is below both that resistor and w1 + w2 |
| Reductions.SeriesMergeSymmetric | solve.py:63 | the series reduction does not depend on which neighbour comes first |
| Reductions.StarMeshMerge | solve.py:79-95 | a star-mesh reduction removes exactly the centre node and keeps the graph simple and positive |
| Reductions.StarMeshMergeEdges | solve.py:85-95 | the triangle's sides get S/Rc, S/Ra and S/Rb, each in parallel with an old weighted edge; other edges are unchanged; the centre's edges are gone |
| Reductions.StarMeshMergeSwap | solve.py:80 | swapping two neighbours does not change the star-mesh result |
| Reductions.StarMeshMergeRotate | solve.py:80 | rotating the three neighbours does not change the star-mesh result |
| Reductions.Mesh | solve.py:90-95 | adding the three mesh edges keeps the graph simple and positive and keeps its nodes |
| Reductions.MeshEdges | solve.py:90-95 | each side of the triangle carries its simplify_parallel weight |
| Reductions.Visit | solve.py:61-64 | visiting a node reduces it exactly when its live degree is 2 (or 3) and all its edges are weighted, and leaves the graph unchanged otherwise |
| Reductions.PassFrom | solve.py:60-72 | a pass never adds a node, only removes nodes it visited, and returns its input exactly when the node count is unchanged |
| Reductions.PassIdle | solve.py:57-96 | a pass leaves the graph unchanged exactly when no node is reducible |
| Reductions.PassStep | solve.py:60 | after one visit, the pass continues from the visited graph over the rest of the node list |
| Reductions.SimplifySeries | solve.py:57-72 | simplify_series returns a new graph equal to the series pass over the input's node list |
| Reductions.SeriesAt | solve.py:61-71 | one loop body of simplify_series changes the graph to the visited value |
| Reductions.SeriesStep | solve.py:65-70 | one series reduction changes the graph to the merged value |
| Reductions.Join | solve.py:69-70 | the simplify_parallel and add_edge pair changes the graph to the connected value |
| Reductions.DeltaYTransform | solve.py:74-96 | delta_y_transform returns a new graph equal to the star-mesh pass over the input's node list |
| Reductions.StarMeshAt | solve.py:78-95 | one loop body of delta_y_transform changes the graph to the visited value |
| Reductions.StarMeshStep | solve.py:82-95 | one star-mesh reduction changes the graph to the merged value |
| Reductions.RunPass | solve.py:59-72 | a pass loop over a copy ends at the pass value |
| Contraction.Contracted | solve.py:31 | contracted_nodes(G, u, v) has the nodes of G without v, plus u |
| Contraction.ContractedEdge | solve.py:31 | after contraction, an edge exists exactly when it existed away from v or was moved from v to u; a moved edge that meets an existing one is recorded in its contraction list |
| Contraction.ContractedSelf | solve.py:30-31 | contracting a node with itself keeps every edge and moves the node to the end of the node list |
| Contraction.ContractedWellFormed | solve.py:31 | contraction of two non-adjacent nodes keeps the graph simple and positive |
| Contraction.ContractNodes | solve.py:31 | the contraction changes the graph to the contracted value |
| Contraction.ContractedReady | solve.py:29-31 | two nodes on one line x + y = c are never adjacent in a lattice-shaped graph, and contracting them keeps that shape |
| Contraction.Merge | solve.py:30-31 | one step of a fold contracts the pair only when both nodes are present, and the node set changes as the step's key function says |
| Contraction.MergeAll | solve.py:29-31 | a sequence of fold steps keeps the lattice shape, and its node set is the key function applied pair by pair |
| Contraction.MergeAllStep | solve.py:29 | the fold over the first i+1 pairs is one more step after the fold over the first i |
| Weights.MergeAttr | solve.py:16-22 | an edge without a contraction record is kept unchanged, and a merged edge has no record |
| Weights.MergeAttrParallel | solve.py:16-22 | the merge succeeds exactly when there is no record, or the edge and every recorded edge have a weight; the merged weight is the reciprocal sum 1/(1/w + sum of 1/w_i), positive and below the edge's own weight w |
| Weights.TidyMergeable | solve.py:14-23 | on a graph whose contracted edges all carry weights, simplify_weights does not fail |
| Weights.MergedWellFormed | solve.py:14-23 | simplify_weights keeps the nodes and edges and keeps the graph simple and positive |
| Weights.MergedEdges | solve.py:14-23 | simplify_weights keeps the rows and exactly the same edges |
| Weights.MergedPlain | solve.py:16-17 | on a graph without contraction records simplify_weights succeeds and changes nothing |
| Weights.MergedEdge | solve.py:16-22 | each edge loses its record; an edge that had none is unchanged; an edge that had one gets the reciprocal-sum weight |
| Weights.MergedReady | solve.py:14-23 | simplify_weights keeps the lattice shape and the node set |
| Weights.SimplifyWeights | solve.py:14-23 | the loop succeeds exactly when every recorded edge can be merged, and then leaves the merged graph |
| Weights.MergedRowsStep | solve.py:16-22 | one row of the loop either shows that the graph cannot be merged or merges that row |
| Weights.MergedRowsAll | solve.py:16-22 | after the loop has merged every row, the graph is the merged graph |
| Folding.FoldPairs | solve.py:27 | the two nodes of a fold pair share their coordinate sum, and a pair of two different nodes has neither node on the diagonal x = y |
| Folding.Folded | solve.py:25-31 | folding keeps the lattice shape and keeps the weightless edge on the diagonal and every recorded weight present |
| Folding.Fold | solve.py:25-32 | fold succeeds exactly when the folded graph can be merged, and then returns the merged fold |
| Folding.RunMerges | solve.py:29-31 | the contraction loop ends at the fold over all pairs |
| Folding.MergeAt | solve.py:30-31 | one loop body extends the fold by one pair |
| Folding.Fold2Pairs | solve.py:36 | there are 2N - 1 pairs, pair x is ((x, 2N-x-1), (x+1, 2N-x-2)), and the two nodes of a pair share their coordinate sum |
| Folding.Folded2 | solve.py:34-40 | fold2 keeps the lattice shape and keeps the weightless edge on the diagonal and every recorded weight present |
| Folding.Fold2 | solve.py:34-41 | fold2 succeeds exactly when its contracted graph can be merged, and then returns the merged graph |
| Layout.FoldStepKeys | solve.py:30-31 | in row-major order, contracting (k, j) with (j, k) removes the mirror (j, k) when it lies below the diagonal and is still present, and changes nothing otherwise |
| Layout.FoldRowKeys | solve.py:29-31 | one row of fold pairs removes the lower-triangle nodes of that column |
| Layout.FoldRowsKeys | solve.py:29-31 | the first k rows of pairs remove the lower-triangle nodes of the first k columns |
| Layout.KeysAfterAppend | solve.py:29 | running two lists of pairs one after the other is running their concatenation |
| Layout.FoldedKeys | solve.py:25-31 | after fold, the nodes are exactly the upper triangle {(x, y) : x <= y} |
| Layout.Fold2Step | solve.py:38-40 | a fold2 pair whose nodes are both present removes its first node, keeping the second |
| Layout.Fold2PrefixKeys | solve.py:38-40 | the first k pairs of fold2 remove the anti-diagonal nodes with x < k and x <= N-2 |
| Layout.Folded2Keys | solve.py:34-40 | after fold then fold2, a node is left exactly when it is in the upper triangle and, if it is on the anti-diagonal, it is (N-1, N): the chain collapses into one node |
| Layout.ChainFull | solve.py:36-40 | the whole chain is every anti-diagonal node of the upper triangle except (N-1, N) |
| Lattice.Neighbours | solve.py:8 | the grid neighbours of a node are exactly the grid nodes one step away along a row or column |
| Lattice.GridNodesListed | solve.py:8 | grid_2d_graph lists each node (i, j) with 0 <= i, j < m exactly once |
| Lattice.GridWellFormed | solve.py:8 | the grid is a simple graph, positive when its resistors are |
| Lattice.UnitGrid | solve.py:9-10 | setting every weight of the bare grid to 1 gives the unit grid |
| Lattice.SetUnitWeights | solve.py:9-10 | the loop sets the weight of every edge to 1 and changes nothing else |
| Lattice.CreateLattice | solve.py:7-12 | create_lattice returns the lattice value, a well-formed graph |
| Lattice.LatticeEdges | solve.py:7-12 | the nodes are the grid's (and the battery's ends); the edges are the grid's, each weight 1, plus the battery (N-1, N-1)-(N, N) with no data |
| Lattice.LatticeZero | solve.py:7-12 | for N = 0 the grid is empty and the lattice is the battery alone: nodes (-1, -1) and (0, 0) joined by an edge without data |
| Lattice.LatticeReady | solve.py:7-12 | for N >= 1 the nodes are exactly (i, j) with 0 <= i, j < 2N; the lattice is simple, no edge joins two nodes on one line x + y = c, no node is isolated, and only the diagonal battery lacks a weight |
| Solver.Round | solve.py:130 | a round never adds a node, and a round that removes none returns its input, which is why the isomorphism test is node-count equality |
| Solver.Settle | solve.py:128-133 | a loop ends at a graph with one edge or a fixpoint of its round, keeping the graph simple and positive, and never adds a node |
| Solver.Reading | solve.py:146-153 | a resistance is read only when exactly one edge is left, and it is that edge's weight, positive |
| Solver.FoldsSucceed | solve.py:120-124 | simplify_weights never fails inside either fold of solve |
| Solver.FoldsKeys | solve.py:119-124 | after the two folds the nodes are the upper triangle with its anti-diagonal collapsed into (N-1, N) |
| Solver.Solve | solve.py:112-153 | solve(N) returns the reading of the graph both loops leave, or none when it would fail |
| Solver.RunPhase | solve.py:128-133 | a while loop of solve ends at the settled graph of its round |
| Solver.Step | solve.py:130 | one iteration builds a new graph equal to the round's value |
| Solver.ReadResistance | solve.py:146-153 | reading the only edge returns the reading |
| Solver.NoSolutionAtZero | solve.py:112-153 | solve(0) has no solution: both battery ends are leaves, the first loop removes them, and no edge is left to read |
| Solver.OnlyEdge | solve.py:146-147 | with one edge left, the edge loop meets exactly that edge |
| Variant.Folded2Kept | resistor_lattice.py:33-39 | this fold2 keeps the lattice shape and keeps the weightless edge on the diagonal and every recorded weight present |
| Variant.Fold2Kept | resistor_lattice.py:33-40 | this fold2 succeeds exactly when its contracted graph can be merged, and then returns the merged graph |
| Variant.Fold2KeptStep | resistor_lattice.py:37-39 | a pair merges only when x is even and x <= N-2; otherwise its first node is already gone or it is past the chain |
| Variant.Fold2KeptPrefixKeys | resistor_lattice.py:37-39 | the first k pairs remove the anti-diagonal nodes in odd columns up to k and N-1 |
| Variant.Folded2KeptKeys | resistor_lattice.py:33-39 | this fold2 leaves the upper triangle less the anti-diagonal nodes in odd columns up to N-1 |
| Variant.Folded2KeptSplitsChain | resistor_lattice.py:39 | for N = 3, (0, 5) and (2, 3) both survive this fold2, whereas solve.py's fold2 leaves only (2, 3) |
| Variant.VariantFoldsSucceed | resistor_lattice.py:110-113 | simplify_weights never fails inside the folds of this solve |
| Variant.VariantFoldsKeys | resistor_lattice.py:110-113 | the nodes this solve reduces: the upper triangle less the odd-column anti-diagonal nodes |
| Variant.VariantSolve | resistor_lattice.py:107-134 | solve(G) on create_lattice(N) reports the reading of the graph both loops leave |

## Left out

- Plotting (`plot_graphs`, `display_graph`), the command line, `__main__`, and every `print` with its `:.3f` format. These are display only.
- Floating point. Resistances are exact reals, so rounding and `math.isclose` tolerances are not modelled.
- `nx.is_isomorphic` is modelled as equal node counts. `Solver.Round` proves that a round which removes no node returns its input unchanged, and a round never adds a node. So for these rounds the two tests agree.
- Neighbour order. `G.neighbors` order is not modelled; the model picks neighbours as the least nodes. The reductions' results do not depend on that order (`Reductions.SeriesMergeSymmetric`, `Reductions.StarMeshMergeSwap`, `Reductions.StarMeshMergeRotate`).
- Copies. `nx.contracted_nodes` returns a copy; the model contracts in place, and `fold` and `fold2` start from a copy of the input.
- Aliasing between the shared data of the two directions of an edge. The model keeps the data of the two directions equal instead.
- The `contraction` record. Networkx stores the removed node's whole edge data under the removed node's name; the model keeps only the recorded weights, the only part `simplify_weights` reads.
- `Folding.Fold`, `Folding.Fold2`, `Variant.Fold2Kept`: these require a lattice-shaped graph (`Contraction.FoldReady`): no edge joins two nodes on one line x + y = c, and no node is isolated. The source accepts any graph, but on a graph where a pair is adjacent, networkx would add a self-loop, which the model does not represent. The lattice meets the requirement (`Lattice.LatticeReady`).
- `Weights.SimplifyWeights`: every error the source raises is reported as failure (`ok` false), not as an exception. These errors are a recorded edge without a weight (`KeyError`), a recorded entry without a weight (read as 0, so a division by zero), a zero weight, and a zero sum of conductances; `Weights.MergeAttr` returns None for each. After a failure the contract does not describe the partly updated graph, which the source discards with the exception.
- `Solver.Solve`: the failures at the end of solve are modelled as no result. When more than one edge, or none, is left, line 153 raises an `UnboundLocalError` on `u`. When exactly one edge is left but it has no weight, the f-string at line 148 raises a `KeyError` before line 153 is reached.
- `Solver.Solve`: N is a natural number. The source accepts any int, and a negative N builds an empty grid plus the battery between (N-1, N-1) and (N, N), exactly the shape of N = 0, so it also ends with no edge and an `UnboundLocalError`. The model proves that outcome for N = 0 only (`Solver.NoSolutionAtZero`).
- `Solver.Solve`: the values 5/7 for N = 2 and 331/495 for N = 3 are not proved. Proving them would mean evaluating the whole reduction on concrete lattices inside the verifier.
- `Lattice.CreateLattice`: the edge count 4N(2N - 1) + 1 is not stated. The edges are characterised one by one instead (`Lattice.LatticeEdges`).
- `Variant.VariantSolve`: the global `N` of `resistor_lattice.py` is a parameter. `solve(G)` is modelled on `create_lattice(N)`, as the `__main__` block calls it.
- `Variant.VariantSolve`: the f-string at `resistor_lattice.py:132` nests same-type quotes, which Python before 3.12 rejects. The model assumes a Python that accepts it.
- The transforms of `resistor_lattice.py` outside `fold2` and `solve` are identical to those of `solve.py`. They are modelled once.

## Findings

| source | as written | input that shows it | evidently intended | confidence | as-written member | corrected member |
|---|---|---|---|---|---|---|
| resistor_lattice.py:39 | `contracted_nodes(G, n1, n2)` keeps n1, so the next pair, whose n1 is the node just removed, is skipped and the anti-diagonal is merged only two nodes at a time | N = 3: (0, 5) and (2, 3) both survive fold2 | collapse the whole anti-diagonal into (N-1, N), as `contracted_nodes(G, n2, n1)` at solve.py:40 does | high for the node sets; not executed | Variant.Folded2KeptSplitsChain | Layout.Folded2Keys |
