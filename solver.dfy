// solve of solve.py: build the lattice, fold it twice, then repeat the
// series-and-leaf round and the star-mesh round each until the graph stops
// changing or one edge is left, and read the equivalent resistance off that
// edge.

module Solver {
  import opened Wrappers
  import opened Network
  import opened Reductions
  import opened Contraction
  import opened Weights
  import opened Folding
  import opened Lattice
  import opened Layout

  /** The two reduction loops of solve. */
  datatype Phase = Pruning | DeltaY

  /** One round of a loop: simplify_series(remove_leaf(G)) or
      simplify_series(delta_y_transform(G)). A round never adds a node, and
      a round that removes none leaves the graph as it was; so the loops'
      test is_isomorphic(G, G_prev) holds exactly when the node count did
      not change. */
  function Round(phase: Phase, g: Net): (h: Net)
    requires WellFormed(g) && Positive(g)
    ensures WellFormed(h) && Positive(h)
    ensures |h.nodes| <= |g.nodes|
    ensures |h.nodes| == |g.nodes| ==> h == g
  {
    match phase
    case Pruning =>
      LeafPrunedShape(g);
      LeafPrunedFixpoint(g);
      Pass(Series, LeafPruned(g))
    case DeltaY =>
      Pass(Series, Pass(StarMesh, g))
  }

  /** A loop of solve: rounds until the new graph is isomorphic to the one
      before (which, for these rounds, is when no node was removed) or has a
      single edge. It stops at a graph with one edge or at a fixpoint of the
      round. */
  function Settle(phase: Phase, g: Net): (h: Net)
    requires WellFormed(g) && Positive(g)
    ensures WellFormed(h) && Positive(h)
    ensures |h.nodes| <= |g.nodes|
    ensures EdgeCount(h) == 1 || Round(phase, h) == h
    decreases |g.nodes|
  {
    var next := Round(phase, g);
    if |next.nodes| == |g.nodes| || EdgeCount(next) == 1 then next
    else Settle(phase, next)
  }

  /** The resistance of the last edge: present only when exactly one edge is
      left and it carries a weight (solve reads G[u][v]['weight'], which fails
      otherwise). */
  ghost function Reading(g: Net): (r: Option<real>)
    requires WellFormed(g)
    ensures r.Some? ==> EdgeCount(g) == 1
    ensures r.Some? ==> exists x, y :: HasEdge(g, x, y) && g.adj[x][y].weight == r
    ensures Positive(g) && r.Some? ==> r.value > 0.0
  {
    if EdgeCount(g) != 1 then None
    else
      var e :| e in EdgeSet(g);
      EdgeSetMember(g, e);
      g.adj[e.0][e.1].weight
  }

  lemma EdgeSetMember(g: Net, e: (Node, Node))
    requires e in EdgeSet(g)
    ensures HasEdge(g, e.0, e.1) && Below(e.0, e.1)
  {
  }

  /** The lattice after both folds, before the reduction loops. */
  ghost function Folds(n: nat): (g: Net)
    ensures WellFormed(g) && Positive(g)
  {
    FoldsSucceed(n);
    var f := Folded(LatticeNet(n), n);
    MergedReady(f);
    var f2 := Folded2(Merged(f), n);
    MergedReady(f2);
    Merged(f2)
  }

  /** The graph both loops of solve leave. */
  ghost function Reduced(n: nat): (g: Net)
    ensures WellFormed(g) && Positive(g)
  {
    Settle(DeltaY, Settle(Pruning, Folds(n)))
  }

  /** What solve(N) returns: None where it fails or finds no solution. */
  ghost function Solution(n: nat): Option<real>
  {
    Reading(Reduced(n))
  }

  /** simplify_weights never fails inside solve: every recorded weight is a
      positive resistor, so fold and fold2 both succeed on the lattice. */
  lemma FoldsSucceed(n: nat)
    ensures FoldReady(LatticeNet(n)) && Tidy(LatticeNet(n))
    ensures Mergeable(Folded(LatticeNet(n), n))
    ensures FoldReady(Merged(Folded(LatticeNet(n), n)))
    ensures Mergeable(Folded2(Merged(Folded(LatticeNet(n), n)), n))
  {
    LatticeReady(n);
    var f := Folded(LatticeNet(n), n);
    TidyMergeable(f);
    MergedReady(f);
    var f2 := Folded2(Merged(f), n);
    TidyMergeable(f2);
  }

  /** The nodes left by the folds: the upper triangle of the 2N x 2N grid,
      with its anti-diagonal collapsed into (N-1, N). */
  lemma FoldsKeys(n: nat)
    requires 1 <= n
    ensures forall p :: p in Folds(n).adj <==> p in Upper(2 * n) && (Level(p) == 2 * n - 1 ==> p == (n - 1, n))
  {
    LatticeReady(n);
    FoldsSucceed(n);
    var f := Folded(LatticeNet(n), n);
    FoldedKeys(LatticeNet(n), n);
    MergedReady(f);
    var f2 := Folded2(Merged(f), n);
    Folded2Keys(Merged(f), n);
    MergedReady(f2);
  }

  // ---------------------------------------------------------------------
  // solve(N)

  method Solve(n: nat) returns (r: Option<real>)
    ensures r == Solution(n)
  {
    var g := CreateLattice(n);
    FoldsSucceed(n);
    var ok;
    g, ok := Fold(g, n);
    ghost var f := Folded(LatticeNet(n), n);
    MergedReady(f);
    g, ok := Fold2(g, n);
    ghost var f2 := Folded2(Merged(f), n);
    MergedReady(f2);
    g := RunPhase(Pruning, g);
    g := RunPhase(DeltaY, g);
    r := ReadResistance(g);
  }

  /** One loop of solve. */
  method RunPhase(phase: Phase, g: Graph) returns (h: Graph)
    requires g.Valid() && Positive(g.Value())
    ensures h.Valid() && h.Value() == Settle(phase, g.Value())
  {
    var prev := g;
    h := Step(phase, prev);
    while |h.nodes| != |prev.nodes| && EdgeCount(h.Value()) != 1
      invariant prev.Valid() && Positive(prev.Value())
      invariant h.Value() == Round(phase, prev.Value())
      invariant Settle(phase, g.Value()) == Settle(phase, prev.Value())
      decreases |prev.nodes|
    {
      prev := h;
      h := Step(phase, prev);
    }
  }

  /** One round, on a new graph. */
  method Step(phase: Phase, g: Graph) returns (h: Graph)
    requires g.Valid() && Positive(g.Value())
    ensures fresh(h) && h.Value() == Round(phase, g.Value())
  {
    var t: Graph;
    match phase {
      case Pruning =>
        t := RemoveLeaf(g);
        LeafPrunedShape(g.Value());
      case DeltaY =>
        t := DeltaYTransform(g);
    }
    h := SimplifySeries(t);
  }

  /** The weight of the only edge, if there is exactly one and it has one. */
  method ReadResistance(g: Graph) returns (r: Option<real>)
    requires g.Valid()
    ensures r == Reading(g.Value())
  {
    if EdgeCount(g.Value()) != 1 {
      return None;
    }
    var e :| e in EdgeSet(g.Value());
    EdgeSetMember(g.Value(), e);
    OnlyEdge(g.Value(), e);
    r := g.adj[e.0][e.1].weight;
  }

  lemma OnlyEdge(g: Net, e: (Node, Node))
    requires EdgeCount(g) == 1 && e in EdgeSet(g)
    ensures EdgeSet(g) == {e}
  {
    assert |EdgeSet(g) - {e}| == 0;
  }

  /** solve(0): the lattice is the battery alone, its two ends are leaves,
      the first loop removes them both and no edge is left to read. */
  lemma NoSolutionAtZero()
    ensures Solution(0) == None
  {
    PruningZero();
    EmptySettled(DeltaY);
    assert EdgeSet(Net([], map[])) == {};
  }

  /** A graph with no node is a fixpoint of both loops. */
  lemma EmptySettled(phase: Phase)
    ensures WellFormed(Net([], map[])) && Positive(Net([], map[]))
    ensures Settle(phase, Net([], map[])) == Net([], map[])
  {
    var e := Net([], map[]);
    assert WellFormed(e) && Positive(e);
  }

  /** The first loop of solve(0) removes the battery and stops at the empty
      graph. */
  lemma PruningZero()
    ensures Settle(Pruning, Folds(0)) == Net([], map[])
  {
    var e := Net([], map[]);
    var l := LatticeNet(0);
    FoldsZero();
    PrunedZero();
    EmptySettled(Pruning);
    assert Round(Pruning, l) == e;
    assert EdgeSet(e) == {};
  }

  /** Neither fold has a pair to merge when N = 0. */
  lemma FoldsZero()
    ensures Folds(0) == LatticeNet(0)
  {
    var l := LatticeNet(0);
    LatticeReady(0);
    LatticeZero();
    assert FoldPairs(0) == [];
    assert Folded(l, 0) == l;
    MergedZero();
    assert Fold2Pairs(0) == [];
    assert Folded2(l, 0) == l;
  }

  /** Both ends of the lone battery are leaves. */
  lemma PrunedZero()
    ensures LeafPruned(LatticeNet(0)) == Net([], map[])
  {
    var l := LatticeNet(0);
    LatticeZero();
    assert Degree(l, Plus(0)) == 1 && Degree(l, Minus(0)) == 1;
    var h := LeafPruned(l);
    assert h.adj.Keys == {};
  }

  /** The lone battery carries no contraction record. */
  lemma MergedZero()
    ensures Mergeable(LatticeNet(0)) && Merged(LatticeNet(0)) == LatticeNet(0)
  {
    LatticeZero();
    MergedPlain(LatticeNet(0));
  }
}
