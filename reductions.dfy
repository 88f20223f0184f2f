// The local reductions of the engine: simplify_parallel, remove_leaf,
// simplify_series and delta_y_transform (solve.py; the same code is in
// resistor_lattice.py).  Each pass is specified by a function on graph values
// and implemented by a method that rewrites a Graph copy in place.

module Reductions {
  import opened Wrappers
  import opened Network
  import opened Resistors

  /** simplify_parallel(G, n1, n2, w): the weight of a new resistor w between
      n1 and n2 once it is combined with the weighted edge already there. */
  function SimplifyParallel(g: Net, n1: Node, n2: Node, w: real): (r: real)
    requires Weighted(g, n1, n2) ==> w + WeightOf(g, n1, n2) != 0.0
    ensures w > 0.0 && Positive(g) ==> 0.0 < r <= w
    ensures w > 0.0 && Positive(g) && Weighted(g, n1, n2) ==>
              r < w && r < WeightOf(g, n1, n2) && 1.0 / r == 1.0 / w + 1.0 / WeightOf(g, n1, n2)
    ensures !Weighted(g, n1, n2) ==> r == w
  {
    if Weighted(g, n1, n2) then
      var wo := WeightOf(g, n1, n2);
      assert w > 0.0 && Positive(g) ==> wo > 0.0 && 0.0 < Parallel(w, wo) < w && Parallel(w, wo) < wo
                                         && 1.0 / Parallel(w, wo) == 1.0 / w + 1.0 / wo by {
        if w > 0.0 && Positive(g) {
          assert AttrPositive(g.adj[n1][n2]);
          ParallelLaw(w, wo);
        }
      }
      Parallel(w, wo)
    else
      w
  }

  /** simplify_parallel does not depend on the order of the two ends. */
  lemma SimplifyParallelSymmetric(g: Net, n1: Node, n2: Node, w: real)
    requires WellFormed(g) && Positive(g) && w > 0.0
    ensures Weighted(g, n1, n2) <==> Weighted(g, n2, n1)
    ensures SimplifyParallel(g, n1, n2, w) == SimplifyParallel(g, n2, n1, w)
  {
    if HasEdge(g, n1, n2) {
      assert g.adj[n2][n1] == g.adj[n1][n2];
    }
    if HasEdge(g, n2, n1) {
      assert g.adj[n1][n2] == g.adj[n2][n1];
    }
  }

  lemma PositiveData(g: Net, a: Node, b: Node)
    requires Positive(g)
    ensures AttrPositive(DataOf(g, a, b))
  {
    if HasEdge(g, a, b) {
      assert AttrPositive(g.adj[a][b]);
    }
  }

  /** The edge data after combining a new resistor w with edge a-b. */
  function Combined(g: Net, a: Node, b: Node, w: real): Attr
    requires Positive(g) && w > 0.0
  {
    PositiveData(g, a, b);
    DataOf(g, a, b).(weight := Some(SimplifyParallel(g, a, b, w)))
  }

  lemma CombinedPositive(g: Net, a: Node, b: Node, w: real)
    requires Positive(g) && w > 0.0
    ensures AttrPositive(Combined(g, a, b, w))
  {
    PositiveData(g, a, b);
  }

  /** add_edge(a, b, weight=simplify_parallel(G, a, b, w)) */
  function Connect(g: Net, a: Node, b: Node, w: real): (h: Net)
    requires WellFormed(g) && Positive(g) && w > 0.0 && a != b && a in g.adj && b in g.adj
    ensures WellFormed(h) && Positive(h)
    ensures h.nodes == g.nodes && h.adj.Keys == g.adj.Keys
  {
    CombinedPositive(g, a, b, w);
    LinkWellFormed(g, a, b, Combined(g, a, b, w));
    Link(g, a, b, Combined(g, a, b, w))
  }

  // ---------------------------------------------------------------------
  // remove_leaf

  /** The nodes of degree 1. */
  function Leaves(g: Net): set<Node>
  {
    set x | x in g.adj && Degree(g, x) == 1
  }

  /** remove_leaf(G): a copy of G without its degree-1 nodes (degrees are taken
      before any removal). */
  function LeafPruned(g: Net): (h: Net)
  {
    RemoveAll(g, Leaves(g))
  }

  /** What remove_leaf keeps: exactly the nodes whose degree was not 1, in the
      same order, with the edges between them and their data. */
  lemma LeafPrunedShape(g: Net)
    requires WellFormed(g)
    ensures WellFormed(LeafPruned(g))
    ensures Positive(g) ==> Positive(LeafPruned(g))
    ensures LeafPruned(g).nodes == Omit(g.nodes, Leaves(g))
    ensures forall x :: x in LeafPruned(g).adj <==> x in g.adj && Degree(g, x) != 1
    ensures forall x, y :: HasEdge(LeafPruned(g), x, y) <==>
              HasEdge(g, x, y) && Degree(g, x) != 1 && Degree(g, y) != 1
    ensures forall x, y :: HasEdge(LeafPruned(g), x, y) ==> LeafPruned(g).adj[x][y] == g.adj[x][y]
  {
    var h := LeafPruned(g);
    RemoveAllWellFormed(g, Leaves(g));
    forall x, y | HasEdge(g, x, y) && Degree(g, x) != 1 && Degree(g, y) != 1
      ensures HasEdge(h, x, y)
    {
      assert x !in Leaves(g) && y !in Leaves(g);
    }
  }

  /** A graph without leaves is left as it is: remove_leaf is the identity on
      its own results whenever it removed no edge to a new leaf. */
  lemma LeafPrunedFixpoint(g: Net)
    requires WellFormed(g)
    ensures Leaves(g) == {} <==> LeafPruned(g) == g
    ensures |LeafPruned(g).nodes| <= |g.nodes|
    ensures |LeafPruned(g).nodes| == |g.nodes| ==> LeafPruned(g) == g
  {
    OmitFacts(g.nodes, Leaves(g));
    if Leaves(g) == {} {
      RemoveAbsent(g, Leaves(g));
    }
    if LeafPruned(g) == g {
      forall x | x in g.adj ensures x !in Leaves(g) {
        assert x in LeafPruned(g).adj;
      }
    }
    if |LeafPruned(g).nodes| == |g.nodes| {
      forall x | x in g.adj ensures x !in Leaves(g) {
        assert x in g.nodes;
      }
      RemoveAbsent(g, Leaves(g));
    }
  }

  /** The degree-1 nodes of g, in node order:
      [node for node, degree in G.degree() if degree == 1]. */
  method DegreeOneNodes(g: Graph) returns (leaves: seq<Node>)
    requires g.Valid()
    ensures forall x :: x in leaves <==> x in Leaves(g.Value())
  {
    var order := g.nodes;
    leaves := [];
    var i := 0;
    while i < |order|
      invariant 0 <= i <= |order|
      invariant forall x :: x in leaves <==> x in order[..i] && Degree(g.Value(), x) == 1
    {
      if |g.adj[order[i]]| == 1 {
        leaves := leaves + [order[i]];
      }
      assert order[..i + 1] == order[..i] + [order[i]];
      i := i + 1;
    }
    assert order[..i] == order;
  }

  /** remove_leaf(G): copy G, collect the nodes of degree 1, remove them. */
  method RemoveLeaf(g: Graph) returns (h: Graph)
    requires g.Valid()
    ensures fresh(h) && h.Value() == LeafPruned(g.Value())
  {
    h := g.Copy();
    var leaves := DegreeOneNodes(h);
    h.RemoveNodesFrom(leaves);
    assert (set x | x in leaves) == Leaves(g.Value());
  }

  // ---------------------------------------------------------------------
  // simplify_series and delta_y_transform

  /** Every edge at c carries a weight. */
  predicate AllWeighted(g: Net, c: Node)
    requires c in g.adj
  {
    forall y :: y in g.adj[c] ==> g.adj[c][y].weight.Some?
  }

  /** The two rewrites: a node with exactly two weighted edges is replaced by
      one edge (series), a node with exactly three weighted edges by a
      triangle (star-mesh). */
  datatype Rule = Series | StarMesh

  function Arity(rule: Rule): nat
  {
    match rule
    case Series => 2
    case StarMesh => 3
  }

  /** The node c is rewritten when visited. */
  predicate Reducible(rule: Rule, g: Net, c: Node)
  {
    c in g.adj && |g.adj[c]| == Arity(rule) && AllWeighted(g, c)
  }

  /** h is g without the node c: c and its edges are gone, and the other
      nodes keep their order. */
  ghost predicate Shrunk(g: Net, h: Net, c: Node)
  {
    h.nodes == Omit(g.nodes, {c}) && h.adj.Keys == g.adj.Keys - {c}
  }

  /** A neighbour of c is another node of the graph, joined to c by an edge
      of positive resistance. */
  lemma Arm(g: Net, c: Node, y: Node)
    requires Simple(g) && Positive(g) && c in g.adj && y in g.adj[c]
    ensures y in g.adj && y != c && AttrPositive(g.adj[c][y])
  {
  }

  /** y is a neighbour of c and the edge c-y carries a weight. */
  predicate WeightedArm(g: Net, c: Node, y: Node)
  {
    c in g.adj && y in g.adj[c] && g.adj[c][y].weight.Some?
  }

  /** The resistance of the edge from c to its neighbour y. */
  function ArmWeight(g: Net, c: Node, y: Node): real
    requires WeightedArm(g, c, y)
  {
    g.adj[c][y].weight.value
  }

  /** The resistance that replaces the two arms of a series node. */
  function SeriesWeight(g: Net, c: Node, a: Node, b: Node): real
    requires WeightedArm(g, c, a) && WeightedArm(g, c, b)
  {
    ArmWeight(g, c, a) + ArmWeight(g, c, b)
  }

  /** The series step at c through its weighted arms to a and b: c goes and
      a and b are joined by the two arms in series. */
  function SeriesMerge(g: Net, c: Node, a: Node, b: Node): (h: Net)
    requires WellFormed(g) && Positive(g) && a != b && WeightedArm(g, c, a) && WeightedArm(g, c, b)
    ensures WellFormed(h) && Positive(h) && Shrunk(g, h, c)
  {
    Arm(g, c, a);
    Arm(g, c, b);
    RemoveAllWellFormed(g, {c});
    Connect(RemoveAll(g, {c}), a, b, SeriesWeight(g, c, a, b))
  }

  /** The star-mesh step at c through its weighted arms to a, b and d: the edge
      between two of them gets (RaRb + RbRc + RcRa) divided by the arm to the
      third. */
  function StarMeshMerge(g: Net, c: Node, a: Node, b: Node, d: Node): (h: Net)
    requires WellFormed(g) && Positive(g) && a != b && b != d && d != a
    requires WeightedArm(g, c, a) && WeightedArm(g, c, b) && WeightedArm(g, c, d)
    ensures WellFormed(h) && Positive(h) && Shrunk(g, h, c)
  {
    Arm(g, c, a);
    Arm(g, c, b);
    Arm(g, c, d);
    RemoveAllWellFormed(g, {c});
    Mesh(RemoveAll(g, {c}), a, b, d, ArmWeight(g, c, a), ArmWeight(g, c, b), ArmWeight(g, c, d))
  }

  /** The triangle that replaces a star with arms ra (to a), rb (to b) and
      rc (to d), each side combined with the edge already there. */
  function Mesh(g: Net, a: Node, b: Node, d: Node, ra: real, rb: real, rc: real): (h: Net)
    requires WellFormed(g) && Positive(g) && a in g.adj && b in g.adj && d in g.adj
    requires a != b && b != d && d != a && ra > 0.0 && rb > 0.0 && rc > 0.0
    ensures WellFormed(h) && Positive(h) && h.nodes == g.nodes && h.adj.Keys == g.adj.Keys
  {
    MeshEdgePositive(ra, rb, rc);
    MeshEdgePositive(rb, rc, ra);
    MeshEdgePositive(rc, ra, rb);
    var g1 := Connect(g, a, b, MeshEdge(ra, rb, rc));
    var g2 := Connect(g1, b, d, MeshEdge(rb, rc, ra));
    Connect(g2, d, a, MeshEdge(rc, ra, rb))
  }

  /** The rewrite of a node that qualifies.  Neighbours are taken in
      lexicographic order. */
  function Rewrite(rule: Rule, g: Net, c: Node): (h: Net)
    requires WellFormed(g) && Positive(g) && Reducible(rule, g, c)
    ensures WellFormed(h) && Positive(h) && Shrunk(g, h, c)
  {
    var nbrs := g.adj[c];
    match rule
    case Series =>
      var p := Pair(nbrs.Keys);
      assert nbrs[p.0].weight.Some? && nbrs[p.1].weight.Some?;
      SeriesMerge(g, c, p.0, p.1)
    case StarMesh =>
      var t := Triple(nbrs.Keys);
      assert nbrs[t.0].weight.Some? && nbrs[t.1].weight.Some? && nbrs[t.2].weight.Some?;
      StarMeshMerge(g, c, t.0, t.1, t.2)
  }

  /** Visiting node c: rewrite it when it qualifies, otherwise leave the
      graph as it is. */
  function Visit(rule: Rule, g: Net, c: Node): (h: Net)
    requires WellFormed(g) && Positive(g) && c in g.adj
    ensures WellFormed(h) && Positive(h)
    ensures Reducible(rule, g, c) ==> Shrunk(g, h, c)
    ensures !Reducible(rule, g, c) ==> h == g
  {
    if Reducible(rule, g, c) then Rewrite(rule, g, c) else g
  }

  /** The nodes still to visit: no repetition, all in the graph. */
  ghost predicate Pending(g: Net, todo: seq<Node>)
  {
    Distinct(todo) && forall x :: x in todo ==> x in g.adj
  }

  /** Visiting the nodes of todo in order, degrees read on the current graph. */
  function PassFrom(rule: Rule, g: Net, todo: seq<Node>): (h: Net)
    requires WellFormed(g) && Positive(g)
    requires Pending(g, todo)
    ensures WellFormed(h) && Positive(h)
    ensures h.adj.Keys <= g.adj.Keys
    ensures forall x :: x in g.adj && x !in h.adj ==> x in todo
    ensures |h.nodes| <= |g.nodes|
    ensures |h.nodes| == |g.nodes| ==> h == g
    decreases |todo|
  {
    if todo == [] then g
    else
      var v := Visit(rule, g, todo[0]);
      DistinctTail(todo);
      assert forall x :: x in todo[1..] ==> x in todo;
      assert v != g ==> |v.nodes| == |g.nodes| - 1 by {
        if v != g {
          assert todo[0] in g.nodes;
          OmitOne(g.nodes, todo[0]);
        }
      }
      PassFrom(rule, v, todo[1..])
  }

  /** simplify_series(G) and delta_y_transform(G) as functions: every node of
      the graph visited once, in node order. */
  function Pass(rule: Rule, g: Net): (h: Net)
    requires WellFormed(g) && Positive(g)
  {
    PassFrom(rule, g, g.nodes)
  }

  /** One visit of a pass: the rest of the list is still there and the pass
      goes on from the visited graph. */
  lemma PassStep(rule: Rule, g: Net, todo: seq<Node>)
    requires WellFormed(g) && Positive(g) && todo != []
    requires Pending(g, todo)
    ensures Pending(Visit(rule, g, todo[0]), todo[1..])
    ensures PassFrom(rule, g, todo) == PassFrom(rule, Visit(rule, g, todo[0]), todo[1..])
  {
    DistinctTail(todo);
    assert forall x :: x in todo[1..] ==> x in todo;
  }

  /** The shared loop of simplify_series and delta_y_transform: on a copy,
      visit every node of the original node order, reading degrees and
      weights on the graph as rewritten so far. */
  method RunPass(rule: Rule, g: Graph) returns (h: Graph)
    requires g.Valid() && Positive(g.Value())
    ensures fresh(h) && h.Value() == Pass(rule, g.Value())
  {
    ghost var target := Pass(rule, g.Value());
    h := g.Copy();
    var order := h.nodes;
    var i := 0;
    while i < |order|
      invariant 0 <= i <= |order|
      invariant WellFormed(h.Value()) && Positive(h.Value()) && Pending(h.Value(), order[i..])
      invariant PassFrom(rule, h.Value(), order[i..]) == target
    {
      ghost var todo := order[i..];
      PassStep(rule, h.Value(), todo);
      assert todo[0] == order[i] && todo[1..] == order[i + 1..];
      VisitAt(rule, h, order[i]);
      i := i + 1;
    }
  }

  /** One visit of a pass, in place. */
  method VisitAt(rule: Rule, h: Graph, node: Node)
    requires WellFormed(h.Value()) && Positive(h.Value()) && node in h.adj
    modifies h
    ensures h.Value() == Visit(rule, old(h.Value()), node)
  {
    match rule
    case Series => SeriesAt(h, node);
    case StarMesh => StarMeshAt(h, node);
  }

  /** simplify_series(G) */
  method SimplifySeries(g: Graph) returns (h: Graph)
    requires g.Valid() && Positive(g.Value())
    ensures fresh(h) && h.Value() == Pass(Series, g.Value())
  {
    h := RunPass(Series, g);
  }

  /** The body of simplify_series for one node: a node with two neighbours
      joined by weighted edges is removed and its neighbours are joined by the
      series resistance, combined in parallel with the edge already between
      them. */
  method SeriesAt(h: Graph, node: Node)
    requires WellFormed(h.Value()) && Positive(h.Value()) && node in h.adj
    modifies h
    ensures h.Value() == Visit(Series, old(h.Value()), node)
  {
    ghost var before := h.Value();
    var nbrs := h.adj[node];
    if |nbrs| == 2 {
      var p := Pair(nbrs.Keys);
      var n1, n2 := p.0, p.1;
      if nbrs[n1].weight.Some? && nbrs[n2].weight.Some? {
        forall y | y in nbrs ensures nbrs[y].weight.Some? {
          assert y in nbrs.Keys;
        }
        assert Reducible(Series, before, node);
        SeriesStep(h, node, n1, n2);
      }
    }
  }

  /** G.add_edge(a, b, weight=simplify_parallel(G, a, b, w)) on the graph
      being rewritten. */
  method Join(h: Graph, a: Node, b: Node, w: real)
    requires WellFormed(h.Value()) && Positive(h.Value()) && w > 0.0
    requires a != b && a in h.adj && b in h.adj
    modifies h
    ensures h.Value() == Connect(old(h.Value()), a, b, w)
  {
    var wn := SimplifyParallel(h.Value(), a, b, w);
    h.AddEdge(a, b, DataOf(h.Value(), a, b).(weight := Some(wn)));
  }

  /** The body of simplify_series for one qualifying node: remove it, then
      join its two neighbours by the sum of its two resistances. */
  method SeriesStep(h: Graph, node: Node, n1: Node, n2: Node)
    requires WellFormed(h.Value()) && Positive(h.Value()) && node in h.adj
    requires n1 != n2 && WeightedArm(h.Value(), node, n1) && WeightedArm(h.Value(), node, n2)
    modifies h
    ensures h.Value() == SeriesMerge(old(h.Value()), node, n1, n2)
  {
    RemoveAllWellFormed(h.Value(), {node});
    Arm(h.Value(), node, n1);
    Arm(h.Value(), node, n2);
    var w := SeriesWeight(h.Value(), node, n1, n2);
    h.RemoveNode(node);
    Join(h, n1, n2, w);
  }

  method DeltaYTransform(g: Graph) returns (h: Graph)
    requires g.Valid() && Positive(g.Value())
    ensures fresh(h) && h.Value() == Pass(StarMesh, g.Value())
  {
    h := RunPass(StarMesh, g);
  }

  /** The body of delta_y_transform for one node: a node with three
      neighbours joined by weighted edges is removed and its neighbours are
      joined pairwise by the star-mesh resistances, each combined in parallel
      with the edge already there. */
  method StarMeshAt(h: Graph, node: Node)
    requires WellFormed(h.Value()) && Positive(h.Value()) && node in h.adj
    modifies h
    ensures h.Value() == Visit(StarMesh, old(h.Value()), node)
  {
    ghost var before := h.Value();
    var nbrs := h.adj[node];
    if |nbrs| == 3 {
      var t := Triple(nbrs.Keys);
      var n1, n2, n3 := t.0, t.1, t.2;
      if nbrs[n1].weight.Some? && nbrs[n2].weight.Some? && nbrs[n3].weight.Some? {
        forall y | y in nbrs ensures nbrs[y].weight.Some? {
          assert y in nbrs.Keys;
        }
        assert Reducible(StarMesh, before, node);
        StarMeshStep(h, node, n1, n2, n3);
      }
    }
  }

  /** The body of delta_y_transform for one qualifying node. */
  method StarMeshStep(h: Graph, node: Node, n1: Node, n2: Node, n3: Node)
    requires WellFormed(h.Value()) && Positive(h.Value()) && node in h.adj
    requires n1 != n2 && n2 != n3 && n3 != n1
    requires WeightedArm(h.Value(), node, n1) && WeightedArm(h.Value(), node, n2) && WeightedArm(h.Value(), node, n3)
    modifies h
    ensures h.Value() == StarMeshMerge(old(h.Value()), node, n1, n2, n3)
  {
    ghost var before := h.Value();
    RemoveAllWellFormed(before, {node});
    Arm(before, node, n1);
    Arm(before, node, n2);
    Arm(before, node, n3);
    var ra := ArmWeight(h.Value(), node, n1);
    var rb := ArmWeight(h.Value(), node, n2);
    var rc := ArmWeight(h.Value(), node, n3);
    h.RemoveNode(node);
    MeshJoin(h, n1, n2, n3, ra, rb, rc);
  }

  /** The three add_edge calls of delta_y_transform: with R = RaRb + RbRc +
      RcRa, the side opposite each arm gets R over that arm. */
  method MeshJoin(h: Graph, a: Node, b: Node, d: Node, ra: real, rb: real, rc: real)
    requires WellFormed(h.Value()) && Positive(h.Value()) && a in h.adj && b in h.adj && d in h.adj
    requires a != b && b != d && d != a && ra > 0.0 && rb > 0.0 && rc > 0.0
    modifies h
    ensures h.Value() == Mesh(old(h.Value()), a, b, d, ra, rb, rc)
  {
    MeshEdgePositive(ra, rb, rc);
    MeshEdgePositive(rb, rc, ra);
    MeshEdgePositive(rc, ra, rb);
    Join(h, a, b, MeshEdge(ra, rb, rc));
    Join(h, b, d, MeshEdge(rb, rc, ra));
    Join(h, d, a, MeshEdge(rc, ra, rb));
  }

  // ---------------------------------------------------------------------
  // Laws of the passes

  /** A pass leaves the graph as it is exactly when none of the nodes it
      visits qualifies; this is what lets the solver stop once a round
      removes no node. */
  lemma {:induction false} PassFromIdle(rule: Rule, g: Net, todo: seq<Node>)
    requires WellFormed(g) && Positive(g) && Pending(g, todo)
    ensures PassFrom(rule, g, todo) == g <==> forall x :: x in todo ==> !Reducible(rule, g, x)
    decreases |todo|
  {
    if todo != [] {
      PassStep(rule, g, todo);
      var v := Visit(rule, g, todo[0]);
      assert forall x :: x in todo <==> x == todo[0] || x in todo[1..];
      if Reducible(rule, g, todo[0]) {
        assert todo[0] !in PassFrom(rule, v, todo[1..]).adj;
      } else {
        PassFromIdle(rule, g, todo[1..]);
      }
    }
  }

  lemma PassIdle(rule: Rule, g: Net)
    requires WellFormed(g) && Positive(g)
    ensures Pass(rule, g) == g <==> forall x :: x in g.adj ==> !Reducible(rule, g, x)
  {
    PassFromIdle(rule, g, g.nodes);
  }

  /** The edge a-b written by Connect, and every other edge untouched. */
  lemma ConnectEdges(g: Net, a: Node, b: Node, w: real)
    requires WellFormed(g) && Positive(g) && w > 0.0 && a != b && a in g.adj && b in g.adj
    ensures HasEdge(Connect(g, a, b, w), a, b)
    ensures Connect(g, a, b, w).adj[a][b] == DataOf(g, a, b).(weight := Some(SimplifyParallel(g, a, b, w)))
  {
  }

  /** Connect leaves every edge other than a-b as it was. */
  lemma ConnectOther(g: Net, a: Node, b: Node, w: real, x: Node, y: Node)
    requires WellFormed(g) && Positive(g) && w > 0.0 && a != b && a in g.adj && b in g.adj
    requires !(x == a && y == b) && !(x == b && y == a)
    ensures HasEdge(Connect(g, a, b, w), x, y) <==> HasEdge(g, x, y)
    ensures HasEdge(g, x, y) ==> Connect(g, a, b, w).adj[x][y] == g.adj[x][y]
  {
  }

  /** The edges after a series step at c: its neighbours a and b are joined
      by Ra + Rb, in parallel with the a-b resistor already there; the edges
      that do not touch c are kept with their data. */
  lemma SeriesMergeEdges(g: Net, c: Node, a: Node, b: Node)
    requires WellFormed(g) && Positive(g) && a != b && WeightedArm(g, c, a) && WeightedArm(g, c, b)
    ensures Weighted(g, a, b) ==> WeightOf(g, a, b) > 0.0
    ensures SeriesWeight(g, c, a, b) > 0.0
    ensures HasEdge(SeriesMerge(g, c, a, b), a, b)
    ensures SeriesMerge(g, c, a, b).adj[a][b].weight ==
              Some(if Weighted(g, a, b) then Parallel(SeriesWeight(g, c, a, b), WeightOf(g, a, b))
                   else SeriesWeight(g, c, a, b))
    ensures SeriesMerge(g, c, a, b).adj[a][b].contraction == DataOf(g, a, b).contraction
    ensures forall x, y :: !(x == a && y == b) && !(x == b && y == a) ==>
              (HasEdge(SeriesMerge(g, c, a, b), x, y) <==> HasEdge(g, x, y) && x != c && y != c)
    ensures forall x, y :: (HasEdge(g, x, y) && x != c && y != c &&
              !(x == a && y == b) && !(x == b && y == a)) ==>
              SeriesMerge(g, c, a, b).adj[x][y] == g.adj[x][y]
  {
    Arm(g, c, a);
    Arm(g, c, b);
    var g1 := RemoveAll(g, {c});
    RemoveAllWellFormed(g, {c});
    RemoveAllEdge(g, {c}, a, b);
    assert DataOf(g1, a, b) == DataOf(g, a, b);
    PositiveData(g, a, b);
    ConnectEdges(g1, a, b, SeriesWeight(g, c, a, b));
    forall x, y | !(x == a && y == b) && !(x == b && y == a)
      ensures HasEdge(SeriesMerge(g, c, a, b), x, y) <==> HasEdge(g, x, y) && x != c && y != c
      ensures HasEdge(g, x, y) && x != c && y != c ==> SeriesMerge(g, c, a, b).adj[x][y] == g.adj[x][y]
    {
      SeriesOther(g, c, a, b, x, y);
    }
  }

  /** The resistance a series step leaves between a and b is positive and no
      more than the two arms in series; when a and b were already joined by
      a resistor, it is below both that resistor and the arms. */
  lemma SeriesMergeBound(g: Net, c: Node, a: Node, b: Node)
    requires WellFormed(g) && Positive(g) && a != b && WeightedArm(g, c, a) && WeightedArm(g, c, b)
    ensures HasEdge(SeriesMerge(g, c, a, b), a, b) && SeriesMerge(g, c, a, b).adj[a][b].weight.Some?
    ensures 0.0 < SeriesMerge(g, c, a, b).adj[a][b].weight.value <= ArmWeight(g, c, a) + ArmWeight(g, c, b)
    ensures Weighted(g, a, b) ==>
              && SeriesMerge(g, c, a, b).adj[a][b].weight.value < ArmWeight(g, c, a) + ArmWeight(g, c, b)
              && SeriesMerge(g, c, a, b).adj[a][b].weight.value < WeightOf(g, a, b)
  {
    SeriesMergeEdges(g, c, a, b);
    if Weighted(g, a, b) {
      ParallelLaw(SeriesWeight(g, c, a, b), WeightOf(g, a, b));
    }
  }

  lemma SeriesOther(g: Net, c: Node, a: Node, b: Node, x: Node, y: Node)
    requires WellFormed(g) && Positive(g) && a != b && WeightedArm(g, c, a) && WeightedArm(g, c, b)
    requires !(x == a && y == b) && !(x == b && y == a)
    ensures HasEdge(SeriesMerge(g, c, a, b), x, y) <==> HasEdge(g, x, y) && x != c && y != c
    ensures HasEdge(g, x, y) && x != c && y != c ==> SeriesMerge(g, c, a, b).adj[x][y] == g.adj[x][y]
  {
    var g1 := RemoveAll(g, {c});
    assert HasEdge(g1, x, y) <==> HasEdge(g, x, y) && x != c && y != c by {
      RemoveAllEdge(g, {c}, x, y);
    }
    Arm(g, c, a);
    Arm(g, c, b);
    RemoveAllWellFormed(g, {c});
    ConnectOther(g1, a, b, SeriesWeight(g, c, a, b), x, y);
  }

  /** A rewrite away from the ends p and q does not change how a new resistor
      between p and q combines with the edge already there. */
  lemma SameEnds(g: Net, k: Net, p: Node, q: Node, w: real)
    requires Positive(g) && Positive(k) && w > 0.0
    requires HasEdge(k, p, q) <==> HasEdge(g, p, q)
    requires HasEdge(g, p, q) ==> k.adj[p][q] == g.adj[p][q]
    ensures DataOf(k, p, q) == DataOf(g, p, q)
    ensures SimplifyParallel(k, p, q, w) == SimplifyParallel(g, p, q, w)
  {
  }

  /** The three sides written by Mesh, each combined with the edge that was
      there before, and every other edge untouched. */
  lemma MeshEdges(g: Net, a: Node, b: Node, d: Node, ra: real, rb: real, rc: real)
    requires WellFormed(g) && Positive(g) && a in g.adj && b in g.adj && d in g.adj
    requires a != b && b != d && d != a && ra > 0.0 && rb > 0.0 && rc > 0.0
    ensures MeshEdge(ra, rb, rc) > 0.0 && MeshEdge(rb, rc, ra) > 0.0 && MeshEdge(rc, ra, rb) > 0.0
    ensures HasEdge(Mesh(g, a, b, d, ra, rb, rc), a, b)
    ensures Mesh(g, a, b, d, ra, rb, rc).adj[a][b] ==
              DataOf(g, a, b).(weight := Some(SimplifyParallel(g, a, b, MeshEdge(ra, rb, rc))))
    ensures HasEdge(Mesh(g, a, b, d, ra, rb, rc), b, d)
    ensures Mesh(g, a, b, d, ra, rb, rc).adj[b][d] ==
              DataOf(g, b, d).(weight := Some(SimplifyParallel(g, b, d, MeshEdge(rb, rc, ra))))
    ensures HasEdge(Mesh(g, a, b, d, ra, rb, rc), d, a)
    ensures Mesh(g, a, b, d, ra, rb, rc).adj[d][a] ==
              DataOf(g, d, a).(weight := Some(SimplifyParallel(g, d, a, MeshEdge(rc, ra, rb))))
  {
    MeshEdgePositive(ra, rb, rc);
    MeshEdgePositive(rb, rc, ra);
    MeshEdgePositive(rc, ra, rb);
    var g1 := Connect(g, a, b, MeshEdge(ra, rb, rc));
    var g2 := Connect(g1, b, d, MeshEdge(rb, rc, ra));
    var h := Connect(g2, d, a, MeshEdge(rc, ra, rb));
    ConnectEdges(g, a, b, MeshEdge(ra, rb, rc));
    ConnectEdges(g1, b, d, MeshEdge(rb, rc, ra));
    ConnectEdges(g2, d, a, MeshEdge(rc, ra, rb));
    ConnectOther(g1, b, d, MeshEdge(rb, rc, ra), a, b);
    ConnectOther(g2, d, a, MeshEdge(rc, ra, rb), a, b);
    ConnectOther(g2, d, a, MeshEdge(rc, ra, rb), b, d);
    ConnectOther(g, a, b, MeshEdge(ra, rb, rc), b, d);
    ConnectOther(g, a, b, MeshEdge(ra, rb, rc), d, a);
    ConnectOther(g1, b, d, MeshEdge(rb, rc, ra), d, a);
    SameEnds(g, g1, b, d, MeshEdge(rb, rc, ra));
    SameEnds(g, g2, d, a, MeshEdge(rc, ra, rb));
  }

  /** Mesh leaves every edge other than the three sides as it was. */
  lemma MeshOther(g: Net, a: Node, b: Node, d: Node, ra: real, rb: real, rc: real, x: Node, y: Node)
    requires WellFormed(g) && Positive(g) && a in g.adj && b in g.adj && d in g.adj
    requires a != b && b != d && d != a && ra > 0.0 && rb > 0.0 && rc > 0.0
    requires !Side(a, b, d, x, y)
    ensures HasEdge(Mesh(g, a, b, d, ra, rb, rc), x, y) <==> HasEdge(g, x, y)
    ensures HasEdge(g, x, y) ==> Mesh(g, a, b, d, ra, rb, rc).adj[x][y] == g.adj[x][y]
  {
    MeshEdgePositive(ra, rb, rc);
    MeshEdgePositive(rb, rc, ra);
    MeshEdgePositive(rc, ra, rb);
    var g1 := Connect(g, a, b, MeshEdge(ra, rb, rc));
    var g2 := Connect(g1, b, d, MeshEdge(rb, rc, ra));
    ConnectOther(g, a, b, MeshEdge(ra, rb, rc), x, y);
    ConnectOther(g1, b, d, MeshEdge(rb, rc, ra), x, y);
    ConnectOther(g2, d, a, MeshEdge(rc, ra, rb), x, y);
  }

  /** The data of the mesh side p-q that replaces the star at c, whose third
      arm goes to r: the star sum over the arm to r, in parallel with the p-q
      resistor already there. */
  function MeshSide(g: Net, c: Node, p: Node, q: Node, r: Node): Attr
    requires Positive(g) && Simple(g) && WeightedArm(g, c, p) && WeightedArm(g, c, q) && WeightedArm(g, c, r)
  {
    Arm(g, c, p);
    Arm(g, c, q);
    Arm(g, c, r);
    MeshEdgePositive(ArmWeight(g, c, p), ArmWeight(g, c, q), ArmWeight(g, c, r));
    PositiveData(g, p, q);
    DataOf(g, p, q).(weight := Some(SimplifyParallel(g, p, q,
                                      MeshEdge(ArmWeight(g, c, p), ArmWeight(g, c, q), ArmWeight(g, c, r)))))
  }

  /** A mesh side is the same seen from either end. */
  lemma MeshSideSymmetric(g: Net, c: Node, p: Node, q: Node, r: Node)
    requires WellFormed(g) && Positive(g) && WeightedArm(g, c, p) && WeightedArm(g, c, q) && WeightedArm(g, c, r)
    ensures MeshSide(g, c, p, q, r) == MeshSide(g, c, q, p, r)
  {
    Arm(g, c, p);
    Arm(g, c, q);
    Arm(g, c, r);
    var rp, rq, rr := ArmWeight(g, c, p), ArmWeight(g, c, q), ArmWeight(g, c, r);
    MeshEdgePositive(rp, rq, rr);
    MeshEdgeSymmetric(rp, rq, rr);
    SimplifyParallelSymmetric(g, p, q, MeshEdge(rp, rq, rr));
    assert DataOf(g, q, p) == DataOf(g, p, q);
  }

  /** The edges after a star-mesh step at c with arms to a, b and d: each
      pair of neighbours is joined by its mesh side; the edges that do not
      touch c are kept with their data. */
  lemma StarMeshMergeEdges(g: Net, c: Node, a: Node, b: Node, d: Node)
    requires WellFormed(g) && Positive(g) && a != b && b != d && d != a
    requires WeightedArm(g, c, a) && WeightedArm(g, c, b) && WeightedArm(g, c, d)
    ensures HasEdge(StarMeshMerge(g, c, a, b, d), a, b) && HasEdge(StarMeshMerge(g, c, a, b, d), b, a)
    ensures HasEdge(StarMeshMerge(g, c, a, b, d), b, d) && HasEdge(StarMeshMerge(g, c, a, b, d), d, b)
    ensures HasEdge(StarMeshMerge(g, c, a, b, d), d, a) && HasEdge(StarMeshMerge(g, c, a, b, d), a, d)
    ensures StarMeshMerge(g, c, a, b, d).adj[a][b] == StarMeshMerge(g, c, a, b, d).adj[b][a] == MeshSide(g, c, a, b, d)
    ensures StarMeshMerge(g, c, a, b, d).adj[b][d] == StarMeshMerge(g, c, a, b, d).adj[d][b] == MeshSide(g, c, b, d, a)
    ensures StarMeshMerge(g, c, a, b, d).adj[d][a] == StarMeshMerge(g, c, a, b, d).adj[a][d] == MeshSide(g, c, d, a, b)
    ensures forall x, y :: !Side(a, b, d, x, y) ==>
              (HasEdge(StarMeshMerge(g, c, a, b, d), x, y) <==> HasEdge(g, x, y) && x != c && y != c)
    ensures forall x, y :: !Side(a, b, d, x, y) && HasEdge(g, x, y) && x != c && y != c ==>
              StarMeshMerge(g, c, a, b, d).adj[x][y] == g.adj[x][y]
  {
    StarMeshSides(g, c, a, b, d);
    forall x, y | !Side(a, b, d, x, y)
      ensures HasEdge(StarMeshMerge(g, c, a, b, d), x, y) <==> HasEdge(g, x, y) && x != c && y != c
      ensures HasEdge(g, x, y) && x != c && y != c ==> StarMeshMerge(g, c, a, b, d).adj[x][y] == g.adj[x][y]
    {
      StarMeshOther(g, c, a, b, d, x, y);
    }
  }

  lemma StarMeshSides(g: Net, c: Node, a: Node, b: Node, d: Node)
    requires WellFormed(g) && Positive(g) && a != b && b != d && d != a
    requires WeightedArm(g, c, a) && WeightedArm(g, c, b) && WeightedArm(g, c, d)
    ensures HasEdge(StarMeshMerge(g, c, a, b, d), a, b) && HasEdge(StarMeshMerge(g, c, a, b, d), b, a)
    ensures HasEdge(StarMeshMerge(g, c, a, b, d), b, d) && HasEdge(StarMeshMerge(g, c, a, b, d), d, b)
    ensures HasEdge(StarMeshMerge(g, c, a, b, d), d, a) && HasEdge(StarMeshMerge(g, c, a, b, d), a, d)
    ensures StarMeshMerge(g, c, a, b, d).adj[a][b] == StarMeshMerge(g, c, a, b, d).adj[b][a] == MeshSide(g, c, a, b, d)
    ensures StarMeshMerge(g, c, a, b, d).adj[b][d] == StarMeshMerge(g, c, a, b, d).adj[d][b] == MeshSide(g, c, b, d, a)
    ensures StarMeshMerge(g, c, a, b, d).adj[d][a] == StarMeshMerge(g, c, a, b, d).adj[a][d] == MeshSide(g, c, d, a, b)
  {
    var g1 := RemoveAll(g, {c});
    RemoveAllEdge(g, {c}, a, b);
    RemoveAllEdge(g, {c}, b, d);
    RemoveAllEdge(g, {c}, d, a);
    Arm(g, c, a);
    Arm(g, c, b);
    Arm(g, c, d);
    RemoveAllWellFormed(g, {c});
    var ra, rb, rc := ArmWeight(g, c, a), ArmWeight(g, c, b), ArmWeight(g, c, d);
    MeshEdges(g1, a, b, d, ra, rb, rc);
    SameEnds(g, g1, a, b, MeshEdge(ra, rb, rc));
    SameEnds(g, g1, b, d, MeshEdge(rb, rc, ra));
    SameEnds(g, g1, d, a, MeshEdge(rc, ra, rb));
  }

  /** x-y is one of the three sides of the triangle a, b, d. */
  predicate Side(a: Node, b: Node, d: Node, x: Node, y: Node)
  {
    || (x == a && y == b) || (x == b && y == a)
    || (x == b && y == d) || (x == d && y == b)
    || (x == d && y == a) || (x == a && y == d)
  }

  lemma StarMeshOther(g: Net, c: Node, a: Node, b: Node, d: Node, x: Node, y: Node)
    requires WellFormed(g) && Positive(g) && a != b && b != d && d != a
    requires WeightedArm(g, c, a) && WeightedArm(g, c, b) && WeightedArm(g, c, d)
    requires !Side(a, b, d, x, y)
    ensures HasEdge(StarMeshMerge(g, c, a, b, d), x, y) <==> HasEdge(g, x, y) && x != c && y != c
    ensures HasEdge(g, x, y) && x != c && y != c ==> StarMeshMerge(g, c, a, b, d).adj[x][y] == g.adj[x][y]
  {
    var g1 := RemoveAll(g, {c});
    assert HasEdge(g1, x, y) <==> HasEdge(g, x, y) && x != c && y != c by {
      RemoveAllEdge(g, {c}, x, y);
    }
    Arm(g, c, a);
    Arm(g, c, b);
    Arm(g, c, d);
    RemoveAllWellFormed(g, {c});
    MeshOther(g1, a, b, d, ArmWeight(g, c, a), ArmWeight(g, c, b), ArmWeight(g, c, d), x, y);
  }

  /** The series step does not depend on the order in which the two
      neighbours of c are taken. */
  lemma SeriesMergeSymmetric(g: Net, c: Node, a: Node, b: Node)
    requires WellFormed(g) && Positive(g) && a != b && WeightedArm(g, c, a) && WeightedArm(g, c, b)
    ensures SeriesMerge(g, c, a, b) == SeriesMerge(g, c, b, a)
  {
    var h1 := SeriesMerge(g, c, a, b);
    var h2 := SeriesMerge(g, c, b, a);
    assert h1.nodes == h2.nodes;
    SeriesSideSymmetric(g, c, a, b);
    forall x, y | x in h1.adj
      ensures y in h1.adj[x] <==> y in h2.adj[x]
      ensures y in h1.adj[x] ==> h1.adj[x][y] == h2.adj[x][y]
    {
      if !(x == a && y == b) && !(x == b && y == a) {
        SeriesOther(g, c, a, b, x, y);
        SeriesOther(g, c, b, a, x, y);
      }
    }
    AdjExt(h1.adj, h2.adj);
  }

  lemma SeriesSideSymmetric(g: Net, c: Node, a: Node, b: Node)
    requires WellFormed(g) && Positive(g) && a != b && WeightedArm(g, c, a) && WeightedArm(g, c, b)
    ensures HasEdge(SeriesMerge(g, c, a, b), a, b) && HasEdge(SeriesMerge(g, c, b, a), a, b)
    ensures SeriesMerge(g, c, a, b).adj[a][b] == SeriesMerge(g, c, b, a).adj[a][b]
    ensures SeriesMerge(g, c, a, b).adj[b][a] == SeriesMerge(g, c, b, a).adj[b][a]
  {
    var h1 := SeriesMerge(g, c, a, b);
    var h2 := SeriesMerge(g, c, b, a);
    SeriesMergeEdges(g, c, a, b);
    SeriesMergeEdges(g, c, b, a);
    assert SeriesWeight(g, c, b, a) == SeriesWeight(g, c, a, b);
    assert Weighted(g, b, a) <==> Weighted(g, a, b);
    assert Weighted(g, a, b) ==> WeightOf(g, b, a) == WeightOf(g, a, b);
    assert DataOf(g, b, a) == DataOf(g, a, b);
    assert h1.adj[a][b].weight == h2.adj[b][a].weight;
    assert h1.adj[a][b].contraction == h2.adj[b][a].contraction;
    assert h2.adj[a][b] == h2.adj[b][a];
    assert h1.adj[b][a] == h1.adj[a][b];
  }

  /** The star-mesh step does not depend on the order in which the three
      neighbours of c are taken: swapping the first two, or rotating all
      three, gives the same graph (and the two generate every order). */
  lemma StarMeshMergeSwap(g: Net, c: Node, a: Node, b: Node, d: Node)
    requires WellFormed(g) && Positive(g) && a != b && b != d && d != a
    requires WeightedArm(g, c, a) && WeightedArm(g, c, b) && WeightedArm(g, c, d)
    ensures StarMeshMerge(g, c, a, b, d) == StarMeshMerge(g, c, b, a, d)
  {
    var h1 := StarMeshMerge(g, c, a, b, d);
    var h2 := StarMeshMerge(g, c, b, a, d);
    assert h1.nodes == h2.nodes;
    forall x, y | x in h1.adj
      ensures y in h1.adj[x] <==> y in h2.adj[x]
      ensures y in h1.adj[x] ==> h1.adj[x][y] == h2.adj[x][y]
    {
      SwapAt(g, c, a, b, d, x, y);
    }
    AdjExt(h1.adj, h2.adj);
  }

  lemma SwapAt(g: Net, c: Node, a: Node, b: Node, d: Node, x: Node, y: Node)
    requires WellFormed(g) && Positive(g) && a != b && b != d && d != a
    requires WeightedArm(g, c, a) && WeightedArm(g, c, b) && WeightedArm(g, c, d)
    ensures HasEdge(StarMeshMerge(g, c, a, b, d), x, y) <==> HasEdge(StarMeshMerge(g, c, b, a, d), x, y)
    ensures HasEdge(StarMeshMerge(g, c, a, b, d), x, y) ==>
              StarMeshMerge(g, c, a, b, d).adj[x][y] == StarMeshMerge(g, c, b, a, d).adj[x][y]
  {
    if Side(a, b, d, x, y) {
      StarMeshSides(g, c, a, b, d);
      StarMeshSides(g, c, b, a, d);
      if (x == a && y == b) || (x == b && y == a) {
        MeshSideSymmetric(g, c, a, b, d);
      } else if (x == b && y == d) || (x == d && y == b) {
        MeshSideSymmetric(g, c, d, b, a);
      } else {
        MeshSideSymmetric(g, c, a, d, b);
      }
    } else {
      assert !Side(b, a, d, x, y);
      StarMeshOther(g, c, a, b, d, x, y);
      StarMeshOther(g, c, b, a, d, x, y);
    }
  }

  lemma StarMeshMergeRotate(g: Net, c: Node, a: Node, b: Node, d: Node)
    requires WellFormed(g) && Positive(g) && a != b && b != d && d != a
    requires WeightedArm(g, c, a) && WeightedArm(g, c, b) && WeightedArm(g, c, d)
    ensures StarMeshMerge(g, c, a, b, d) == StarMeshMerge(g, c, b, d, a)
  {
    var h1 := StarMeshMerge(g, c, a, b, d);
    var h2 := StarMeshMerge(g, c, b, d, a);
    assert h1.nodes == h2.nodes;
    forall x, y | x in h1.adj
      ensures y in h1.adj[x] <==> y in h2.adj[x]
      ensures y in h1.adj[x] ==> h1.adj[x][y] == h2.adj[x][y]
    {
      RotateAt(g, c, a, b, d, x, y);
    }
    AdjExt(h1.adj, h2.adj);
  }

  lemma RotateAt(g: Net, c: Node, a: Node, b: Node, d: Node, x: Node, y: Node)
    requires WellFormed(g) && Positive(g) && a != b && b != d && d != a
    requires WeightedArm(g, c, a) && WeightedArm(g, c, b) && WeightedArm(g, c, d)
    ensures HasEdge(StarMeshMerge(g, c, a, b, d), x, y) <==> HasEdge(StarMeshMerge(g, c, b, d, a), x, y)
    ensures HasEdge(StarMeshMerge(g, c, a, b, d), x, y) ==>
              StarMeshMerge(g, c, a, b, d).adj[x][y] == StarMeshMerge(g, c, b, d, a).adj[x][y]
  {
    if Side(a, b, d, x, y) {
      StarMeshSides(g, c, a, b, d);
      StarMeshSides(g, c, b, d, a);
      if (x == a && y == b) || (x == b && y == a) {
        assert HasEdge(StarMeshMerge(g, c, b, d, a), x, y);
      } else if (x == b && y == d) || (x == d && y == b) {
        assert HasEdge(StarMeshMerge(g, c, b, d, a), x, y);
      } else {
        assert HasEdge(StarMeshMerge(g, c, b, d, a), x, y);
      }
    } else {
      assert !Side(b, d, a, x, y);
      StarMeshOther(g, c, a, b, d, x, y);
      StarMeshOther(g, c, b, d, a, x, y);
    }
  }
}
