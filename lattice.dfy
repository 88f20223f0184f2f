// create_lattice of solve.py: the 2N x 2N grid of unit resistors from
// networkx's grid_2d_graph, with the battery joined across the centre square
// from (N-1, N-1) to (N, N).

module Lattice {
  import opened Wrappers
  import opened Network
  import opened Contraction

  predicate InGrid(m: nat, x: Node)
  {
    0 <= x.0 < m && 0 <= x.1 < m
  }

  /** The nodes of grid_2d_graph(m, m). */
  function GridSet(m: nat): set<Node>
  {
    set i, j | 0 <= i < m && 0 <= j < m :: (i, j)
  }

  /** Row i of the grid, in column order. */
  function GridRow(m: nat, i: int): (s: seq<Node>)
    ensures |s| == m && forall j :: 0 <= j < m ==> s[j] == (i, j)
  {
    seq(m, j requires 0 <= j < m => (i, j))
  }

  /** The first k rows of the grid: grid_2d_graph adds its nodes row by row. */
  function GridNodes(m: nat, k: nat): seq<Node>
  {
    if k == 0 then [] else GridNodes(m, k - 1) + GridRow(m, k - 1)
  }

  /** The four nodes one step away along a row or a column. */
  predicate Adjacent(x: Node, y: Node)
  {
    || (x.0 == y.0 && (x.1 == y.1 + 1 || y.1 == x.1 + 1))
    || (x.1 == y.1 && (x.0 == y.0 + 1 || y.0 == x.0 + 1))
  }

  function Neighbours(m: nat, x: Node): (s: set<Node>)
    ensures forall y :: y in s <==> InGrid(m, y) && Adjacent(x, y)
  {
    set y | y in {(x.0 - 1, x.1), (x.0 + 1, x.1), (x.0, x.1 - 1), (x.0, x.1 + 1)} && InGrid(m, y)
  }

  /** grid_2d_graph(m, m) with every edge carrying the data a. */
  function Grid(m: nat, a: Attr): Net
  {
    Net(GridNodes(m, m), map x | x in GridSet(m) :: map y | y in Neighbours(m, x) :: a)
  }

  const Unit := Attr(Some(1.0), [])

  /** The two ends of the battery. */
  function Plus(n: nat): Node
  {
    (n - 1, n - 1)
  }

  function Minus(n: nat): Node
  {
    (n, n)
  }

  /** The lattice create_lattice(N) returns: unit resistors on the grid and
      the battery edge added without data. */
  function LatticeNet(n: nat): Net
  {
    var grid := Grid(2 * n, Unit);
    Link(grid, Plus(n), Minus(n), DataOf(grid, Plus(n), Minus(n)))
  }

  /** Every edge of g with weight 1. */
  function Reweighted(g: Net): Net
  {
    Net(g.nodes, map x | x in g.adj :: UnitRow(g.adj[x]))
  }

  function UnitRow(row: map<Node, Attr>): map<Node, Attr>
  {
    map y | y in row :: row[y].(weight := Some(1.0))
  }

  // ---------------------------------------------------------------------
  // create_lattice(N)

  method CreateLattice(n: nat) returns (g: Graph)
    ensures fresh(g) && g.Valid() && g.Value() == LatticeNet(n)
  {
    g := GridGraph(2 * n);
    GridWellFormed(2 * n, NoData);
    SetUnitWeights(g);
    assert g.Value() == Grid(2 * n, Unit) by {
      UnitGrid(2 * n);
    }
    GridWellFormed(2 * n, Unit);
    g.AddEdge(Plus(n), Minus(n), DataOf(g.Value(), Plus(n), Minus(n)));
    LinkWellFormed(Grid(2 * n, Unit), Plus(n), Minus(n), DataOf(Grid(2 * n, Unit), Plus(n), Minus(n)));
  }

  /** nx.grid_2d_graph(m, m): a library call, modelled by its result. */
  method GridGraph(m: nat) returns (g: Graph)
    ensures fresh(g) && g.Value() == Grid(m, NoData)
  {
    g := new Graph.Empty();
    g.nodes := GridNodes(m, m);
    g.adj := Grid(m, NoData).adj;
  }

  /** for (u, v) in G.edges(): G[u][v]['weight'] = 1. The data of an edge is
      shared by its two ends, so the loop is taken row by row. */
  method SetUnitWeights(h: Graph)
    requires h.Valid()
    modifies h
    ensures h.Value() == Reweighted(old(h.Value()))
  {
    ghost var g := h.Value();
    var order := h.nodes;
    var i := 0;
    while i < |order|
      invariant 0 <= i <= |order|
      invariant h.nodes == g.nodes && h.adj == UnitRowsOf(g, order[..i])
    {
      var x := order[i];
      UnitRowsStep(g, order, i);
      h.adj := h.adj[x := UnitRow(h.adj[x])];
      i := i + 1;
    }
    assert order[..i] == order;
    UnitRowsAll(g);
  }

  /** The adjacency with the rows of the nodes in done set to weight 1. */
  function UnitRowsOf(g: Net, done: seq<Node>): map<Node, map<Node, Attr>>
  {
    map x | x in g.adj :: if x in done then UnitRow(g.adj[x]) else g.adj[x]
  }

  lemma UnitRowsStep(g: Net, order: seq<Node>, i: nat)
    requires Listed(g) && order == g.nodes && i < |order|
    ensures order[i] in UnitRowsOf(g, order[..i])
    ensures UnitRowsOf(g, order[..i + 1])
         == UnitRowsOf(g, order[..i])[order[i] := UnitRow(UnitRowsOf(g, order[..i])[order[i]])]
  {
    var x := order[i];
    assert x !in order[..i] by {
      forall k | 0 <= k < i ensures order[k] != x { }
    }
    assert order[..i + 1] == order[..i] + [x];
  }

  lemma UnitRowsAll(g: Net)
    requires Listed(g)
    ensures Net(g.nodes, UnitRowsOf(g, g.nodes)) == Reweighted(g)
  {
  }

  // ---------------------------------------------------------------------
  // Properties of the grid and the lattice

  /** grid_2d_graph lists every grid node once, row by row. */
  lemma {:induction false} GridNodesListed(m: nat, k: nat)
    requires k <= m
    ensures Distinct(GridNodes(m, k))
    ensures forall x :: x in GridNodes(m, k) <==> InGrid(m, x) && x.0 < k
    ensures forall i :: 0 <= i < |GridNodes(m, k)| ==> GridNodes(m, k)[i].0 < k
  {
    if k > 0 {
      GridNodesListed(m, k - 1);
      var s := GridNodes(m, k - 1);
      var r := GridRow(m, k - 1);
      assert GridNodes(m, k) == s + r;
      forall x | InGrid(m, x) && x.0 < k ensures x in s + r {
        if x.0 == k - 1 {
          assert r[x.1] == x;
        }
      }
      forall i, j | 0 <= i < j < |s + r| ensures (s + r)[i] != (s + r)[j] {
        if j < |s| {
        } else if i >= |s| {
          assert (s + r)[i] == r[i - |s|] && (s + r)[j] == r[j - |s|];
        } else {
          assert (s + r)[i] == s[i] && (s + r)[j] == r[j - |s|];
        }
      }
    }
  }

  lemma GridSetIn(m: nat)
    ensures forall x :: x in GridSet(m) <==> InGrid(m, x)
  {
    forall x | InGrid(m, x) ensures x in GridSet(m) {
      assert x == (x.0, x.1);
    }
  }

  /** grid_2d_graph(m, m) is a simple graph whose node list names its nodes. */
  lemma GridWellFormed(m: nat, a: Attr)
    ensures WellFormed(Grid(m, a))
    ensures AttrPositive(a) ==> Positive(Grid(m, a))
  {
    GridNodesListed(m, m);
    GridSetIn(m);
  }

  /** Setting every weight of the bare grid to 1 gives the unit grid. */
  lemma UnitGrid(m: nat)
    ensures Reweighted(Grid(m, NoData)) == Grid(m, Unit)
  {
    var g := Grid(m, NoData);
    forall x | x in g.adj ensures UnitRow(g.adj[x]) == Grid(m, Unit).adj[x] { }
    assert Reweighted(g).adj == Grid(m, Unit).adj;
  }

  /** The edges of the lattice: the grid's, each a unit resistor, and the
      battery, which carries no data. */
  lemma LatticeEdges(n: nat)
    ensures forall x :: x in LatticeNet(n).adj <==> InGrid(2 * n, x) || x == Plus(n) || x == Minus(n)
    ensures forall x, y :: HasEdge(LatticeNet(n), x, y) <==> GridEdge(n, x, y) || BatteryEdge(n, x, y)
    ensures forall x, y :: GridEdge(n, x, y) ==> LatticeNet(n).adj[x][y] == Unit
    ensures forall x, y :: BatteryEdge(n, x, y) ==> LatticeNet(n).adj[x][y] == NoData
  {
    GridSetIn(2 * n);
    var grid := Grid(2 * n, Unit);
    assert !HasEdge(grid, Plus(n), Minus(n));
  }

  predicate GridEdge(n: nat, x: Node, y: Node)
  {
    InGrid(2 * n, x) && InGrid(2 * n, y) && Adjacent(x, y)
  }

  predicate BatteryEdge(n: nat, x: Node, y: Node)
  {
    (x == Plus(n) && y == Minus(n)) || (x == Minus(n) && y == Plus(n))
  }

  /** The lattice is ready for the folds: simple, positive, every edge
      crosses between two lines x + y = const, no node is isolated, and only
      the battery, whose ends are on the diagonal, has no weight. */
  lemma LatticeReady(n: nat)
    ensures 1 <= n ==> LatticeNet(n).adj.Keys == GridSet(2 * n)
    ensures FoldReady(LatticeNet(n)) && Tidy(LatticeNet(n))
  {
    var g := LatticeNet(n);
    var grid := Grid(2 * n, Unit);
    GridSetIn(2 * n);
    GridWellFormed(2 * n, Unit);
    LinkWellFormed(grid, Plus(n), Minus(n), DataOf(grid, Plus(n), Minus(n)));
    LatticeSeparated(n);
    LatticeNoIsolated(n);
    LatticeTidy(n);
  }

  lemma LatticeSeparated(n: nat)
    ensures SumSeparated(LatticeNet(n))
  {
    LatticeEdges(n);
    var g := LatticeNet(n);
    forall x, y | x in g.adj && y in g.adj[x] ensures Level(x) != Level(y) {
      assert HasEdge(g, x, y);
    }
  }

  lemma LatticeNoIsolated(n: nat)
    ensures NoIsolated(LatticeNet(n))
  {
    LatticeEdges(n);
    var g := LatticeNet(n);
    forall x | x in g.adj ensures |g.adj[x]| > 0 {
      if InGrid(2 * n, x) {
        var y := if x.0 + 1 < 2 * n then (x.0 + 1, x.1) else (x.0 - 1, x.1);
        assert GridEdge(n, x, y);
        assert y in g.adj[x];
      } else {
        var y := if x == Plus(n) then Minus(n) else Plus(n);
        assert BatteryEdge(n, x, y);
        assert y in g.adj[x];
      }
    }
  }

  lemma LatticeTidy(n: nat)
    ensures Tidy(LatticeNet(n))
  {
    LatticeEdges(n);
    var g := LatticeNet(n);
    forall x, y | x in g.adj && y in g.adj[x] ensures TidyAttr(x, y, g.adj[x][y]) {
      assert HasEdge(g, x, y);
    }
  }

  /** For N = 0 the grid is empty and the lattice is the battery alone: its
      two ends, joined by an edge without data. */
  lemma LatticeZero()
    ensures LatticeNet(0).nodes == [Plus(0), Minus(0)]
    ensures LatticeNet(0).adj == map[Plus(0) := map[Minus(0) := NoData], Minus(0) := map[Plus(0) := NoData]]
  {
    assert GridSet(0) == {};
    assert Grid(0, Unit) == Net([], map[]);
  }
}
