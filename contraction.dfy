// The symmetry folds of the lattice (fold, fold2 and simplify_weights of
// solve.py): nodes that sit at the same potential are merged with networkx's
// contracted_nodes, and the parallel resistors the merge stacks on one edge
// are combined afterwards.

module Contraction {
  import opened Wrappers
  import opened Network
  import opened Resistors

  // ---------------------------------------------------------------------
  // contracted_nodes(G, u, v)

  /** The data of edge u-x once v has been merged into u: when u-x and v-x
      both exist, the weight of v-x is appended to the contraction record of
      u-x; otherwise the one edge there is kept as it is. */
  function Absorb(g: Net, u: Node, v: Node, x: Node): Attr
  {
    if HasEdge(g, u, x) && HasEdge(g, v, x) then
      g.adj[u][x].(contraction := g.adj[u][x].contraction + [g.adj[v][x].weight])
    else if HasEdge(g, u, x) then g.adj[u][x]
    else DataOf(g, v, x)
  }

  /** nx.contracted_nodes(G, u, v): v disappears and its edges move to u.
      networkx removes u and puts it back when u == v, which moves u to the
      end of the node order; an isolated u is then not put back and the
      call fails, hence the last precondition.  Adjacent u and v would leave
      a self-loop, which these graphs never hold. */
  function Contracted(g: Net, u: Node, v: Node): (h: Net)
    requires WellFormed(g) && u in g.adj && v in g.adj
    requires u != v ==> !HasEdge(g, u, v)
    requires u == v ==> |g.adj[u]| > 0
    ensures h.adj.Keys == g.adj.Keys - {v} + {u}
  {
    if u == v then Net(Omit(g.nodes, {u}) + [u], g.adj)
    else Net(Omit(g.nodes, {v}), MovedAdj(g, u, v))
  }

  /** The adjacency after v has been merged into a different node u. */
  function MovedAdj(g: Net, u: Node, v: Node): (adj: map<Node, map<Node, Attr>>)
    requires u in g.adj && v in g.adj
    ensures adj.Keys == g.adj.Keys - {v}
  {
    map y | y in g.adj && y != v :: MovedRow(g, u, v, y)
  }

  function MovedRow(g: Net, u: Node, v: Node, y: Node): map<Node, Attr>
    requires u in g.adj && v in g.adj && y in g.adj
  {
    if y == u then (map x | x in g.adj[u].Keys + g.adj[v].Keys :: Absorb(g, u, v, x))
    else if y in g.adj[v] then (g.adj[y] - {v})[u := Absorb(g, u, v, y)]
    else g.adj[y] - {v}
  }

  /** The edges after merging v into u: every edge of v now ends at u, with
      the data Absorb gives it; the edges away from u and v are untouched. */
  lemma ContractedEdge(g: Net, u: Node, v: Node, x: Node, y: Node)
    requires WellFormed(g) && u in g.adj && v in g.adj && u != v && !HasEdge(g, u, v)
    ensures HasEdge(Contracted(g, u, v), x, y) <==>
              x != v && y != v &&
              (HasEdge(g, x, y) || (x == u && HasEdge(g, v, y)) || (y == u && HasEdge(g, x, v)))
    ensures HasEdge(Contracted(g, u, v), x, y) ==>
              Contracted(g, u, v).adj[x][y] ==
                (if x == u then Absorb(g, u, v, y)
                 else if y == u then Absorb(g, u, v, x)
                 else g.adj[x][y])
  {
    assert HasEdge(g, x, v) <==> HasEdge(g, v, x);
    if y == u && HasEdge(g, x, u) {
      assert HasEdge(g, u, x);
    }
  }

  /** Merging a node with itself keeps every edge and its data and only moves
      the node to the end of the order. */
  lemma ContractedSelf(g: Net, u: Node)
    requires WellFormed(g) && u in g.adj && |g.adj[u]| > 0
    ensures Contracted(g, u, u).adj == g.adj
    ensures Contracted(g, u, u).nodes[|Contracted(g, u, u).nodes| - 1] == u
    ensures Members(Contracted(g, u, u).nodes) == Members(g.nodes)
  {
  }

  /** An edge after merging v into u (u != v): an edge of g away from v, or
      an edge of v moved to u. */
  predicate MovedEdge(g: Net, u: Node, v: Node, x: Node, y: Node)
  {
    x != v && y != v && (HasEdge(g, x, y) || (x == u && HasEdge(g, v, y)) || (y == u && HasEdge(g, x, v)))
  }

  /** Its data: Absorb for an edge at u, the old data elsewhere. */
  function MovedData(g: Net, u: Node, v: Node, x: Node, y: Node): Attr
  {
    if x == u then Absorb(g, u, v, y) else if y == u then Absorb(g, u, v, x) else DataOf(g, x, y)
  }

  /** h is g with v merged into u. */
  ghost predicate Moved(g: Net, u: Node, v: Node, h: Net)
  {
    && h.adj.Keys == g.adj.Keys - {v}
    && (forall x, y :: HasEdge(h, x, y) <==> MovedEdge(g, u, v, x, y))
    && (forall x, y :: HasEdge(h, x, y) ==> h.adj[x][y] == MovedData(g, u, v, x, y))
  }

  lemma ContractedMoved(g: Net, u: Node, v: Node)
    requires WellFormed(g) && u in g.adj && v in g.adj && u != v && !HasEdge(g, u, v)
    ensures Moved(g, u, v, Contracted(g, u, v))
  {
    forall x, y ensures HasEdge(Contracted(g, u, v), x, y) <==> MovedEdge(g, u, v, x, y) {
      ContractedEdge(g, u, v, x, y);
    }
    forall x, y | HasEdge(Contracted(g, u, v), x, y)
      ensures Contracted(g, u, v).adj[x][y] == MovedData(g, u, v, x, y)
    {
      ContractedEdge(g, u, v, x, y);
    }
  }

  lemma MovedSimple(g: Net, u: Node, v: Node, h: Net)
    requires Simple(g) && u in g.adj && v in g.adj && u != v && !HasEdge(g, u, v)
    requires Moved(g, u, v, h)
    ensures Simple(h)
    ensures Positive(g) ==> Positive(h)
  {
    forall x, y | x in h.adj && y in h.adj[x]
      ensures y in h.adj && x in h.adj[y] && h.adj[y][x] == h.adj[x][y]
      ensures Positive(g) ==> AttrPositive(h.adj[x][y])
    {
      assert HasEdge(h, x, y) && MovedEdge(g, u, v, x, y);
      assert MovedEdge(g, u, v, y, x) by {
        assert HasEdge(g, x, y) ==> HasEdge(g, y, x);
        assert HasEdge(g, v, y) ==> HasEdge(g, y, v);
        assert HasEdge(g, x, v) ==> HasEdge(g, v, x);
      }
      assert HasEdge(h, y, x);
      assert MovedData(g, u, v, y, x) == MovedData(g, u, v, x, y) by {
        if x != u && y != u {
          assert HasEdge(g, x, y);
        }
      }
      if Positive(g) {
        if x == u {
          AbsorbPositive(g, u, v, y);
        } else if y == u {
          AbsorbPositive(g, u, v, x);
        } else {
          assert HasEdge(g, x, y);
        }
      }
    }
    forall x | x in h.adj ensures x !in h.adj[x] {
      assert !MovedEdge(g, u, v, x, x);
    }
  }

  lemma ContractedWellFormed(g: Net, u: Node, v: Node)
    requires WellFormed(g) && u in g.adj && v in g.adj
    requires u != v ==> !HasEdge(g, u, v)
    requires u == v ==> |g.adj[u]| > 0
    ensures WellFormed(Contracted(g, u, v))
    ensures Positive(g) ==> Positive(Contracted(g, u, v))
  {
    ContractedListed(g, u, v);
    if u != v {
      ContractedMoved(g, u, v);
      MovedSimple(g, u, v, Contracted(g, u, v));
    }
  }

  lemma ContractedListed(g: Net, u: Node, v: Node)
    requires WellFormed(g) && u in g.adj && v in g.adj
    requires u != v ==> !HasEdge(g, u, v)
    requires u == v ==> |g.adj[u]| > 0
    ensures Listed(Contracted(g, u, v))
  {
    var h := Contracted(g, u, v);
    OmitFacts(g.nodes, {v});
    if u == v {
      var s := Omit(g.nodes, {u});
      forall i, j | 0 <= i < j < |h.nodes| ensures h.nodes[i] != h.nodes[j] {
        if j == |s| {
          assert h.nodes[i] in s;
        } else {
          assert h.nodes[i] == s[i] && h.nodes[j] == s[j];
        }
      }
    }
  }

  lemma AbsorbPositive(g: Net, u: Node, v: Node, x: Node)
    requires Simple(g) && Positive(g)
    ensures AttrPositive(Absorb(g, u, v, x))
  {
    if HasEdge(g, u, x) && HasEdge(g, v, x) {
      var a := g.adj[u][x];
      var b := a.(contraction := a.contraction + [g.adj[v][x].weight]);
      assert AttrPositive(a) && AttrPositive(g.adj[v][x]);
      forall i | 0 <= i < |b.contraction| && b.contraction[i].Some?
        ensures b.contraction[i].value > 0.0
      {
        if i < |a.contraction| {
          assert b.contraction[i] == a.contraction[i];
        }
      }
    } else if HasEdge(g, v, x) {
      assert AttrPositive(g.adj[v][x]);
    }
  }

  /** contracted_nodes as the fold code calls it: the graph object is
      replaced by the contracted graph. */
  method ContractNodes(h: Graph, u: Node, v: Node)
    requires h.Valid() && u in h.adj && v in h.adj
    requires u != v ==> !HasEdge(h.Value(), u, v)
    requires u == v ==> |h.adj[u]| > 0
    modifies h
    ensures h.Value() == Contracted(old(h.Value()), u, v)
  {
    var c := Contracted(h.Value(), u, v);
    h.nodes := c.nodes;
    h.adj := c.adj;
  }

  // ---------------------------------------------------------------------
  // The shape the folds rely on

  /** Nodes on one line x + y = const are merged; each edge of the lattice
      joins two different lines. */
  function Level(x: Node): int
  {
    x.0 + x.1
  }

  predicate Diagonal(x: Node)
  {
    x.0 == x.1
  }

  ghost predicate SumSeparated(g: Net)
  {
    forall x, y :: x in g.adj && y in g.adj[x] ==> Level(x) != Level(y)
  }

  ghost predicate NoIsolated(g: Net)
  {
    forall x :: x in g.adj ==> |g.adj[x]| > 0
  }

  /** What a graph must be for the folds: well formed, positive, no edge
      within one line (so the merged pairs are never adjacent) and no isolated
      node (so a node can be merged with itself). */
  ghost predicate FoldReady(g: Net)
  {
    WellFormed(g) && Positive(g) && SumSeparated(g) && NoIsolated(g)
  }

  /** Every record entry is a weight, and an edge without a weight (the
      terminal edge) carries no record and joins two nodes of the diagonal,
      which the folds never merge away. */
  predicate TidyAttr(x: Node, y: Node, a: Attr)
  {
    && (a.weight.None? ==> Diagonal(x) && Diagonal(y) && a.contraction == [])
    && (forall i :: 0 <= i < |a.contraction| ==> a.contraction[i].Some?)
  }

  ghost predicate Tidy(g: Net)
  {
    forall x, y :: x in g.adj && y in g.adj[x] ==> TidyAttr(x, y, g.adj[x][y])
  }

  /** Merging two nodes of one line keeps the graph ready for the next
      merge, and keeps it tidy when neither node is on the diagonal. */
  lemma ContractedReady(g: Net, u: Node, v: Node)
    requires FoldReady(g) && u in g.adj && v in g.adj && Level(u) == Level(v)
    ensures u != v ==> !HasEdge(g, u, v)
    ensures u == v ==> |g.adj[u]| > 0
    ensures FoldReady(Contracted(g, u, v))
    ensures Tidy(g) && (u == v || (!Diagonal(u) && !Diagonal(v))) ==> Tidy(Contracted(g, u, v))
  {
    ContractedWellFormed(g, u, v);
    if u == v {
      ContractedSelf(g, u);
    } else {
      assert !HasEdge(g, u, v);
      ContractedMoved(g, u, v);
      MovedReady(g, u, v, Contracted(g, u, v));
    }
  }

  lemma MovedReady(g: Net, u: Node, v: Node, h: Net)
    requires FoldReady(g) && u in g.adj && v in g.adj && u != v && Level(u) == Level(v)
    requires Moved(g, u, v, h)
    ensures SumSeparated(h) && NoIsolated(h)
    ensures Tidy(g) && !Diagonal(u) && !Diagonal(v) ==> Tidy(h)
  {
    forall x, y | x in h.adj && y in h.adj[x] ensures Level(x) != Level(y) {
      assert HasEdge(h, x, y) && MovedEdge(g, u, v, x, y);
    }
    if Tidy(g) && !Diagonal(u) && !Diagonal(v) {
      forall x, y | x in h.adj && y in h.adj[x] ensures TidyAttr(x, y, h.adj[x][y]) {
        assert HasEdge(h, x, y) && MovedEdge(g, u, v, x, y);
        if x == u {
          AbsorbTidy(g, u, v, y);
        } else if y == u {
          AbsorbTidy(g, u, v, x);
        } else {
          assert HasEdge(g, x, y);
        }
      }
    }
    forall x | x in h.adj ensures |h.adj[x]| > 0 {
      var y :| y in g.adj[x];
      if x != u && y == v {
        assert MovedEdge(g, u, v, x, u);
        assert HasEdge(h, x, u);
      } else {
        assert MovedEdge(g, u, v, x, y);
        assert HasEdge(h, x, y);
      }
    }
  }

  lemma AbsorbTidy(g: Net, u: Node, v: Node, x: Node)
    requires Simple(g) && Tidy(g) && !Diagonal(u) && !Diagonal(v)
    requires HasEdge(g, u, x) || HasEdge(g, v, x)
    ensures TidyAttr(u, x, Absorb(g, u, v, x)) && TidyAttr(x, u, Absorb(g, u, v, x))
  {
    if HasEdge(g, u, x) && HasEdge(g, v, x) {
      var a := g.adj[u][x];
      var b := a.(contraction := a.contraction + [g.adj[v][x].weight]);
      assert TidyAttr(u, x, a) && TidyAttr(v, x, g.adj[v][x]);
      forall i | 0 <= i < |b.contraction| ensures b.contraction[i].Some? {
        if i < |a.contraction| {
          assert b.contraction[i] == a.contraction[i];
        }
      }
    } else if HasEdge(g, u, x) {
      assert TidyAttr(u, x, g.adj[u][x]);
    } else {
      assert TidyAttr(v, x, g.adj[v][x]);
    }
  }

  // ---------------------------------------------------------------------
  // A list of merges

  /** The node set after one merge of the list: the kept node stays and the
      other goes, when both are still there. */
  function StepKeys(s: set<Node>, p: (Node, Node), keepSecond: bool): set<Node>
  {
    if p.0 in s && p.1 in s then
      if keepSecond then s - {p.0} + {p.1} else s - {p.1} + {p.0}
    else s
  }

  function KeysAfter(s: set<Node>, ps: seq<(Node, Node)>, keepSecond: bool): set<Node>
  {
    if ps == [] then s
    else StepKeys(KeysAfter(s, ps[..|ps| - 1], keepSecond), ps[|ps| - 1], keepSecond)
  }

  /** Both nodes of every pair lie on one line. */
  predicate Aligned(ps: seq<(Node, Node)>)
  {
    forall i :: 0 <= i < |ps| ==> Level(ps[i].0) == Level(ps[i].1)
  }

  /** Neither node of a pair of different nodes is on the diagonal. */
  predicate OffDiagonal(ps: seq<(Node, Node)>)
  {
    forall i :: 0 <= i < |ps| ==> ps[i].0 == ps[i].1 || (!Diagonal(ps[i].0) && !Diagonal(ps[i].1))
  }

  /** One iteration of the loop of fold (keepSecond false) or fold2
      (keepSecond true): merge the pair when both nodes are still there. */
  function Merge(g: Net, p: (Node, Node), keepSecond: bool): (h: Net)
    requires FoldReady(g) && Level(p.0) == Level(p.1)
    ensures FoldReady(h)
    ensures h.adj.Keys == StepKeys(g.adj.Keys, p, keepSecond)
    ensures Tidy(g) && OffDiagonal([p]) ==> Tidy(h)
  {
    assert OffDiagonal([p]) ==> p.0 == p.1 || (!Diagonal(p.0) && !Diagonal(p.1)) by {
      assert [p][0] == p;
    }
    if p.0 in g.adj && p.1 in g.adj then
      if keepSecond then
        ContractedReady(g, p.1, p.0);
        Contracted(g, p.1, p.0)
      else
        ContractedReady(g, p.0, p.1);
        Contracted(g, p.0, p.1)
    else g
  }

  /** The graph after the merges of ps, in order. */
  function MergeAll(g: Net, ps: seq<(Node, Node)>, keepSecond: bool): (h: Net)
    requires FoldReady(g) && Aligned(ps)
    ensures FoldReady(h)
    ensures h.adj.Keys == KeysAfter(g.adj.Keys, ps, keepSecond)
    ensures Tidy(g) && OffDiagonal(ps) ==> Tidy(h)
    decreases |ps|
  {
    if ps == [] then g
    else
      var init := ps[..|ps| - 1];
      var last := ps[|ps| - 1];
      assert Aligned(init) && (OffDiagonal(ps) ==> OffDiagonal(init) && OffDiagonal([last])) by {
        forall i | 0 <= i < |init| ensures init[i] == ps[i] { }
      }
      Merge(MergeAll(g, init, keepSecond), last, keepSecond)
  }

  lemma MergeAllStep(g: Net, ps: seq<(Node, Node)>, i: nat, keepSecond: bool)
    requires FoldReady(g) && Aligned(ps) && i < |ps|
    ensures Aligned(ps[..i]) && Aligned(ps[..i + 1])
    ensures MergeAll(g, ps[..i + 1], keepSecond) == Merge(MergeAll(g, ps[..i], keepSecond), ps[i], keepSecond)
  {
    assert ps[..i + 1][..i] == ps[..i];
  }
}
