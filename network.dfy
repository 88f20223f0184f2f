// The weighted undirected graph the engine rewrites: the part of a networkx
// Graph that the engine relies on (node insertion order, adjacency with one
// data record per edge, add_edge, remove_node, copy, has_edge, neighbors).

module Wrappers {
  datatype Option<+T> = None | Some(value: T)
}

module Network {
  import opened Wrappers

  /** Nodes are lattice coordinates; a contraction keeps one of the two names. */
  type Node = (int, int)

  /** The data of one edge: its resistance, absent on the terminal edge, and the
      `contraction` record that contracted_nodes attaches when a moved edge lands
      on an existing one (empty when the edge has no record).  Only the weights
      of the recorded edges are kept: simplify_weights reads nothing else. */
  datatype Attr = Attr(weight: Option<real>, contraction: seq<Option<real>>)

  /** A snapshot of a graph: nodes in insertion order and the adjacency map. */
  datatype Net = Net(nodes: seq<Node>, adj: map<Node, map<Node, Attr>>)

  const NoData := Attr(None, [])

  predicate Distinct(s: seq<Node>)
  {
    forall i, j :: 0 <= i < j < |s| ==> s[i] != s[j]
  }

  /** The node list has no repetition and names exactly the keys of the
      adjacency map. */
  ghost predicate Listed(g: Net)
  {
    Distinct(g.nodes) && forall x :: x in g.adj <==> x in g.nodes
  }

  /** No self-loops, and every edge is seen with the same data from both ends. */
  ghost predicate Simple(g: Net)
  {
    && (forall x :: x in g.adj ==> x !in g.adj[x])
    && (forall x, y :: x in g.adj && y in g.adj[x] ==>
          y in g.adj && x in g.adj[y] && g.adj[y][x] == g.adj[x][y])
  }

  /** A simple undirected graph with its node insertion order. */
  ghost predicate WellFormed(g: Net)
  {
    Listed(g) && Simple(g)
  }

  predicate AttrPositive(a: Attr)
  {
    && (a.weight.Some? ==> a.weight.value > 0.0)
    && (forall i :: 0 <= i < |a.contraction| && a.contraction[i].Some? ==> a.contraction[i].value > 0.0)
  }

  /** Every resistance present in the graph is positive. */
  ghost predicate Positive(g: Net)
  {
    forall x, y :: x in g.adj && y in g.adj[x] ==> AttrPositive(g.adj[x][y])
  }

  predicate HasEdge(g: Net, a: Node, b: Node)
  {
    a in g.adj && b in g.adj[a]
  }

  /** The edge a-b exists and carries a weight. */
  predicate Weighted(g: Net, a: Node, b: Node)
  {
    HasEdge(g, a, b) && g.adj[a][b].weight.Some?
  }

  function WeightOf(g: Net, a: Node, b: Node): real
    requires Weighted(g, a, b)
  {
    g.adj[a][b].weight.value
  }

  /** The data of edge a-b, or an empty record when there is no such edge
      (networkx: G._adj[a].get(b, {})). */
  function DataOf(g: Net, a: Node, b: Node): Attr
  {
    if HasEdge(g, a, b) then g.adj[a][b] else NoData
  }

  /** The number of neighbours of x (0 for a node the graph does not have). */
  function Degree(g: Net, x: Node): nat
  {
    if x in g.adj then |g.adj[x]| else 0
  }

  // ---------------------------------------------------------------------
  // Node order

  /** The nodes of s not in r, in the order of s. */
  function Omit(s: seq<Node>, r: set<Node>): (t: seq<Node>)
    ensures forall x :: x in t <==> x in s && x !in r
  {
    if s == [] then []
    else
      var rest := Omit(s[1..], r);
      assert forall x :: x in s[1..] ==> x in s;
      if s[0] in r then rest else [s[0]] + rest
  }

  /** Omit keeps at most the nodes it was given, keeps them all exactly when
      none is to be left out, and keeps a list without repetition free of
      repetition. */
  lemma OmitFacts(s: seq<Node>, r: set<Node>)
    ensures |Omit(s, r)| <= |s|
    ensures |Omit(s, r)| == |s| <==> forall x :: x in s ==> x !in r
    ensures Distinct(s) ==> Distinct(Omit(s, r))
  {
    if s != [] {
      OmitFacts(s[1..], r);
      assert forall x :: x in s[1..] ==> x in s;
      assert s[0] in s;
      DistinctTail(s);
      if |Omit(s, r)| == |s| {
        assert s[0] !in r;
      }
    }
  }

  lemma DistinctTail(s: seq<Node>)
    requires s != []
    ensures Distinct(s) ==> Distinct(s[1..]) && s[0] !in s[1..]
  {
    if Distinct(s) {
      forall i, j | 0 <= i < j < |s[1..]| ensures s[1..][i] != s[1..][j] {
        assert s[1..][i] == s[i + 1] && s[1..][j] == s[j + 1];
      }
      forall k | 0 <= k < |s[1..]| ensures s[1..][k] != s[0] {
        assert s[1..][k] == s[k + 1];
      }
    }
  }

  lemma OmitOmit(s: seq<Node>, r: set<Node>, q: set<Node>)
    ensures Omit(Omit(s, r), q) == Omit(s, r + q)
  {
    if s != [] {
      OmitOmit(s[1..], r, q);
    }
  }

  lemma OmitNone(s: seq<Node>, r: set<Node>)
    requires forall x :: x in s ==> x !in r
    ensures Omit(s, r) == s
  {
    if s != [] {
      assert s[0] in s;
      assert forall x :: x in s[1..] ==> x in s;
      OmitNone(s[1..], r);
    }
  }

  lemma OmitOne(s: seq<Node>, n: Node)
    requires Distinct(s) && n in s
    ensures |Omit(s, {n})| == |s| - 1
  {
    var k :| 0 <= k < |s| && s[k] == n;
    if k == 0 {
      assert forall x :: x in s[1..] ==> x != n by {
        forall x | x in s[1..] ensures x != n {
          var j :| 0 <= j < |s[1..]| && s[1..][j] == x;
          assert s[j + 1] == x;
        }
      }
      assert Distinct(s[1..]) by {
        forall i, j | 0 <= i < j < |s[1..]| ensures s[1..][i] != s[1..][j] {
          assert s[1..][i] == s[i + 1] && s[1..][j] == s[j + 1];
        }
      }
      OmitFacts(s[1..], {n});
      assert |Omit(s[1..], {n})| == |s[1..]|;
    } else {
      assert s[1..][k - 1] == n;
      assert Distinct(s[1..]) by {
        forall i, j | 0 <= i < j < |s[1..]| ensures s[1..][i] != s[1..][j] {
          assert s[1..][i] == s[i + 1] && s[1..][j] == s[j + 1];
        }
      }
      OmitOne(s[1..], n);
    }
  }

  // ---------------------------------------------------------------------
  // The two primitive updates: remove nodes, write an edge

  /** remove_node for each node of r (remove_nodes_from): the nodes and every
      edge touching them disappear; nothing else changes. */
  function RemoveAll(g: Net, r: set<Node>): (h: Net)
    ensures h.nodes == Omit(g.nodes, r)
    ensures h.adj.Keys == g.adj.Keys - r
    ensures forall x :: x in h.adj ==> h.adj[x] == g.adj[x] - r
  {
    Net(Omit(g.nodes, r), map x | x in g.adj && x !in r :: g.adj[x] - r)
  }

  /** The edges left after removing r: those with neither end in r, with
      their data. */
  lemma RemoveAllEdge(g: Net, r: set<Node>, x: Node, y: Node)
    ensures HasEdge(RemoveAll(g, r), x, y) <==> HasEdge(g, x, y) && x !in r && y !in r
    ensures HasEdge(RemoveAll(g, r), x, y) ==> RemoveAll(g, r).adj[x][y] == g.adj[x][y]
  {
  }

  lemma RemoveAllWellFormed(g: Net, r: set<Node>)
    requires WellFormed(g)
    ensures WellFormed(RemoveAll(g, r))
    ensures Positive(g) ==> Positive(RemoveAll(g, r))
  {
    RemoveAllListed(g, r);
    RemoveAllSimple(g, r);
    if Positive(g) {
      RemoveAllPositive(g, r);
    }
  }

  lemma RemoveAllListed(g: Net, r: set<Node>)
    requires Listed(g)
    ensures Listed(RemoveAll(g, r))
  {
    OmitFacts(g.nodes, r);
  }

  lemma RemoveAllSimple(g: Net, r: set<Node>)
    requires Simple(g)
    ensures Simple(RemoveAll(g, r))
  {
    var h := RemoveAll(g, r);
    forall x | x in h.adj ensures x !in h.adj[x] {
      assert x !in g.adj[x];
    }
    forall x, y | x in h.adj && y in h.adj[x]
      ensures y in h.adj && x in h.adj[y] && h.adj[y][x] == h.adj[x][y]
    {
      assert y in g.adj[x] && y !in r;
    }
  }

  lemma RemoveAllPositive(g: Net, r: set<Node>)
    requires Positive(g)
    ensures Positive(RemoveAll(g, r))
  {
    var h := RemoveAll(g, r);
    forall x, y | x in h.adj && y in h.adj[x] ensures AttrPositive(h.adj[x][y]) {
      assert y in g.adj[x];
    }
  }

  /** Removing nodes the graph does not have changes nothing. */
  lemma RemoveAbsent(g: Net, r: set<Node>)
    requires WellFormed(g) && forall x :: x in g.adj ==> x !in r
    ensures RemoveAll(g, r) == g
  {
    var m := map x | x in g.adj && x !in r :: g.adj[x] - r;
    forall x | x in g.adj ensures g.adj[x] - r == g.adj[x] {
      forall y | y in g.adj[x] ensures y !in r {
        assert HasEdge(g, x, y);
      }
    }
    assert m == g.adj;
    OmitNone(g.nodes, r);
  }

  /** Two adjacency maps with the same nodes, the same edges and the same data
      on every edge are equal. */
  lemma RemoveAllNested(g: Net, r: set<Node>, n: Node)
    ensures RemoveAll(RemoveAll(g, r), {n}) == RemoveAll(g, r + {n})
  {
    OmitOmit(g.nodes, r, {n});
    var a := RemoveAll(RemoveAll(g, r), {n}).adj;
    var b := RemoveAll(g, r + {n}).adj;
    assert a.Keys == b.Keys;
    forall x | x in a ensures a[x] == b[x] {
      assert a[x] == g.adj[x] - r - {n};
    }
  }

  /** Naming a node the graph does not have in a removal changes nothing. */
  lemma RemoveAllSkip(g: Net, r: set<Node>, n: Node)
    requires n !in g.nodes && n !in g.adj && forall x :: x in g.adj ==> n !in g.adj[x]
    ensures RemoveAll(g, r + {n}) == RemoveAll(g, r)
  {
    assert Omit(g.nodes, r + {n}) == Omit(g.nodes, r) by {
      OmitNone(g.nodes, {n});
      OmitOmit(g.nodes, {n}, r);
      assert {n} + r == r + {n};
    }
    var a := map x | x in g.adj && x !in r + {n} :: g.adj[x] - (r + {n});
    var b := map x | x in g.adj && x !in r :: g.adj[x] - r;
    assert a == b by {
      assert a.Keys == b.Keys;
      forall x | x in a ensures a[x] == b[x] {
        assert g.adj[x] - (r + {n}) == g.adj[x] - r;
      }
    }
  }

  /** One step of remove_nodes_from: removing x from RemoveAll(g, r), or
      skipping it when it is not there, gives RemoveAll(g, r + {x}). */
  lemma RemoveStep(g: Net, r: set<Node>, x: Node)
    requires WellFormed(g)
    ensures x in RemoveAll(g, r).adj ==> RemoveAll(RemoveAll(g, r), {x}) == RemoveAll(g, r + {x})
    ensures x !in RemoveAll(g, r).adj ==> RemoveAll(g, r) == RemoveAll(g, r + {x})
  {
    if x in RemoveAll(g, r).adj {
      RemoveAllNested(g, r, x);
    } else if x in r {
      assert r + {x} == r;
    } else {
      assert x !in g.adj;
      assert forall y :: y in g.adj ==> x !in g.adj[y];
      RemoveAllSkip(g, r, x);
    }
  }

  /** The set of nodes named in s. */
  function Members(s: seq<Node>): set<Node>
  {
    set x | x in s
  }

  lemma MembersSnoc(s: seq<Node>, x: Node)
    ensures Members(s + [x]) == Members(s) + {x}
  {
  }

  lemma AdjExt(a: map<Node, map<Node, Attr>>, b: map<Node, map<Node, Attr>>)
    requires forall x :: x in a <==> x in b
    requires forall x, y :: x in a ==> (y in a[x] <==> y in b[x])
    requires forall x, y :: x in a && y in a[x] ==> a[x][y] == b[x][y]
    ensures a == b
  {
    forall x | x in a ensures a[x] == b[x] {
      assert a[x].Keys == b[x].Keys;
    }
  }

  /** Write attr as the data of edge a-b, adding a or b (in that order) at the
      end of the node order when missing: add_edge(a, b) followed by the update
      of the shared data record. */
  function Link(g: Net, a: Node, b: Node, attr: Attr): (h: Net)
    requires a != b
    ensures forall x :: x in h.adj <==> x in g.adj || x == a || x == b
    ensures forall x, y :: HasEdge(h, x, y) <==> HasEdge(g, x, y) || (x == a && y == b) || (x == b && y == a)
    ensures HasEdge(h, a, b) && h.adj[a][b] == attr && HasEdge(h, b, a) && h.adj[b][a] == attr
    ensures forall x, y :: HasEdge(g, x, y) && !(x == a && y == b) && !(x == b && y == a) ==>
              HasEdge(h, x, y) && h.adj[x][y] == g.adj[x][y]
    ensures h.nodes == g.nodes + (if a in g.adj then [] else [a]) + (if b in g.adj then [] else [b])
  {
    var adj1 := if a in g.adj then g.adj else g.adj[a := map[]];
    var adj2 := if b in adj1 then adj1 else adj1[b := map[]];
    Net(g.nodes + (if a in g.adj then [] else [a]) + (if b in g.adj then [] else [b]),
        adj2[a := adj2[a][b := attr]][b := adj2[b][a := attr]])
  }

  lemma LinkWellFormed(g: Net, a: Node, b: Node, attr: Attr)
    requires WellFormed(g) && a != b
    ensures WellFormed(Link(g, a, b, attr))
    ensures Positive(g) && AttrPositive(attr) ==> Positive(Link(g, a, b, attr))
  {
    LinkListed(g, a, b, attr);
    LinkSimple(g, a, b, attr);
    if Positive(g) && AttrPositive(attr) {
      LinkPositive(g, a, b, attr);
    }
  }

  lemma LinkListed(g: Net, a: Node, b: Node, attr: Attr)
    requires Listed(g) && a != b
    ensures Listed(Link(g, a, b, attr))
  {
    var h := Link(g, a, b, attr);
    var s := h.nodes;
    forall i, j | 0 <= i < j < |s| ensures s[i] != s[j] {
      if j < |g.nodes| {
      } else if i < |g.nodes| {
        assert s[i] in g.nodes;
      }
    }
  }

  lemma LinkSimple(g: Net, a: Node, b: Node, attr: Attr)
    requires Simple(g) && a != b
    ensures Simple(Link(g, a, b, attr))
  {
    var h := Link(g, a, b, attr);
    forall x, y | x in h.adj && y in h.adj[x]
      ensures y in h.adj && x in h.adj[y] && h.adj[y][x] == h.adj[x][y]
    {
      assert HasEdge(h, x, y);
      if !(x == a && y == b) && !(x == b && y == a) {
        assert HasEdge(g, x, y) && HasEdge(g, y, x);
      }
    }
  }

  lemma LinkPositive(g: Net, a: Node, b: Node, attr: Attr)
    requires Positive(g) && AttrPositive(attr) && a != b
    ensures Positive(Link(g, a, b, attr))
  {
    var h := Link(g, a, b, attr);
    forall x, y | x in h.adj && y in h.adj[x] ensures AttrPositive(h.adj[x][y]) {
      assert HasEdge(h, x, y);
    }
  }

  // ---------------------------------------------------------------------
  // Counting edges

  predicate Below(a: Node, b: Node)
  {
    a.0 < b.0 || (a.0 == b.0 && a.1 < b.1)
  }

  /** Each undirected edge once, as the pair (smaller end, larger end). */
  function EdgeSet(g: Net): set<(Node, Node)>
  {
    set x, y | x in g.adj && y in g.adj[x] && Below(x, y) :: (x, y)
  }

  /** G.number_of_edges() */
  function EdgeCount(g: Net): nat
  {
    |EdgeSet(g)|
  }

  // ---------------------------------------------------------------------
  // Choosing neighbours.  networkx lists neighbours in insertion order; the
  // reductions below give the same graph whatever the order, so the model
  // takes them in lexicographic order.

  predicate NodeLe(a: Node, b: Node)
  {
    a.0 < b.0 || (a.0 == b.0 && a.1 <= b.1)
  }

  lemma {:induction false} LeastExists(s: set<Node>)
    requires s != {}
    ensures exists m :: m in s && forall y :: y in s ==> NodeLe(m, y)
    decreases |s|
  {
    var x :| x in s;
    if s == {x} {
      assert forall y :: y in s ==> y == x;
    } else {
      LeastExists(s - {x});
      var m :| m in s - {x} && forall y :: y in s - {x} ==> NodeLe(m, y);
      if NodeLe(m, x) {
        assert forall y :: y in s ==> NodeLe(m, y);
      } else {
        assert NodeLe(x, m);
        forall y | y in s ensures NodeLe(x, y) {
          if y != x {
            assert NodeLe(m, y);
          }
        }
      }
    }
  }

  /** The lexicographically least node of s. */
  function Least(s: set<Node>): (m: Node)
    requires s != {}
    ensures m in s && forall y :: y in s ==> NodeLe(m, y)
  {
    LeastExists(s);
    var m :| m in s && forall y :: y in s ==> NodeLe(m, y);
    m
  }

  lemma CardOne(s: set<Node>, a: Node)
    requires |s| == 1 && a in s
    ensures s == {a}
  {
    assert |s - {a}| == 0;
  }

  /** The two neighbours of a node of degree 2, least first. */
  function Pair(s: set<Node>): (r: (Node, Node))
    requires |s| == 2
    ensures r.0 != r.1 && s == {r.0, r.1}
  {
    var a := Least(s);
    assert |s - {a}| == 1;
    var b := Least(s - {a});
    CardOne(s - {a}, b);
    assert s == {a} + (s - {a});
    (a, b)
  }

  /** The three neighbours of a node of degree 3, least first. */
  function Triple(s: set<Node>): (r: (Node, Node, Node))
    requires |s| == 3
    ensures r.0 != r.1 && r.1 != r.2 && r.2 != r.0 && s == {r.0, r.1, r.2}
  {
    var a := Least(s);
    assert |s - {a}| == 2;
    var p := Pair(s - {a});
    assert s == {a} + (s - {a});
    (a, p.0, p.1)
  }

  // ---------------------------------------------------------------------
  // The graph object

  /** A networkx Graph: node insertion order and the adjacency map, updated in
      place by add_edge and remove_node. */
  class Graph {
    var nodes: seq<Node>
    var adj: map<Node, map<Node, Attr>>

    function Value(): Net
      reads this
    {
      Net(nodes, adj)
    }

    ghost predicate Valid()
      reads this
    {
      WellFormed(Value())
    }

    constructor Empty()
      ensures Value() == Net([], map[]) && Valid()
    {
      nodes := [];
      adj := map[];
    }

    /** G.copy(): a new graph with the same nodes, order and edge data. */
    method Copy() returns (h: Graph)
      ensures fresh(h) && h.Value() == Value()
    {
      h := new Graph.Empty();
      h.nodes := nodes;
      h.adj := adj;
    }

    /** G.add_edge(a, b, **attr), where attr is the edge's data after the update. */
    method AddEdge(a: Node, b: Node, attr: Attr)
      requires a != b
      modifies this
      ensures Value() == Link(old(Value()), a, b, attr)
      ensures old(Valid()) ==> Valid()
    {
      ghost var g := Value();
      if a !in adj {
        nodes := nodes + [a];
        adj := adj[a := map[]];
      }
      if b !in adj {
        nodes := nodes + [b];
        adj := adj[b := map[]];
      }
      adj := adj[a := adj[a][b := attr]];
      adj := adj[b := adj[b][a := attr]];
      assert Value() == Link(g, a, b, attr);
      if WellFormed(g) {
        LinkWellFormed(g, a, b, attr);
      }
    }

    /** G.remove_nodes_from(ns): names that are not (or no longer) in the
        graph are skipped. */
    method RemoveNodesFrom(ns: seq<Node>)
      requires Valid()
      modifies this
      ensures Value() == RemoveAll(old(Value()), Members(ns))
      ensures Valid()
    {
      ghost var g := Value();
      ghost var removed: set<Node> := {};
      RemoveAbsent(g, removed);
      var j := 0;
      while j < |ns|
        invariant 0 <= j <= |ns|
        invariant removed == Members(ns[..j])
        invariant Value() == RemoveAll(g, removed)
      {
        var x := ns[j];
        MembersSnoc(ns[..j], x);
        assert ns[..j + 1] == ns[..j] + [x];
        RemoveStep(g, removed, x);
        if x in adj {
          RemoveNode(x);
        }
        removed := removed + {x};
        j := j + 1;
      }
      assert ns[..j] == ns;
      RemoveAllWellFormed(g, removed);
    }

    /** G.remove_node(n) */
    method RemoveNode(n: Node)
      requires n in adj
      modifies this
      ensures Value() == RemoveAll(old(Value()), {n})
      ensures old(Valid()) ==> Valid()
    {
      ghost var g := Value();
      nodes := Omit(nodes, {n});
      adj := map x | x in adj && x != n :: adj[x] - {n};
      assert Value() == RemoveAll(g, {n});
      if WellFormed(g) {
        RemoveAllWellFormed(g, {n});
      }
    }
  }
}
