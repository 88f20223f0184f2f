// fold and fold2 of solve.py: the symmetry folds of the 2N x 2N lattice,
// each a run of contracted_nodes calls over a fixed list of node pairs
// followed by simplify_weights, and the node sets they leave behind.

module Folding {
  import opened Wrappers
  import opened Network
  import opened Contraction
  import opened Weights

  // fold(G, N)

  /** The pairs ((x, y), (y, x)) of fold, x and y in range(m), row by row. */
  function FoldPairs(m: nat): (ps: seq<(Node, Node)>)
    ensures Aligned(ps) && OffDiagonal(ps)
  {
    FoldRows(m, m)
  }

  function FoldRows(m: nat, k: nat): (ps: seq<(Node, Node)>)
    ensures Aligned(ps) && OffDiagonal(ps)
  {
    if k == 0 then [] else FoldRows(m, k - 1) + FoldRow(m, k - 1)
  }

  function FoldRow(m: nat, x: int): (ps: seq<(Node, Node)>)
    ensures |ps| == m && forall j :: 0 <= j < m ==> ps[j] == ((x, j), (j, x))
  {
    seq(m, j requires 0 <= j < m => ((x, j), (j, x)))
  }

  /** The graph fold(G, N) computes, when simplify_weights succeeds. */
  function Folded(g: Net, n: nat): (h: Net)
    requires FoldReady(g)
    ensures FoldReady(h)
    ensures Tidy(g) ==> Tidy(h)
  {
    MergeAll(g, FoldPairs(2 * n), false)
  }

  /** fold(G, N): merge (y, x) into (x, y) for every pair in turn, then
      combine the stacked resistors.  contracted_nodes returns a new graph
      each time; here one copy is contracted in place. */
  method Fold(g: Graph, n: nat) returns (h: Graph, ok: bool)
    requires g.Valid() && FoldReady(g.Value())
    ensures fresh(h)
    ensures ok <==> Mergeable(Folded(g.Value(), n))
    ensures ok ==> h.Value() == Merged(Folded(g.Value(), n))
  {
    var pairs := FoldPairs(2 * n);
    h := RunMerges(g, pairs, false);
    ok := SimplifyWeights(h);
  }

  /** The loop shared by fold and fold2: merge each pair whose two nodes are
      both still in the graph. */
  method RunMerges(g: Graph, pairs: seq<(Node, Node)>, keepSecond: bool) returns (h: Graph)
    requires g.Valid() && FoldReady(g.Value()) && Aligned(pairs)
    ensures fresh(h) && h.Valid()
    ensures h.Value() == MergeAll(g.Value(), pairs, keepSecond)
  {
    h := g.Copy();
    var i := 0;
    while i < |pairs|
      invariant 0 <= i <= |pairs|
      invariant h.Value() == MergeAll(g.Value(), pairs[..i], keepSecond)
    {
      MergeAt(h, g.Value(), pairs, i, keepSecond);
      i := i + 1;
    }
    assert pairs[..i] == pairs;
  }

  /** One iteration: if n1 in G and n2 in G, contract the pair. */
  method MergeAt(h: Graph, ghost g: Net, pairs: seq<(Node, Node)>, i: nat, keepSecond: bool)
    requires FoldReady(g) && Aligned(pairs) && i < |pairs|
    requires h.Value() == MergeAll(g, pairs[..i], keepSecond)
    modifies h
    ensures h.Value() == MergeAll(g, pairs[..i + 1], keepSecond)
  {
    MergeAllStep(g, pairs, i, keepSecond);
    ghost var done := h.Value();
    var n1 := pairs[i].0;
    var n2 := pairs[i].1;
    if n1 in h.adj && n2 in h.adj {
      ContractedReady(h.Value(), n1, n2);
      ContractedReady(h.Value(), n2, n1);
      if keepSecond {
        ContractNodes(h, n2, n1);
      } else {
        ContractNodes(h, n1, n2);
      }
    }
    assert h.Value() == Merge(done, pairs[i], keepSecond);
  }

  // ---------------------------------------------------------------------
  // fold2(G, N)

  /** The pairs ((x, m-x-1), (x+1, m-x-2)) of fold2, m = 2n, x in range(m - 1):
      neighbours along the anti-diagonal. */
  function Fold2Pairs(n: nat): (ps: seq<(Node, Node)>)
    ensures |ps| == (if n == 0 then 0 else 2 * n - 1)
    ensures forall x :: 0 <= x < |ps| ==> ps[x] == ((x, 2 * n - x - 1), (x + 1, 2 * n - x - 2))
    ensures Aligned(ps) && OffDiagonal(ps)
  {
    if n == 0 then []
    else seq(2 * n - 1, x requires 0 <= x < 2 * n - 1 => ((x, 2 * n - x - 1), (x + 1, 2 * n - x - 2)))
  }

  /** The graph fold2(G, N) computes, when simplify_weights succeeds. */
  function Folded2(g: Net, n: nat): (h: Net)
    requires FoldReady(g)
    ensures FoldReady(h)
    ensures Tidy(g) ==> Tidy(h)
  {
    MergeAll(g, Fold2Pairs(n), true)
  }

  /** fold2(G, N): merge each anti-diagonal node into the next one (the
      second of the pair is kept), then combine the stacked resistors. */
  method Fold2(g: Graph, n: nat) returns (h: Graph, ok: bool)
    requires g.Valid() && FoldReady(g.Value())
    ensures fresh(h)
    ensures ok <==> Mergeable(Folded2(g.Value(), n))
    ensures ok ==> h.Value() == Merged(Folded2(g.Value(), n))
  {
    var pairs := Fold2Pairs(n);
    h := RunMerges(g, pairs, true);
    ok := SimplifyWeights(h);
  }

  // ---------------------------------------------------------------------
  // Which nodes the folds leave

}
