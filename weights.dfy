// simplify_weights of solve.py: after a fold, every edge that collected a
// contraction record is replaced by one edge whose resistance is the
// parallel combination of the resistors stacked on it.

module Weights {
  import opened Wrappers
  import opened Network
  import opened Resistors
  import opened Contraction

  /** Every entry of a contraction record is a nonzero weight. */
  predicate Recorded(cs: seq<Option<real>>)
  {
    forall i :: 0 <= i < |cs| ==> cs[i].Some? && cs[i].value != 0.0
  }

  function Resistances(cs: seq<Option<real>>): (ws: seq<real>)
    requires forall i :: 0 <= i < |cs| ==> cs[i].Some?
    ensures |ws| == |cs| && forall i :: 0 <= i < |cs| ==> ws[i] == cs[i].value
  {
    seq(|cs|, i requires 0 <= i < |cs| => cs[i].value)
  }

  /** The data of one edge after simplify_weights: an edge with a record gets
      1/(1/w + sum of 1/w_i) and loses the record; None is the error the
      source raises (no weight on the edge, a recorded edge without weight
      read as 0, or a division by zero). */
  function MergeAttr(a: Attr): (r: Option<Attr>)
    ensures r.Some? ==> r.value.contraction == []
    ensures a.contraction == [] ==> r == Some(a)
  {
    if a.contraction == [] then Some(a)
    else if a.weight.None? || a.weight.value == 0.0 || !Recorded(a.contraction) then None
    else
      var ws := Resistances(a.contraction);
      if 1.0 / a.weight.value + SumInverses(ws) == 0.0 then None
      else Some(Attr(Some(ReciprocalSum(a.weight.value, ws)), []))
  }

  /** With positive weights simplify_weights fails exactly on a recorded edge
      without a weight or with a weightless entry, and otherwise puts the
      resistor and all the recorded ones in parallel, which leaves less
      resistance than the edge had alone. */
  lemma MergeAttrParallel(a: Attr)
    requires AttrPositive(a)
    ensures MergeAttr(a).Some? <==>
              a.contraction == [] ||
              (a.weight.Some? && forall i :: 0 <= i < |a.contraction| ==> a.contraction[i].Some?)
    ensures MergeAttr(a).Some? && a.contraction != [] ==>
              MergeAttr(a) == Some(Attr(Some(ParallelAll(a.weight.value, Resistances(a.contraction))), []))
    ensures MergeAttr(a).Some? ==> AttrPositive(MergeAttr(a).value)
    ensures MergeAttr(a).Some? && a.contraction != [] && a.weight.Some? ==>
              MergeAttr(a).value.weight.Some? && MergeAttr(a).value.weight.value < a.weight.value
  {
    if a.contraction != [] && a.weight.Some? && forall i :: 0 <= i < |a.contraction| ==> a.contraction[i].Some? {
      var ws := Resistances(a.contraction);
      assert Recorded(a.contraction) by {
        forall i | 0 <= i < |a.contraction| ensures a.contraction[i].value != 0.0 {
          assert a.contraction[i].value > 0.0;
        }
      }
      ParallelAllIsReciprocalSum(a.weight.value, ws);
      ReciprocalSumBounds(a.weight.value, ws);
    }
  }

  predicate RowMergeable(row: map<Node, Attr>)
  {
    forall y :: y in row ==> MergeAttr(row[y]).Some?
  }

  function MergedRow(row: map<Node, Attr>): map<Node, Attr>
    requires RowMergeable(row)
  {
    map y | y in row :: MergeAttr(row[y]).value
  }

  predicate Mergeable(g: Net)
  {
    forall x :: x in g.adj ==> RowMergeable(g.adj[x])
  }

  /** simplify_weights(G) when it does not fail: every edge as MergeAttr
      leaves it, the nodes and their order unchanged. */
  function Merged(g: Net): Net
    requires Mergeable(g)
  {
    Net(g.nodes, map x | x in g.adj :: MergedRow(g.adj[x]))
  }

  /** simplify_weights leaves a graph without contraction records as it is. */
  lemma MergedPlain(g: Net)
    requires forall x, y :: x in g.adj && y in g.adj[x] ==> g.adj[x][y].contraction == []
    ensures Mergeable(g) && Merged(g) == g
  {
    forall x | x in g.adj ensures RowMergeable(g.adj[x]) && MergedRow(g.adj[x]) == g.adj[x] {
    }
    assert Merged(g).adj == g.adj;
  }

  /** A tidy graph of positive resistances never makes simplify_weights fail. */
  lemma TidyMergeable(g: Net)
    requires Positive(g) && Tidy(g)
    ensures Mergeable(g)
  {
    forall x, y | x in g.adj && y in g.adj[x] ensures MergeAttr(g.adj[x][y]).Some? {
      assert AttrPositive(g.adj[x][y]) && TidyAttr(x, y, g.adj[x][y]);
      MergeAttrParallel(g.adj[x][y]);
    }
  }

  /** simplify_weights keeps the nodes, their order and the edges, and keeps
      every resistance positive. */
  lemma MergedWellFormed(g: Net)
    requires WellFormed(g) && Positive(g) && Mergeable(g)
    ensures WellFormed(Merged(g)) && Positive(Merged(g))
    ensures Merged(g).nodes == g.nodes
    ensures forall x, y :: HasEdge(Merged(g), x, y) <==> HasEdge(g, x, y)
  {
    MergedEdges(g);
    MergedSimple(g);
    MergedPositive(g);
  }

  lemma MergedSimple(g: Net)
    requires Simple(g) && Positive(g) && Mergeable(g)
    ensures Simple(Merged(g))
  {
    var h := Merged(g);
    forall x, y | x in h.adj && y in h.adj[x]
      ensures y in h.adj && x in h.adj[y] && h.adj[y][x] == h.adj[x][y]
    {
      assert y in g.adj[x];
      MergedPair(g, x, y);
    }
  }

  lemma MergedEdges(g: Net)
    requires Mergeable(g)
    ensures Merged(g).adj.Keys == g.adj.Keys
    ensures forall x, y :: HasEdge(Merged(g), x, y) <==> HasEdge(g, x, y)
  {
    var h := Merged(g);
    forall x, y ensures HasEdge(h, x, y) <==> HasEdge(g, x, y) {
      if x in g.adj {
        assert h.adj[x].Keys == g.adj[x].Keys;
      }
    }
  }

  lemma MergedPositive(g: Net)
    requires Simple(g) && Positive(g) && Mergeable(g)
    ensures Positive(Merged(g))
  {
    var h := Merged(g);
    forall x, y | x in h.adj && y in h.adj[x] ensures AttrPositive(h.adj[x][y]) {
      assert y in g.adj[x];
      MergedPair(g, x, y);
    }
  }

  lemma MergedPair(g: Net, x: Node, y: Node)
    requires Simple(g) && Positive(g) && Mergeable(g) && HasEdge(g, x, y)
    ensures HasEdge(Merged(g), y, x) && Merged(g).adj[y][x] == Merged(g).adj[x][y]
    ensures AttrPositive(Merged(g).adj[x][y])
  {
    var a := g.adj[x][y];
    assert HasEdge(g, y, x) && g.adj[y][x] == a;
    assert Merged(g).adj[x][y] == MergeAttr(a).value;
    assert Merged(g).adj[y][x] == MergeAttr(a).value;
    assert AttrPositive(a);
    MergeAttrParallel(a);
  }

  /** Each edge after simplify_weights: no record is left; an edge that had
      none is unchanged, and an edge that had one now weighs its own resistor
      and all the recorded ones in parallel. */
  lemma MergedEdge(g: Net, x: Node, y: Node)
    requires Positive(g) && Mergeable(g) && HasEdge(g, x, y)
    ensures HasEdge(Merged(g), x, y) && Merged(g).adj[x][y].contraction == []
    ensures g.adj[x][y].contraction == [] ==> Merged(g).adj[x][y] == g.adj[x][y]
    ensures g.adj[x][y].contraction != [] ==>
              && g.adj[x][y].weight.Some?
              && (forall i :: 0 <= i < |g.adj[x][y].contraction| ==> g.adj[x][y].contraction[i].Some?)
              && Merged(g).adj[x][y].weight ==
                   Some(ParallelAll(g.adj[x][y].weight.value, Resistances(g.adj[x][y].contraction)))
  {
    var a := g.adj[x][y];
    assert AttrPositive(a) && MergeAttr(a).Some?;
    MergeAttrParallel(a);
    assert Merged(g).adj[x][y] == MergeAttr(a).value;
  }

  /** simplify_weights keeps a folded graph ready for the next fold, and
      tidy: every weightless edge stays as it was. */
  lemma MergedReady(g: Net)
    requires FoldReady(g) && Mergeable(g)
    ensures FoldReady(Merged(g)) && Merged(g).adj.Keys == g.adj.Keys
    ensures Tidy(g) ==> Tidy(Merged(g))
  {
    var h := Merged(g);
    MergedWellFormed(g);
    forall x | x in h.adj ensures |h.adj[x]| > 0 {
      assert h.adj[x].Keys == g.adj[x].Keys;
    }
    forall x, y | x in h.adj && y in h.adj[x] ensures Level(x) != Level(y) {
      assert HasEdge(g, x, y);
    }
    if Tidy(g) {
      MergedTidy(g);
    }
  }

  lemma MergedTidy(g: Net)
    requires Positive(g) && Mergeable(g) && Tidy(g)
    ensures Tidy(Merged(g))
  {
    var h := Merged(g);
    forall x, y | x in h.adj && y in h.adj[x] ensures TidyAttr(x, y, h.adj[x][y]) {
      assert y in g.adj[x];
      MergedEdge(g, x, y);
    }
  }

  /** simplify_weights(G): every edge with a contraction record gets the
      combined weight and loses the record.  The rows are rewritten one node
      at a time; the two directions of an edge share one record in networkx
      and hold equal copies here.  false is the error the source raises. */
  method SimplifyWeights(h: Graph) returns (ok: bool)
    requires h.Valid()
    modifies h
    ensures ok <==> Mergeable(old(h.Value()))
    ensures ok ==> h.Value() == Merged(old(h.Value()))
  {
    ghost var g := h.Value();
    var order := h.nodes;
    var i := 0;
    while i < |order|
      invariant 0 <= i <= |order|
      invariant h.nodes == g.nodes && DoneMergeable(g, order[..i])
      invariant h.adj == MergedRowsOf(g, order[..i])
    {
      var x := order[i];
      MergedRowsStep(g, order, i);
      var row := h.adj[x];
      if !RowMergeable(row) {
        return false;
      }
      h.adj := h.adj[x := MergedRow(row)];
      i := i + 1;
    }
    MergedRowsAll(g);
    ok := true;
  }

  /** The rows of the nodes in done have all been merged. */
  ghost predicate DoneMergeable(g: Net, done: seq<Node>)
  {
    forall x :: x in done && x in g.adj ==> RowMergeable(g.adj[x])
  }

  /** The adjacency once the rows of the nodes in done are merged. */
  ghost function MergedRowsOf(g: Net, done: seq<Node>): map<Node, map<Node, Attr>>
    requires DoneMergeable(g, done)
  {
    map x | x in g.adj :: if x in done then MergedRow(g.adj[x]) else g.adj[x]
  }

  lemma MergedRowsStep(g: Net, order: seq<Node>, i: nat)
    requires Listed(g) && order == g.nodes && i < |order| && DoneMergeable(g, order[..i])
    ensures order[i] in MergedRowsOf(g, order[..i])
    ensures MergedRowsOf(g, order[..i])[order[i]] == g.adj[order[i]]
    ensures !RowMergeable(g.adj[order[i]]) ==> !Mergeable(g)
    ensures RowMergeable(g.adj[order[i]]) ==>
              && DoneMergeable(g, order[..i + 1])
              && MergedRowsOf(g, order[..i + 1])
                 == MergedRowsOf(g, order[..i])[order[i] := MergedRow(g.adj[order[i]])]
  {
    var x := order[i];
    assert x !in order[..i] by {
      forall k | 0 <= k < i ensures order[k] != x { }
    }
    assert order[..i + 1] == order[..i] + [x];
  }

  lemma MergedRowsAll(g: Net)
    requires Listed(g) && DoneMergeable(g, g.nodes[..|g.nodes|])
    ensures Mergeable(g) && Net(g.nodes, MergedRowsOf(g, g.nodes[..|g.nodes|])) == Merged(g)
  {
    assert g.nodes[..|g.nodes|] == g.nodes;
  }
}
