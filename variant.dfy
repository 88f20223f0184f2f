// resistor_lattice.py, the earlier version of the solver: the same lattice,
// fold, reductions and loops, but its fold2 keeps the first node of each
// pair (contracted_nodes(G, n1, n2)), so the pair after a merge finds its
// first node gone and the anti-diagonal is only merged two nodes at a time.

module Variant {
  import opened Wrappers
  import opened Network
  import opened Reductions
  import opened Contraction
  import opened Weights
  import opened Folding
  import opened Lattice
  import opened Layout
  import opened Solver

  // ---------------------------------------------------------------------
  // fold2(G, N), keeping n1

  /** The graph this fold2 computes, when simplify_weights succeeds. */
  function Folded2Kept(g: Net, n: nat): (h: Net)
    requires FoldReady(g)
    ensures FoldReady(h)
    ensures Tidy(g) ==> Tidy(h)
  {
    MergeAll(g, Fold2Pairs(n), false)
  }

  method Fold2Kept(g: Graph, n: nat) returns (h: Graph, ok: bool)
    requires g.Valid() && FoldReady(g.Value())
    ensures fresh(h)
    ensures ok <==> Mergeable(Folded2Kept(g.Value(), n))
    ensures ok ==> h.Value() == Merged(Folded2Kept(g.Value(), n))
  {
    var pairs := Fold2Pairs(n);
    h := RunMerges(g, pairs, false);
    ok := SimplifyWeights(h);
  }

  /** The anti-diagonal nodes (x, 2N-1-x) with x odd, x <= k and x <= N-1:
      those the first k pairs remove. */
  function OddChain(n: nat, k: nat): set<Node>
  {
    set p | p in Upper(2 * n) && Level(p) == 2 * n - 1 && p.0 % 2 == 1 && p.0 <= k && p.0 <= n - 1
  }

  /** One contraction of this fold2: pair x merges only when x is even and
      x <= N-2; for odd x its first node went with the pair before. */
  lemma Fold2KeptStep(n: nat, x: nat)
    requires 1 <= n && x < 2 * n - 1
    ensures StepKeys(Upper(2 * n) - OddChain(n, x), ((x, 2 * n - x - 1), (x + 1, 2 * n - x - 2)), false)
         == Upper(2 * n) - OddChain(n, x + 1)
  {
    var s := Upper(2 * n) - OddChain(n, x);
    if x % 2 == 0 && x <= n - 2 {
      assert (x, 2 * n - x - 1) in s;
      assert (x + 1, 2 * n - x - 2) in s;
      assert OddChain(n, x + 1) == OddChain(n, x) + {(x + 1, 2 * n - x - 2)};
    } else if x % 2 == 1 && x <= n - 1 {
      assert (x, 2 * n - x - 1) in OddChain(n, x);
      assert OddChain(n, x + 1) == OddChain(n, x);
    } else {
      assert (x + 1, 2 * n - x - 2) !in Upper(2 * n);
      assert OddChain(n, x + 1) == OddChain(n, x);
    }
  }

  lemma {:induction false} Fold2KeptPrefixKeys(n: nat, k: nat)
    requires 1 <= n && k <= 2 * n - 1
    ensures KeysAfter(Upper(2 * n), Fold2Pairs(n)[..k], false) == Upper(2 * n) - OddChain(n, k)
  {
    var ps := Fold2Pairs(n);
    if k == 0 {
      assert OddChain(n, 0) == {};
      assert ps[..0] == [];
    } else {
      var x := k - 1;
      assert ps[..k][..x] == ps[..x];
      assert ps[..k][x] == ((x, 2 * n - x - 1), (x + 1, 2 * n - x - 2));
      Fold2KeptPrefixKeys(n, x);
      Fold2KeptStep(n, x);
    }
  }

  /** What this fold2 leaves of the folded lattice: the upper triangle less
      the anti-diagonal nodes in odd columns up to N-1. */
  lemma Folded2KeptKeys(g: Net, n: nat)
    requires 1 <= n && FoldReady(g) && g.adj.Keys == Upper(2 * n)
    ensures Folded2Kept(g, n).adj.Keys == Upper(2 * n) - OddChain(n, 2 * n - 1)
  {
    var ps := Fold2Pairs(n);
    assert ps[..|ps|] == ps;
    Fold2KeptPrefixKeys(n, |ps|);
  }

  /** For N = 3 two anti-diagonal nodes survive this fold2, (0, 5) and
      (2, 3), where the fold2 of solve.py leaves (2, 3) alone. */
  lemma Folded2KeptSplitsChain(g: Net)
    requires FoldReady(g) && g.adj.Keys == Upper(6)
    ensures (0, 5) in Folded2Kept(g, 3).adj && (2, 3) in Folded2Kept(g, 3).adj
    ensures (0, 5) !in Folded2(g, 3).adj && (2, 3) in Folded2(g, 3).adj
  {
    Folded2KeptKeys(g, 3);
    Folded2Keys(g, 3);
    UpperCorners();
  }

  lemma UpperCorners()
    ensures (0, 5) in Upper(6) - OddChain(3, 5) && (2, 3) in Upper(6) - OddChain(3, 5)
  {
    assert (0, 5) in GridSet(6) && (2, 3) in GridSet(6);
  }

  // ---------------------------------------------------------------------
  // solve(G) with the global N

  /** The lattice after fold and this fold2. */
  ghost function VariantFolds(n: nat): (g: Net)
    ensures WellFormed(g) && Positive(g)
  {
    VariantFoldsSucceed(n);
    var f := Folded(LatticeNet(n), n);
    MergedReady(f);
    var f2 := Folded2Kept(Merged(f), n);
    MergedReady(f2);
    Merged(f2)
  }

  /** The resistance this solve prints, if it prints one. */
  ghost function VariantSolution(n: nat): Option<real>
  {
    Reading(Settle(DeltaY, Settle(Pruning, VariantFolds(n))))
  }

  /** simplify_weights does not fail here either. */
  lemma VariantFoldsSucceed(n: nat)
    ensures FoldReady(LatticeNet(n)) && Tidy(LatticeNet(n))
    ensures Mergeable(Folded(LatticeNet(n), n))
    ensures FoldReady(Merged(Folded(LatticeNet(n), n)))
    ensures Mergeable(Folded2Kept(Merged(Folded(LatticeNet(n), n)), n))
  {
    FoldsSucceed(n);
    var f := Folded(LatticeNet(n), n);
    MergedReady(f);
    var f2 := Folded2Kept(Merged(f), n);
    TidyMergeable(f2);
  }

  /** The nodes this version reduces: the anti-diagonal is not collapsed
      into one node, its nodes in odd columns up to N-1 are merged into the
      node before them. */
  lemma VariantFoldsKeys(n: nat)
    requires 1 <= n
    ensures VariantFolds(n).adj.Keys == Upper(2 * n) - OddChain(n, 2 * n - 1)
  {
    LatticeReady(n);
    VariantFoldsSucceed(n);
    var f := Folded(LatticeNet(n), n);
    FoldedKeys(LatticeNet(n), n);
    MergedReady(f);
    var f2 := Folded2Kept(Merged(f), n);
    Folded2KeptKeys(Merged(f), n);
    MergedReady(f2);
  }

  /** solve(G) of resistor_lattice.py on create_lattice(N), N the global;
      the printed resistance is returned. */
  method VariantSolve(n: nat) returns (r: Option<real>)
    ensures r == VariantSolution(n)
  {
    var g := CreateLattice(n);
    VariantFoldsSucceed(n);
    var ok;
    g, ok := Fold(g, n);
    ghost var f := Folded(LatticeNet(n), n);
    MergedReady(f);
    g, ok := Fold2Kept(g, n);
    ghost var f2 := Folded2Kept(Merged(f), n);
    MergedReady(f2);
    g := RunPhase(Pruning, g);
    g := RunPhase(DeltaY, g);
    r := ReadResistance(g);
  }
}
