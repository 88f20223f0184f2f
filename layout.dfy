// The node sets fold and fold2 leave behind on the 2N x 2N lattice: which
// contractions of their pair lists actually happen, and which nodes survive.

module Layout {
  import opened Network
  import opened Contraction
  import opened Folding
  import opened Lattice

  /** The nodes on or above the diagonal. */
  function Upper(m: nat): set<Node>
  {
    set p | p in GridSet(m) && p.0 <= p.1
  }

  /** The grid once the pairs before c (in row-major order) have been
      merged: the nodes below the diagonal whose mirror image comes before c
      are gone. */
  function FoldKeys(m: nat, c: Node): set<Node>
  {
    set p | p in GridSet(m) && !(p.0 > p.1 && Below((p.1, p.0), c))
  }

  lemma FoldStepKeys(m: nat, k: int, j: int)
    requires 0 <= k < m && 0 <= j < m
    ensures StepKeys(FoldKeys(m, (k, j)), ((k, j), (j, k)), false) == FoldKeys(m, (k, j + 1))
  {
    var s := FoldKeys(m, (k, j));
    assert (k, j) in GridSet(m) && (j, k) in GridSet(m);
    if k < j {
      assert (k, j) in s && (j, k) in s;
    } else if k > j {
      assert (k, j) !in s;
    }
    forall p ensures p in StepKeys(s, ((k, j), (j, k)), false) <==> p in FoldKeys(m, (k, j + 1)) {
      if p in GridSet(m) && p.0 > p.1 && (p.1, p.0) == (k, j) {
        assert p == (j, k);
      }
    }
  }

  /** Merging the pairs of a then those of b is merging the pairs of a + b. */
  lemma {:induction false} KeysAfterAppend(s: set<Node>, a: seq<(Node, Node)>, b: seq<(Node, Node)>, keepSecond: bool)
    ensures KeysAfter(s, a + b, keepSecond) == KeysAfter(KeysAfter(s, a, keepSecond), b, keepSecond)
    decreases |b|
  {
    if b == [] {
      assert a + b == a;
    } else {
      var ab := a + b;
      assert ab[..|ab| - 1] == a + b[..|b| - 1];
      assert ab[|ab| - 1] == b[|b| - 1];
      KeysAfterAppend(s, a, b[..|b| - 1], keepSecond);
    }
  }

  /** Row k of fold, pair by pair. */
  lemma {:induction false} FoldRowKeys(m: nat, k: nat, j: nat)
    requires k < m && j <= m
    ensures KeysAfter(FoldKeys(m, (k, 0)), FoldRow(m, k)[..j], false) == FoldKeys(m, (k, j))
  {
    if j > 0 {
      var r := FoldRow(m, k)[..j];
      assert r[..j - 1] == FoldRow(m, k)[..j - 1];
      assert r[j - 1] == ((k, j - 1), (j - 1, k));
      FoldRowKeys(m, k, j - 1);
      FoldStepKeys(m, k, j - 1);
    }
  }

  /** The first k rows of fold. */
  lemma {:induction false} FoldRowsKeys(m: nat, k: nat)
    requires k <= m
    ensures KeysAfter(GridSet(m), FoldRows(m, k), false) == FoldKeys(m, (k, 0))
  {
    if k == 0 {
      assert FoldKeys(m, (0, 0)) == GridSet(m);
    } else {
      FoldRowsKeys(m, k - 1);
      FoldRowsSplit(m, k);
      FoldRowWhole(m, k);
    }
  }

  /** The first k rows are the first k - 1 rows, then row k - 1. */
  lemma FoldRowsSplit(m: nat, k: nat)
    requires 0 < k
    ensures KeysAfter(GridSet(m), FoldRows(m, k), false)
         == KeysAfter(KeysAfter(GridSet(m), FoldRows(m, k - 1), false), FoldRow(m, k - 1), false)
  {
    KeysAfterAppend(GridSet(m), FoldRows(m, k - 1), FoldRow(m, k - 1), false);
  }

  /** A whole row of fold, from its first pair to the start of the next row. */
  lemma FoldRowWhole(m: nat, k: nat)
    requires 0 < k <= m
    ensures KeysAfter(FoldKeys(m, (k - 1, 0)), FoldRow(m, k - 1), false) == FoldKeys(m, (k, 0))
  {
    var row := FoldRow(m, k - 1);
    assert row[..m] == row;
    FoldRowKeys(m, k - 1, m);
    FoldKeysRowEnd(m, k - 1);
  }

  /** The end of row k is the start of row k + 1. */
  lemma FoldKeysRowEnd(m: nat, k: nat)
    ensures FoldKeys(m, (k, m)) == FoldKeys(m, (k + 1, 0))
  {
    assert forall p :: p in GridSet(m) ==> p.1 < m;
  }

  /** fold leaves exactly the nodes (x, y) with x <= y of a 2N x 2N grid. */
  lemma FoldedKeys(g: Net, n: nat)
    requires FoldReady(g) && g.adj.Keys == GridSet(2 * n)
    ensures Folded(g, n).adj.Keys == Upper(2 * n)
  {
    var m := 2 * n;
    FoldRowsKeys(m, m);
    assert FoldKeys(m, (m, 0)) == Upper(m);
  }

  /** The anti-diagonal nodes (x, 2N-1-x), x < k and x <= N-2. */
  function Chain(n: nat, k: nat): set<Node>
  {
    set p | p in Upper(2 * n) && Level(p) == 2 * n - 1 && p.0 < k && p.0 <= n - 2
  }

  lemma {:induction false} Fold2PrefixKeys(n: nat, k: nat)
    requires 1 <= n && k <= 2 * n - 1
    ensures KeysAfter(Upper(2 * n), Fold2Pairs(n)[..k], true) == Upper(2 * n) - Chain(n, k)
  {
    var ps := Fold2Pairs(n);
    if k == 0 {
      assert Chain(n, 0) == {};
      assert ps[..0] == [];
    } else {
      var x := k - 1;
      assert ps[..k][..x] == ps[..x];
      assert ps[..k][x] == ((x, 2 * n - x - 1), (x + 1, 2 * n - x - 2));
      Fold2PrefixKeys(n, x);
      Fold2Step(n, x);
    }
  }

  /** One fold2 contraction: below the anti-diagonal's midpoint it swallows
      the next chain node, past it the second node is already gone. */
  lemma Fold2Step(n: nat, x: nat)
    requires 1 <= n && x < 2 * n - 1
    ensures StepKeys(Upper(2 * n) - Chain(n, x), ((x, 2 * n - x - 1), (x + 1, 2 * n - x - 2)), true)
         == Upper(2 * n) - Chain(n, x + 1)
  {
    var s := Upper(2 * n) - Chain(n, x);
    if x <= n - 2 {
      assert (x, 2 * n - x - 1) in s;
      assert (x + 1, 2 * n - x - 2) in s;
      assert Chain(n, x + 1) == Chain(n, x) + {(x, 2 * n - 1 - x)};
    } else {
      assert (x + 1, 2 * n - x - 2) !in Upper(2 * n);
      assert Chain(n, x + 1) == Chain(n, x);
    }
  }

  /** fold2 leaves every node on or above the diagonal except the
      anti-diagonal ones, which all collapse into (N-1, N). */
  lemma Folded2Keys(g: Net, n: nat)
    requires 1 <= n && FoldReady(g) && g.adj.Keys == Upper(2 * n)
    ensures forall p :: p in Folded2(g, n).adj <==> p in Upper(2 * n) && (Level(p) == 2 * n - 1 ==> p == (n - 1, n))
  {
    var ps := Fold2Pairs(n);
    assert ps[..|ps|] == ps;
    Fold2PrefixKeys(n, |ps|);
    ChainFull(n);
  }

  /** The whole chain is the anti-diagonal above the main diagonal, less
      its last node (N-1, N). */
  lemma ChainFull(n: nat)
    requires 1 <= n
    ensures forall p :: p in Chain(n, 2 * n - 1) <==> p in Upper(2 * n) && Level(p) == 2 * n - 1 && p != (n - 1, n)
  {
    forall p ensures p in Chain(n, 2 * n - 1) <==> p in Upper(2 * n) && Level(p) == 2 * n - 1 && p != (n - 1, n) {
      if p in Upper(2 * n) && Level(p) == 2 * n - 1 && p != (n - 1, n) {
        assert p == (p.0, 2 * n - 1 - p.0);
      }
    }
  }
}
