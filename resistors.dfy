// Circuit laws used by the reduction engine: resistors in series, in parallel
// (two-way and N-way reciprocal sum) and the star-mesh (Y-Delta) equivalence.
// Weights are exact reals; the source computes with floating point.

module Resistors {

  /** Two resistors in parallel, as simplify_parallel computes it: w*w'/(w+w'). */
  function Parallel(a: real, b: real): real
    requires a + b != 0.0
  {
    (a * b) / (a + b)
  }

  /** Sum of the reciprocals of ws, accumulated left to right as simplify_weights does. */
  function SumInverses(ws: seq<real>): real
    requires forall i :: 0 <= i < |ws| ==> ws[i] != 0.0
  {
    if ws == [] then 0.0 else SumInverses(ws[..|ws| - 1]) + 1.0 / ws[|ws| - 1]
  }

  /** N-way parallel combination 1/(1/w + sum 1/w_i) used after a contraction. */
  function ReciprocalSum(w: real, ws: seq<real>): real
    requires w != 0.0 && forall i :: 0 <= i < |ws| ==> ws[i] != 0.0
    requires 1.0 / w + SumInverses(ws) != 0.0
  {
    1.0 / (1.0 / w + SumInverses(ws))
  }

  /** Repeated two-way parallel merging of w with ws[0], ws[1], ... */
  function ParallelAll(w: real, ws: seq<real>): (r: real)
    requires w > 0.0 && forall i :: 0 <= i < |ws| ==> ws[i] > 0.0
    ensures r > 0.0
    decreases |ws|
  {
    if ws == [] then w
    else
      var p := ParallelAll(w, ws[..|ws| - 1]);
      ParallelLaw(p, ws[|ws| - 1]);
      Parallel(p, ws[|ws| - 1])
  }

  /** The three edges of the mesh that replaces a star with arms ra, rb, rc:
      the edge opposite arm k gets (ra*rb + rb*rc + rc*ra) / rk. */
  function StarSum(ra: real, rb: real, rc: real): real
  {
    ra * rb + rb * rc + rc * ra
  }

  function MeshEdge(ra: real, rb: real, rc: real): real
    requires rc != 0.0
  {
    StarSum(ra, rb, rc) / rc
  }

  // ---------------------------------------------------------------------
  // Laws

  lemma ParallelLaw(a: real, b: real)
    requires a > 0.0 && b > 0.0
    ensures Parallel(a, b) == Parallel(b, a)
    ensures 0.0 < Parallel(a, b) < a && Parallel(a, b) < b
    ensures 1.0 / Parallel(a, b) == 1.0 / a + 1.0 / b
  {
    var p := Parallel(a, b);
    assert a * b > 0.0;
    assert p * (a + b) == a * b;
    assert p < a by {
      assert a * b < a * (a + b);
    }
    assert p < b by {
      assert a * b < b * (a + b);
    }
    calc {
      1.0 / a + 1.0 / b;
      (a + b) / (a * b);
      1.0 / p;
    }
  }

  lemma SumInversesPositive(ws: seq<real>)
    requires forall i :: 0 <= i < |ws| ==> ws[i] > 0.0
    ensures SumInverses(ws) >= 0.0
    ensures ws != [] ==> SumInverses(ws) > 0.0
  {
    if ws != [] {
      SumInversesPositive(ws[..|ws| - 1]);
    }
  }

  /** Merging a contracted edge one parallel resistor at a time gives the same
      weight as the N-way reciprocal sum of simplify_weights. */
  lemma {:induction false} ParallelAllIsReciprocalSum(w: real, ws: seq<real>)
    requires w > 0.0 && forall i :: 0 <= i < |ws| ==> ws[i] > 0.0
    ensures 1.0 / w + SumInverses(ws) > 0.0
    ensures ParallelAll(w, ws) == ReciprocalSum(w, ws)
    decreases |ws|
  {
    SumInversesPositive(ws);
    if ws != [] {
      var init := ws[..|ws| - 1];
      var last := ws[|ws| - 1];
      ParallelAllIsReciprocalSum(w, init);
      SumInversesPositive(init);
      var u := 1.0 / w + SumInverses(init);
      ParallelStep(ParallelAll(w, init), u, last);
      assert SumInverses(ws) == SumInverses(init) + 1.0 / last;
    }
  }

  /** One more resistor in parallel with a combination whose conductance is u. */
  lemma ParallelStep(p: real, u: real, r: real)
    requires u > 0.0 && r > 0.0 && p == 1.0 / u
    ensures Parallel(p, r) == 1.0 / (u + 1.0 / r)
  {
    assert p > 0.0;
    ParallelLaw(p, r);
    ReciprocalOf(p, u);
    ReciprocalOf(Parallel(p, r), u + 1.0 / r);
  }

  /** x = 1/t exactly when t = 1/x, for positive reals. */
  lemma ReciprocalOf(x: real, t: real)
    requires x > 0.0 && t > 0.0
    ensures x == 1.0 / t <==> t == 1.0 / x
  {
    if x == 1.0 / t {
      assert x * t == 1.0;
    }
    if t == 1.0 / x {
      assert x * t == 1.0;
    }
  }

  /** The reciprocal sum is positive and no larger than any merged resistor. */
  lemma ReciprocalSumBounds(w: real, ws: seq<real>)
    requires w > 0.0 && forall i :: 0 <= i < |ws| ==> ws[i] > 0.0
    ensures 1.0 / w + SumInverses(ws) > 0.0
    ensures 0.0 < ReciprocalSum(w, ws) <= w
    ensures ws != [] ==> ReciprocalSum(w, ws) < w
  {
    SumInversesPositive(ws);
    var t := 1.0 / w + SumInverses(ws);
    var r := 1.0 / t;
    assert r * t == 1.0;
    assert t * w == 1.0 + SumInverses(ws) * w;
    assert t * w >= 1.0;
    assert r <= w by {
      assert r * (t * w) == w;
    }
    if ws != [] {
      assert SumInverses(ws) * w > 0.0;
      assert r < w by {
        assert r * (t * w) == w;
      }
    }
  }

  lemma MeshEdgePositive(ra: real, rb: real, rc: real)
    requires ra > 0.0 && rb > 0.0 && rc > 0.0
    ensures StarSum(ra, rb, rc) > 0.0
    ensures MeshEdge(ra, rb, rc) > 0.0
  {
    assert ra * rb > 0.0 && rb * rc > 0.0 && rc * ra > 0.0;
  }

  /** The mesh edge between two terminals does not depend on which of the
      two is named first. */
  lemma MeshEdgeSymmetric(ra: real, rb: real, rc: real)
    requires rc != 0.0
    ensures MeshEdge(ra, rb, rc) == MeshEdge(rb, ra, rc)
  {
    assert StarSum(ra, rb, rc) == StarSum(rb, ra, rc);
  }

  /** Star-mesh equivalence seen from terminals 1 and 2 (terminal 3 left open):
      in the star the current flows through arms a and b, Ra + Rb; in the
      mesh the direct edge S/Rc is in parallel with the path S/Ra + S/Rb. */
  lemma {:induction false} StarMeshTwoTerminal(ra: real, rb: real, rc: real)
    requires ra > 0.0 && rb > 0.0 && rc > 0.0
    ensures MeshEdge(rb, rc, ra) + MeshEdge(rc, ra, rb) > 0.0
    ensures Parallel(MeshEdge(ra, rb, rc), MeshEdge(rb, rc, ra) + MeshEdge(rc, ra, rb)) == ra + rb
  {
    var s := StarSum(ra, rb, rc);
    MeshEdgePositive(ra, rb, rc);
    assert StarSum(rb, rc, ra) == s && StarSum(rc, ra, rb) == s;
    var x := s / rc;
    var y := s / ra + s / rb;
    assert x == MeshEdge(ra, rb, rc);
    assert y == MeshEdge(rb, rc, ra) + MeshEdge(rc, ra, rb);
    assert y * (ra * rb) == s * (ra + rb);
    assert x * rc == s;
    // x + y = s*s / (ra*rb*rc) and x*y = s*s*(ra+rb) / (ra*rb*rc)
    var k := ra * rb * rc;
    assert k > 0.0;
    assert (x + y) * k == s * s by {
      calc {
        (x + y) * k;
        x * rc * (ra * rb) + y * (ra * rb) * rc;
        s * (ra * rb) + s * (ra + rb) * rc;
        s * (ra * rb + rb * rc + rc * ra);
        s * s;
      }
    }
    assert (x * y) * k == s * s * (ra + rb) by {
      calc {
        (x * y) * k;
        (x * rc) * (y * (ra * rb));
        s * (s * (ra + rb));
      }
    }
    assert s * s > 0.0;
    assert x + y > 0.0;
    assert (x * y) == (ra + rb) * (x + y) by {
      assert (x * y) * k == (ra + rb) * ((x + y) * k);
    }
  }

  /** The three two-terminal views of a star and of its mesh agree. */
  lemma StarMeshEquivalence(ra: real, rb: real, rc: real)
    requires ra > 0.0 && rb > 0.0 && rc > 0.0
    ensures MeshEdge(rb, rc, ra) + MeshEdge(rc, ra, rb) > 0.0
    ensures MeshEdge(rc, ra, rb) + MeshEdge(ra, rb, rc) > 0.0
    ensures MeshEdge(ra, rb, rc) + MeshEdge(rb, rc, ra) > 0.0
    ensures Parallel(MeshEdge(ra, rb, rc), MeshEdge(rb, rc, ra) + MeshEdge(rc, ra, rb)) == ra + rb
    ensures Parallel(MeshEdge(rb, rc, ra), MeshEdge(rc, ra, rb) + MeshEdge(ra, rb, rc)) == rb + rc
    ensures Parallel(MeshEdge(rc, ra, rb), MeshEdge(ra, rb, rc) + MeshEdge(rb, rc, ra)) == rc + ra
  {
    StarMeshTwoTerminal(ra, rb, rc);
    StarMeshTwoTerminal(rb, rc, ra);
    StarMeshTwoTerminal(rc, ra, rb);
  }
}
