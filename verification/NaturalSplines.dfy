/** The natural cubic spline of the legacy curve: in-place tridiagonal elimination and back substitution, and the
    pieces they determine. */
module NaturalSplines {
  import opened CubicMath
  import opened HermiteSplines

  // ----- the tridiagonal system

  function Span(x: seq<real>, i: nat): (r: real)
    requires Increasing(x) && 0 < i < |x| - 1
    ensures r == Length(x, i - 1) + Length(x, i) > 0.0
  {
    assert x[i - 1] < x[i] < x[i + 1];
    x[i + 1] - x[i - 1]
  }

  /** The share of the left segment in the two around knot `i`. */
  function Weight(x: seq<real>, i: nat): (s: real)
    requires Increasing(x) && 0 < i < |x| - 1
    ensures 0.0 <= s <= 1.0
  {
    QuotientLe(Length(x, i - 1), Span(x, i), 1.0);
    Length(x, i - 1) / Span(x, i)
  }

  function RightSide(x: seq<real>, y: seq<real>, i: nat): real
    requires DataOk(x, y) && 0 < i < |x| - 1
  {
    6.0 * (Slope(x, y, i) - Slope(x, y, i - 1)) / Span(x, i)
  }

  /** Row `i` of the system for the second derivatives `z` at the knots. */
  predicate Row(x: seq<real>, y: seq<real>, z: seq<real>, i: nat)
    requires DataOk(x, y) && |z| == |x| && 0 < i < |x| - 1
  {
    Weight(x, i) * z[i - 1] + 2.0 * z[i] + (1.0 - Weight(x, i)) * z[i + 1] == RightSide(x, y, i)
  }

  predicate Solves(x: seq<real>, y: seq<real>, z: seq<real>)
    requires DataOk(x, y) && |z| == |x|
  {
    z[0] == 0.0 && z[|z| - 1] == 0.0 && forall i :: 0 < i < |x| - 1 ==> Row(x, y, z, i)
  }

  // ----- elimination

  /** The pivot is in [1, 2] and the new coefficient in [-1, 0]. */
  lemma PivotBounds(s: real, c: real)
    requires 0.0 <= s <= 1.0 && -1.0 <= c <= 0.0
    ensures 1.0 <= s * c + 2.0 <= 2.0
    ensures -1.0 <= (s - 1.0) / (s * c + 2.0) <= 0.0
  {
    MulNonNeg(s, -c);
    MulNonNeg(s, 1.0 + c);
    assert s * (1.0 + c) == s + s * c && s * (-c) == -(s * c);
    QuotientBounds(s, s * c + 2.0);
  }

  lemma QuotientBounds(s: real, p: real)
    requires 0.0 <= s <= 1.0 && 1.0 <= p
    ensures -1.0 <= (s - 1.0) / p <= 0.0
  {
    DivCancel(s - 1.0, p);
    CancelLe((s - 1.0) / p, 0.0, p);
    CancelLe(-1.0, (s - 1.0) / p, p);
  }

  /** The coefficient left in `y2[k]` by the forward sweep. */
  function Coefficient(x: seq<real>, k: nat): (c: real)
    requires Increasing(x) && (k == 0 || k < |x| - 1)
    ensures -1.0 <= c <= 0.0
    decreases k, 1
  {
    if k == 0 then 0.0
    else
      PivotBounds(Weight(x, k), Coefficient(x, k - 1));
      (Weight(x, k) - 1.0) / Pivot(x, k)
  }

  function Pivot(x: seq<real>, k: nat): (p: real)
    requires Increasing(x) && 0 < k < |x| - 1
    ensures 1.0 <= p <= 2.0
    decreases k, 0
  {
    PivotBounds(Weight(x, k), Coefficient(x, k - 1));
    Weight(x, k) * Coefficient(x, k - 1) + 2.0
  }

  function Delta(x: seq<real>, y: seq<real>, k: nat): real
    requires DataOk(x, y) && (k == 0 || k < |x| - 1)
  {
    if k == 0 then 0.0
    else (RightSide(x, y, k) - Weight(x, k) * Delta(x, y, k - 1)) / Pivot(x, k)
  }

  /** The value back substitution gives at knot `k`. */
  function SecondDerivative(x: seq<real>, y: seq<real>, k: nat): real
    requires DataOk(x, y) && k < |x|
    decreases |x| - k
  {
    if k == |x| - 1 then 0.0
    else Coefficient(x, k) * SecondDerivative(x, y, k + 1) + Delta(x, y, k)
  }

  function SecondDerivatives(x: seq<real>, y: seq<real>): (z: seq<real>)
    requires DataOk(x, y)
    ensures |z| == |x| && forall k :: 0 <= k < |x| ==> z[k] == SecondDerivative(x, y, k)
  {
    seq(|x|, k requires 0 <= k < |x| => SecondDerivative(x, y, k))
  }

  /** The two loops of the solver, with `y2` and `delta` overwritten in place. */
  method SolveSystem(x: seq<real>, y: seq<real>) returns (y2: array<real>)
    requires DataOk(x, y)
    ensures fresh(y2) && y2[..] == SecondDerivatives(x, y)
    ensures Solves(x, y, y2[..])
  {
    hide Coefficient, Delta, Solves;
    y2 := new real[|x|];
    var delta := new real[|x|];
    ForwardSweep(x, y, y2, delta);
    BackSubstitute(x, y, y2, delta);
    EliminationSolves(x, y);
    assert y2[..] == SecondDerivatives(x, y);
  }

  method ForwardSweep(x: seq<real>, y: seq<real>, y2: array<real>, delta: array<real>)
    requires DataOk(x, y) && y2.Length == delta.Length == |x| && y2 != delta
    modifies y2, delta
    ensures y2[|x| - 1] == 0.0
    ensures forall k :: 0 <= k < |x| - 1 ==> y2[k] == Coefficient(x, k) && delta[k] == Delta(x, y, k)
  {
    hide Coefficient, Delta, Increasing;
    var n := |x|;
    SweepEnds(x, y);
    y2[0] := 0.0;
    y2[n - 1] := 0.0;
    delta[0] := 0.0;
    for i := 1 to n - 1
      invariant y2[n - 1] == 0.0
      invariant forall k :: 0 <= k < i ==> y2[k] == Coefficient(x, k) && delta[k] == Delta(x, y, k)
    {
      SweepStep(x, y, i);
      var d := x[i + 1] - x[i - 1];
      assert d != 0.0 && x[i + 1] != x[i] && x[i] != x[i - 1];
      var s := (x[i] - x[i - 1]) / d;
      var p := s * y2[i - 1] + 2.0;
      var coefficient := (s - 1.0) / p;
      assert coefficient == Coefficient(x, i);
      var bend := (y[i + 1] - y[i]) / (x[i + 1] - x[i]) - (y[i] - y[i - 1]) / (x[i] - x[i - 1]);
      var reduced := (6.0 * bend / (x[i + 1] - x[i - 1]) - s * delta[i - 1]) / p;
      assert reduced == Delta(x, y, i);
      y2[i] := coefficient;
      delta[i] := reduced;
    }
  }

  method BackSubstitute(x: seq<real>, y: seq<real>, y2: array<real>, delta: array<real>)
    requires DataOk(x, y) && y2.Length == delta.Length == |x| && y2 != delta
    requires y2[|x| - 1] == 0.0
    requires forall k :: 0 <= k < |x| - 1 ==> y2[k] == Coefficient(x, k) && delta[k] == Delta(x, y, k)
    modifies y2
    ensures forall k :: 0 <= k < |x| ==> y2[k] == SecondDerivative(x, y, k)
  {
    hide Coefficient, Delta, SecondDerivative;
    SweepEnds(x, y);
    var j := |x| - 2;
    while j >= 0
      invariant -1 <= j <= |x| - 2
      invariant forall k :: 0 <= k <= j ==> y2[k] == Coefficient(x, k)
      invariant forall k :: j < k < |x| ==> y2[k] == SecondDerivative(x, y, k)
    {
      BackStep(x, y, j);
      y2[j] := y2[j] * y2[j + 1] + delta[j];
      j := j - 1;
    }
  }

  lemma {:induction false} SweepEnds(x: seq<real>, y: seq<real>)
    requires DataOk(x, y)
    ensures Coefficient(x, 0) == 0.0 == Delta(x, y, 0) && SecondDerivative(x, y, |x| - 1) == 0.0
  {
  }

  lemma {:induction false} SweepStep(x: seq<real>, y: seq<real>, i: nat)
    requires DataOk(x, y) && 0 < i < |x| - 1
    ensures x[i - 1] < x[i] < x[i + 1]
    ensures var s := (x[i] - x[i - 1]) / (x[i + 1] - x[i - 1]);
            var p := s * Coefficient(x, i - 1) + 2.0;
            var bend := (y[i + 1] - y[i]) / (x[i + 1] - x[i]) - (y[i] - y[i - 1]) / (x[i] - x[i - 1]);
            && p >= 1.0
            && Coefficient(x, i) == (s - 1.0) / p
            && Delta(x, y, i) == (6.0 * bend / (x[i + 1] - x[i - 1]) - s * Delta(x, y, i - 1)) / p
  {
    hide Coefficient, Delta, Weight, Pivot, RightSide;
    assert Length(x, i - 1) > 0.0 && Length(x, i) > 0.0;
    PivotIs(x, i);
    RowIs(x, y, i);
    SweepIs(x, y, i);
  }

  lemma RowIs(x: seq<real>, y: seq<real>, i: nat)
    requires DataOk(x, y) && 0 < i < |x| - 1
    ensures Weight(x, i) == (x[i] - x[i - 1]) / Span(x, i)
    ensures RightSide(x, y, i) == 6.0 * (Slope(x, y, i) - Slope(x, y, i - 1)) / Span(x, i)
  {
  }

  lemma {:induction false} SweepIs(x: seq<real>, y: seq<real>, i: nat)
    requires DataOk(x, y) && 0 < i < |x| - 1
    ensures Coefficient(x, i) == (Weight(x, i) - 1.0) / Pivot(x, i)
    ensures Delta(x, y, i) == (RightSide(x, y, i) - Weight(x, i) * Delta(x, y, i - 1)) / Pivot(x, i)
  {
    hide Weight, Pivot, RightSide;
  }

  lemma {:induction false} BackStep(x: seq<real>, y: seq<real>, j: nat)
    requires DataOk(x, y) && j < |x| - 1
    ensures SecondDerivative(x, y, j) == Coefficient(x, j) * SecondDerivative(x, y, j + 1) + Delta(x, y, j)
  {
  }

  /** One row: what elimination and back substitution did to it gives the row back. */
  lemma RowAlgebra(s: real, c: real, d: real, c': real, d': real, r: real, p: real, z0: real, z1: real, z2: real)
    requires p == s * c + 2.0 != 0.0
    requires c' * p == s - 1.0 && d' * p == r - s * d
    requires z0 == c * z1 + d
    ensures z1 == c' * z2 + d' <==> s * z0 + 2.0 * z1 + (1.0 - s) * z2 == r
  {
    assert s * z0 == s * c * z1 + s * d;
    assert s * z0 + 2.0 * z1 == p * z1 + s * d;
    assert p * (c' * z2 + d') == (s - 1.0) * z2 + (r - s * d) by {
      assert p * (c' * z2) == c' * p * z2;
      assert p * d' == d' * p;
    }
    if s * z0 + 2.0 * z1 + (1.0 - s) * z2 == r {
      assert z1 * p == (c' * z2 + d') * p;
      CancelEq(z1, c' * z2 + d', p);
    }
  }

  /** The relation between neighbouring knots that the forward sweep leaves. */
  predicate Swept(x: seq<real>, y: seq<real>, z: seq<real>, k: nat)
    requires DataOk(x, y) && |z| == |x| && k < |x| - 1
  {
    z[k] == Coefficient(x, k) * z[k + 1] + Delta(x, y, k)
  }

  lemma {:induction false} EliminationRow(x: seq<real>, y: seq<real>, z: seq<real>, i: nat)
    requires DataOk(x, y) && |z| == |x| && 0 < i < |x| - 1
    requires Swept(x, y, z, i - 1)
    ensures Swept(x, y, z, i) <==> Row(x, y, z, i)
  {
    hide RightSide, Weight, Pivot;
    var s, p, r := Weight(x, i), Pivot(x, i), RightSide(x, y, i);
    DivCancel(s - 1.0, p);
    DivCancel(r - s * Delta(x, y, i - 1), p);
    PivotIs(x, i);
    RowAlgebra(s, Coefficient(x, i - 1), Delta(x, y, i - 1), Coefficient(x, i), Delta(x, y, i), r, p, z[i - 1], z[i],
        z[i + 1]);
  }

  lemma {:induction false} PivotIs(x: seq<real>, i: nat)
    requires Increasing(x) && 0 < i < |x| - 1
    ensures Pivot(x, i) == Weight(x, i) * Coefficient(x, i - 1) + 2.0
  {
    hide Weight, Coefficient;
  }

  lemma EliminationSolves(x: seq<real>, y: seq<real>)
    requires DataOk(x, y)
    ensures Solves(x, y, SecondDerivatives(x, y))
  {
    hide SecondDerivative, Coefficient, Delta, Row;
    var z := SecondDerivatives(x, y);
    SweepEnds(x, y);
    BackStep(x, y, 0);
    forall i | 0 < i < |x| - 1 ensures Row(x, y, z, i) {
      BackStep(x, y, i - 1);
      BackStep(x, y, i);
      EliminationRow(x, y, z, i);
    }
  }

  lemma {:induction false} SolutionSweeps(x: seq<real>, y: seq<real>, z: seq<real>, k: nat)
    requires DataOk(x, y) && |z| == |x| && Solves(x, y, z) && k < |x| - 1
    ensures Swept(x, y, z, k)
  {
    hide Coefficient, Delta, Row;
    if k == 0 {
      SweepEnds(x, y);
    } else {
      hide Swept;
      SolutionSweeps(x, y, z, k - 1);
      assert Row(x, y, z, k);
      EliminationRow(x, y, z, k);
    }
  }

  lemma {:induction false} SolutionBack(x: seq<real>, y: seq<real>, z: seq<real>, k: nat)
    requires DataOk(x, y) && |z| == |x| && Solves(x, y, z) && k < |x|
    ensures z[k] == SecondDerivative(x, y, k)
    decreases |x| - k
  {
    hide Coefficient, Delta, SecondDerivative, Row;
    SweepEnds(x, y);
    if k < |x| - 1 {
      SolutionSweeps(x, y, z, k);
      SolutionBack(x, y, z, k + 1);
      BackStep(x, y, k);
    }
  }

  /** The system has exactly one solution: what the solver computes. */
  lemma SolutionIsUnique(x: seq<real>, y: seq<real>, z: seq<real>)
    requires DataOk(x, y) && |z| == |x|
    ensures Solves(x, y, z) <==> z == SecondDerivatives(x, y)
  {
    EliminationSolves(x, y);
    if Solves(x, y, z) {
      forall k | 0 <= k < |x| ensures z[k] == SecondDerivatives(x, y)[k] {
        SolutionBack(x, y, z, k);
      }
    }
  }

  // ----- the pieces

  /** The sampled value on a piece of length `h` at the fractions `a` (from the right) and `b` (from the left). */
  function Blend(h: real, y0: real, y1: real, z0: real, z1: real, a: real, b: real): real {
    a * y0 + b * y1 + (Arch(a) * z0 + Arch(b) * z1) * (h * h) / 6.0
  }

  function Arch(a: real): real {
    a * a * a - a
  }

  function Piece(x: seq<real>, y: seq<real>, z: seq<real>, k: nat, v: real): real
    requires DataOk(x, y) && |z| == |x| && k + 1 < |x|
  {
    var h := Length(x, k);
    Blend(h, y[k], y[k + 1], z[k], z[k + 1], (x[k + 1] - v) / h, (v - x[k]) / h)
  }

  function PieceSlope(x: seq<real>, y: seq<real>, z: seq<real>, k: nat, v: real): real
    requires DataOk(x, y) && |z| == |x| && k + 1 < |x|
  {
    var h := Length(x, k);
    BlendSlope(h, y[k], y[k + 1], z[k], z[k + 1], (x[k + 1] - v) / h, (v - x[k]) / h)
  }

  function BlendSlope(h: real, y0: real, y1: real, z0: real, z1: real, a: real, b: real): real
    requires h != 0.0
  {
    (y1 - y0) / h + h / 6.0 * ((3.0 * b * b - 1.0) * z1 - (3.0 * a * a - 1.0) * z0)
  }

  function BlendCurvature(z0: real, z1: real, a: real, b: real): real {
    a * z0 + b * z1
  }

  function PieceCurvature(x: seq<real>, y: seq<real>, z: seq<real>, k: nat, v: real): real
    requires DataOk(x, y) && |z| == |x| && k + 1 < |x|
  {
    var h := Length(x, k);
    BlendCurvature(z[k], z[k + 1], (x[k + 1] - v) / h, (v - x[k]) / h)
  }

  /** How `Arch` changes when `a` grows by `w`. */
  function CubeGap(a: real, w: real): real {
    Arch(a + w) - Arch(a)
  }

  lemma CubeStep(a: real, w: real)
    ensures CubeGap(a, w) == (3.0 * a * a - 1.0) * w + 3.0 * a * (w * w) + w * w * w
  {
    assert (a + w) * (a + w) == a * a + 2.0 * (a * w) + w * w;
    assert (a * a + 2.0 * (a * w) + w * w) * (a + w) == a * a * a + 3.0 * (a * a * w) + 3.0 * (a * (w * w)) + w * w * w;
  }

  lemma Scale(p: real, q: real, r: real, z: real, w: real, w2: real, w3: real)
    ensures (p * w + q * w2 + r * w3) * z == p * z * w + q * z * w2 + r * z * w3
  {
  }

  lemma BlendDifference(h: real, y0: real, y1: real, z0: real, z1: real, a: real, b: real, w: real)
    ensures Blend(h, y0, y1, z0, z1, a - w, b + w) ==
            Blend(h, y0, y1, z0, z1, a, b) + w * (y1 - y0) + (CubeGap(a, -w) * z0 + CubeGap(b, w) * z1) * (h * h) / 6.0
  {
    hide Arch, Blend;
    assert a + -w == a - w;
    BlendIs(h, y0, y1, z0, z1, a, b);
    BlendIs(h, y0, y1, z0, z1, a - w, b + w);
    Combine(y0, y1, z0, z1, a, b, Arch(a), Arch(b), CubeGap(a, -w), CubeGap(b, w), w, h * h);
  }

  lemma BlendIs(h: real, y0: real, y1: real, z0: real, z1: real, a: real, b: real)
    ensures Blend(h, y0, y1, z0, z1, a, b) == a * y0 + b * y1 + (Arch(a) * z0 + Arch(b) * z1) * (h * h) / 6.0
  {
    hide Arch;
  }

  lemma Combine(y0: real, y1: real, z0: real, z1: real, a: real, b: real, a3: real, b3: real, da: real, db: real,
      w: real, hh: real)
    ensures (a - w) * y0 + (b + w) * y1 + ((a3 + da) * z0 + (b3 + db) * z1) * hh / 6.0 ==
            a * y0 + b * y1 + (a3 * z0 + b3 * z1) * hh / 6.0 + w * (y1 - y0) + (da * z0 + db * z1) * hh / 6.0
  {
    assert (a3 + da) * z0 == a3 * z0 + da * z0 && (b3 + db) * z1 == b3 * z1 + db * z1;
    var c, d := a3 * z0 + b3 * z1, da * z0 + db * z1;
    assert (c + d) * hh == c * hh + d * hh;
    assert (a - w) * y0 == a * y0 - w * y0 && (b + w) * y1 == b * y1 + w * y1;
  }

  lemma BlendTaylor(h: real, y0: real, y1: real, z0: real, z1: real, a: real, b: real, w: real)
    ensures Blend(h, y0, y1, z0, z1, a - w, b + w) ==
            Blend(h, y0, y1, z0, z1, a, b)
            + w * ((y1 - y0) + h * h / 6.0 * ((3.0 * b * b - 1.0) * z1 - (3.0 * a * a - 1.0) * z0))
            + w * w * (h * h) / 2.0 * (a * z0 + b * z1)
            + w * w * w * (h * h) / 6.0 * (z1 - z0)
  {
    hide Blend, CubeGap;
    BlendDifference(h, y0, y1, z0, z1, a, b, w);
    BlendTerms(z0, z1, a, b, w);
    BlendCollect(h, y1 - y0, (3.0 * b * b - 1.0) * z1 - (3.0 * a * a - 1.0) * z0, a * z0 + b * z1, z1 - z0, w);
  }

  lemma BlendTerms(z0: real, z1: real, a: real, b: real, w: real)
    ensures CubeGap(a, -w) * z0 + CubeGap(b, w) * z1 ==
            ((3.0 * b * b - 1.0) * z1 - (3.0 * a * a - 1.0) * z0) * w +
            3.0 * (a * z0 + b * z1) * (w * w) + (z1 - z0) * (w * w * w)
  {
    hide CubeGap;
    CubeStep(a, -w);
    CubeStep(b, w);
    var p, q, w2, w3 := 3.0 * a * a - 1.0, 3.0 * b * b - 1.0, w * w, w * w * w;
    assert (-w) * (-w) == w2 && (-w) * (-w) * (-w) == -w3 && p * (-w) == (-p) * w;
    Scale(-p, 3.0 * a, -1.0, z0, w, w2, w3);
    Scale(q, 3.0 * b, 1.0, z1, w, w2, w3);
    Gather(p, q, a, b, z0, z1, w, w2, w3);
  }

  lemma Gather(p: real, q: real, a: real, b: real, z0: real, z1: real, w: real, w2: real, w3: real)
    ensures (-p) * z0 * w + 3.0 * a * z0 * w2 + -1.0 * z0 * w3 + (q * z1 * w + 3.0 * b * z1 * w2 + 1.0 * z1 * w3) ==
            (q * z1 - p * z0) * w + 3.0 * (a * z0 + b * z1) * w2 + (z1 - z0) * w3
  {
    assert (-p) * z0 * w + q * z1 * w == (q * z1 - p * z0) * w;
    assert 3.0 * a * z0 * w2 + 3.0 * b * z1 * w2 == 3.0 * (a * z0 + b * z1) * w2;
    assert -1.0 * z0 * w3 + 1.0 * z1 * w3 == (z1 - z0) * w3;
  }

  lemma BlendCollect(h: real, dy: real, e1: real, e2: real, e3: real, w: real)
    ensures w * dy + (e1 * w + 3.0 * e2 * (w * w) + e3 * (w * w * w)) * (h * h) / 6.0 ==
            w * (dy + h * h / 6.0 * e1) + w * w * (h * h) / 2.0 * e2 + w * w * w * (h * h) / 6.0 * e3
  {
    var hh, w2, w3 := h * h, w * w, w * w * w;
    assert (e1 * w + 3.0 * e2 * w2 + e3 * w3) * hh == e1 * w * hh + 3.0 * e2 * w2 * hh + e3 * w3 * hh;
    assert e1 * w * hh / 6.0 == w * (hh / 6.0 * e1);
    assert 3.0 * e2 * w2 * hh / 6.0 == w2 * hh / 2.0 * e2;
    assert e3 * w3 * hh / 6.0 == w3 * hh / 6.0 * e3;
  }

  /** `PieceSlope` and `PieceCurvature` are the first and second derivative of a piece: they are its Taylor
      coefficients at every point. */
  lemma PieceTaylor(x: seq<real>, y: seq<real>, z: seq<real>, k: nat, v: real, t: real)
    requires DataOk(x, y) && |z| == |x| && k + 1 < |x|
    ensures Piece(x, y, z, k, v + t) ==
            Piece(x, y, z, k, v) + t * PieceSlope(x, y, z, k, v) + t * t / 2.0 * PieceCurvature(x, y, z, k, v)
            + t * t * t / 6.0 * ((z[k + 1] - z[k]) / Length(x, k))
  {
    hide Blend, BlendSlope, BlendCurvature, Length;
    var h := Length(x, k);
    ShiftedFractions(x[k], x[k + 1], v, t, h);
    var a, b, w := (x[k + 1] - v) / h, (v - x[k]) / h, t / h;
    var a', b' := (x[k + 1] - (v + t)) / h, (v + t - x[k]) / h;
    assert a' == a - w && b' == b + w;
    assert Piece(x, y, z, k, v + t) == Blend(h, y[k], y[k + 1], z[k], z[k + 1], a', b');
    BlendTaylorAt(h, y[k], y[k + 1], z[k], z[k + 1], a, b, w, t);
    assert Blend(h, y[k], y[k + 1], z[k], z[k + 1], a', b') == Blend(h, y[k], y[k + 1], z[k], z[k + 1], a - w, b + w);
    assert PieceSlope(x, y, z, k, v) == BlendSlope(h, y[k], y[k + 1], z[k], z[k + 1], a, b);
    assert PieceCurvature(x, y, z, k, v) == BlendCurvature(z[k], z[k + 1], a, b);
    assert Piece(x, y, z, k, v) == Blend(h, y[k], y[k + 1], z[k], z[k + 1], a, b);
  }

  lemma BlendTaylorAt(h: real, y0: real, y1: real, z0: real, z1: real, a: real, b: real, w: real, t: real)
    requires h > 0.0 && t == w * h
    ensures Blend(h, y0, y1, z0, z1, a - w, b + w) ==
            Blend(h, y0, y1, z0, z1, a, b) + t * BlendSlope(h, y0, y1, z0, z1, a, b)
            + t * t / 2.0 * BlendCurvature(z0, z1, a, b) + t * t * t / 6.0 * ((z1 - z0) / h)
  {
    hide Blend;
    BlendTaylor(h, y0, y1, z0, z1, a, b, w);
    TaylorScale(h, y1 - y0, (3.0 * b * b - 1.0) * z1 - (3.0 * a * a - 1.0) * z0, a * z0 + b * z1, z1 - z0, w, t);
  }

  lemma ShiftedFractions(x0: real, x1: real, v: real, t: real, h: real)
    requires h > 0.0
    ensures (x1 - (v + t)) / h == (x1 - v) / h - t / h
    ensures (v + t - x0) / h == (v - x0) / h + t / h
    ensures t == t / h * h
  {
    DivCancel(t, h);
    assert x1 - (v + t) == x1 - v - t && v + t - x0 == v - x0 - -t;
    Fractions(x1 - v, t, h);
    Fractions(v - x0, -t, h);
    QuotientIsProduct(-t, h);
    QuotientIsProduct(t, h);
  }

  lemma TaylorScale(h: real, dy: real, e1: real, e2: real, e3: real, w: real, t: real)
    requires h > 0.0 && t == w * h
    ensures w * (dy + h * h / 6.0 * e1) + w * w * (h * h) / 2.0 * e2 + w * w * w * (h * h) / 6.0 * e3 ==
            t * (dy / h + h / 6.0 * e1) + t * t / 2.0 * e2 + t * t * t / 6.0 * (e3 / h)
  {
    var f, g := dy / h, e3 / h;
    DivCancel(dy, h);
    DivCancel(e3, h);
    ScaledTerm(h, f, e1, w);
    assert w * w * (h * h) == w * h * (w * h);
    assert w * w * w * (h * h) * (g * h) == w * h * (w * h) * (w * h) * g;
  }

  lemma ScaledTerm(h: real, f: real, e1: real, w: real)
    ensures w * (f * h + h * h / 6.0 * e1) == w * h * (f + h / 6.0 * e1)
  {
  }

  lemma Fractions(p: real, t: real, h: real)
    requires h != 0.0
    ensures (p - t) / h == p / h - t / h
  {
    QuotientIsProduct(p - t, h);
    QuotientIsProduct(p, h);
    QuotientIsProduct(t, h);
  }

  /** Each piece passes through its two knots and has the solved second derivatives there. */
  lemma PieceAtKnots(x: seq<real>, y: seq<real>, z: seq<real>, k: nat)
    requires DataOk(x, y) && |z| == |x| && k + 1 < |x|
    ensures Piece(x, y, z, k, x[k]) == y[k] && Piece(x, y, z, k, x[k + 1]) == y[k + 1]
    ensures PieceCurvature(x, y, z, k, x[k]) == z[k] && PieceCurvature(x, y, z, k, x[k + 1]) == z[k + 1]
    ensures PieceSlope(x, y, z, k, x[k]) == Slope(x, y, k) - Length(x, k) / 6.0 * (2.0 * z[k] + z[k + 1])
    ensures PieceSlope(x, y, z, k, x[k + 1]) == Slope(x, y, k) + Length(x, k) / 6.0 * (z[k] + 2.0 * z[k + 1])
  {
    var h := Length(x, k);
    DivCancel(h, h);
    assert (x[k + 1] - x[k]) / h == 1.0 && (x[k] - x[k]) / h == 0.0 && (x[k + 1] - x[k + 1]) / h == 0.0;
    BlendAtEnds(h, y[k], y[k + 1], z[k], z[k + 1]);
    assert 3.0 * 0.0 * 0.0 - 1.0 == -1.0 && 3.0 * 1.0 * 1.0 - 1.0 == 2.0;
    assert h / 6.0 * (-1.0 * z[k + 1] - 2.0 * z[k]) == -(h / 6.0 * (2.0 * z[k] + z[k + 1]));
  }

  lemma BlendAtEnds(h: real, y0: real, y1: real, z0: real, z1: real)
    ensures Blend(h, y0, y1, z0, z1, 1.0, 0.0) == y0 && Blend(h, y0, y1, z0, z1, 0.0, 1.0) == y1
  {
  }

  /** At every interior knot the two pieces agree in value, first and second derivative, and the curve
      has no curvature at its ends: it is the natural cubic spline. */
  lemma CurveIsC2(x: seq<real>, y: seq<real>, i: nat)
    requires DataOk(x, y) && 0 < i < |x| - 1
    ensures var z := SecondDerivatives(x, y);
            && Piece(x, y, z, i - 1, x[i]) == Piece(x, y, z, i, x[i]) == y[i]
            && PieceSlope(x, y, z, i - 1, x[i]) == PieceSlope(x, y, z, i, x[i])
            && PieceCurvature(x, y, z, i - 1, x[i]) == PieceCurvature(x, y, z, i, x[i])
    ensures SecondDerivatives(x, y)[0] == 0.0 == SecondDerivatives(x, y)[|x| - 1]
  {
    hide Piece, PieceSlope, PieceCurvature, SecondDerivatives, Slope, Length, Row;
    EliminationSolves(x, y);
    SmoothAt(x, y, SecondDerivatives(x, y), i);
  }

  lemma SmoothAt(x: seq<real>, y: seq<real>, z: seq<real>, i: nat)
    requires DataOk(x, y) && |z| == |x| && 0 < i < |x| - 1 && Row(x, y, z, i)
    ensures Piece(x, y, z, i - 1, x[i]) == Piece(x, y, z, i, x[i]) == y[i]
    ensures PieceSlope(x, y, z, i - 1, x[i]) == PieceSlope(x, y, z, i, x[i])
    ensures PieceCurvature(x, y, z, i - 1, x[i]) == PieceCurvature(x, y, z, i, x[i])
  {
    hide Piece, PieceSlope, PieceCurvature, Slope, Length, Row;
    PieceAtKnots(x, y, z, i - 1);
    PieceAtKnots(x, y, z, i);
    SmoothKnot(x, y, z, i);
  }

  lemma SmoothKnot(x: seq<real>, y: seq<real>, z: seq<real>, i: nat)
    requires DataOk(x, y) && |z| == |x| && 0 < i < |x| - 1 && Row(x, y, z, i)
    ensures Slope(x, y, i - 1) + Length(x, i - 1) / 6.0 * (z[i - 1] + 2.0 * z[i]) ==
            Slope(x, y, i) - Length(x, i) / 6.0 * (2.0 * z[i] + z[i + 1])
  {
    hide Slope;
    SmoothRow(Length(x, i - 1), Length(x, i), Slope(x, y, i - 1), Slope(x, y, i), z[i - 1], z[i], z[i + 1]);
  }

  lemma SmoothRow(l: real, r: real, sl: real, sr: real, z0: real, z1: real, z2: real)
    requires l > 0.0 && r > 0.0
    requires l / (l + r) * z0 + 2.0 * z1 + (1.0 - l / (l + r)) * z2 == 6.0 * (sr - sl) / (l + r)
    ensures sl + l / 6.0 * (z0 + 2.0 * z1) == sr - r / 6.0 * (2.0 * z1 + z2)
  {
    var d := l + r;
    var s := l / d;
    DivCancel(l, d);
    DivCancel(6.0 * (sr - sl), d);
    assert d * (s * z0 + 2.0 * z1 + (1.0 - s) * z2) == l * z0 + 2.0 * d * z1 + r * z2 by {
      assert d * (s * z0) == s * d * z0;
      assert d * ((1.0 - s) * z2) == d * z2 - s * d * z2;
    }
    assert l * z0 + 2.0 * d * z1 + r * z2 == 6.0 * (sr - sl);
    assert l / 6.0 * (z0 + 2.0 * z1) + r / 6.0 * (2.0 * z1 + z2) == (l * z0 + 2.0 * d * z1 + r * z2) / 6.0;
  }
}
