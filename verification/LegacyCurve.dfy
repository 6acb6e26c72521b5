/** The legacy sampler: optional extra points around each data point, and samples of the natural spline
    found by binary search. */
module LegacyCurve {
  import opened CubicMath
  import opened HermiteSplines
  import opened CurveSampling
  import opened NaturalSplines

  // ----- binary search

  /** The last piece that starts at or before `v`. */
  predicate Bracket(x: seq<real>, k: nat, v: real) {
    k + 1 < |x| && (k == 0 || x[k] <= v) && (k + 1 == |x| - 1 || v < x[k + 1])
  }

  lemma {:induction false} IncreasingOrder(x: seq<real>, i: nat, j: nat)
    requires Increasing(x) && i < j < |x|
    ensures x[i] < x[j]
    decreases j - i
  {
    if i + 1 < j {
      IncreasingOrder(x, i + 1, j);
    }
  }

  lemma BracketUnique(x: seq<real>, k: nat, m: nat, v: real)
    requires Increasing(x) && Bracket(x, k, v) && Bracket(x, m, v)
    ensures k == m
  {
    if k + 1 < m {
      IncreasingOrder(x, k + 1, m);
    } else if m + 1 < k {
      IncreasingOrder(x, m + 1, k);
    }
  }

  /** `Math.round` of a half-integer rounds up. */
  function RoundHalf(a: nat): nat {
    (a + 1) / 2
  }

  /** The search always ends, with adjacent indices around the piece of `v`. */
  method FindPiece(x: seq<real>, v: real) returns (min: nat, max: nat)
    requires |x| >= 2
    ensures max == min + 1 && Bracket(x, min, v)
  {
    max := |x| - 1;
    min := 0;
    while max - min > 1
      invariant 0 <= min < max <= |x| - 1
      invariant min == 0 || x[min] <= v
      invariant max == |x| - 1 || v < x[max]
      decreases max - min
    {
      var k := RoundHalf(max + min);
      if x[k] > v {
        max := k;
      } else {
        min := k;
      }
    }
  }

  // ----- sampling

  /** The value of the natural spline at `v`. */
  ghost function Curve(x: seq<real>, y: seq<real>, v: real): real
    requires DataOk(x, y)
  {
    var k := PieceOf(x, v);
    Piece(x, y, SecondDerivatives(x, y), k, v)
  }

  ghost function PieceOf(x: seq<real>, v: real): (k: nat)
    requires |x| >= 2
    ensures Bracket(x, k, v)
  {
    PieceExists(x, v, |x| - 2);
    var k: nat :| Bracket(x, k, v);
    k
  }

  lemma {:induction false} PieceExists(x: seq<real>, v: real, m: nat)
    requires m + 1 < |x| && (m + 1 == |x| - 1 || v < x[m + 1])
    ensures exists k: nat :: Bracket(x, k, v)
  {
    if m == 0 || x[m] <= v {
      assert Bracket(x, m, v);
    } else {
      PieceExists(x, v, m - 1);
    }
  }

  /** The x of sample `j` of `num`. */
  function SampleAt(x: seq<real>, num: nat, j: nat): real
    requires |x| >= 2 && num >= 2
  {
    x[0] + j as real * ((x[|x| - 1] - x[0]) / (num - 1) as real)
  }

  lemma CurveAt(x: seq<real>, y: seq<real>, k: nat, v: real)
    requires DataOk(x, y) && Bracket(x, k, v)
    ensures Curve(x, y, v) == Piece(x, y, SecondDerivatives(x, y), k, v)
  {
    hide Piece, SecondDerivatives;
    BracketUnique(x, k, PieceOf(x, v), v);
  }

  /** The curve passes through every knot, whichever piece the search picks. */
  lemma CurveInterpolates(x: seq<real>, y: seq<real>, k: nat)
    requires DataOk(x, y) && k < |x|
    ensures Curve(x, y, x[k]) == y[k]
  {
    hide Piece, SecondDerivatives, Curve;
    var m := if k == |x| - 1 then k - 1 else k;
    assert Bracket(x, m, x[k]);
    CurveAt(x, y, m, x[k]);
    PieceAtKnots(x, y, SecondDerivatives(x, y), m);
  }

  /** `num` samples at equal distances from the first knot to the last, each on the natural spline. */
  method SampleCurve(x: seq<real>, y: seq<real>, num: nat) returns (result: seq<Point>)
    requires DataOk(x, y) && num >= 2
    ensures |result| == num
    ensures forall j :: 0 <= j < num ==> result[j] == (SampleAt(x, num, j), Curve(x, y, SampleAt(x, num, j)))
  {
    hide SecondDerivatives, SecondDerivative, Solves, Curve, Piece, SampleAt;
    var y2 := SolveSystem(x, y);
    var step := (x[|x| - 1] - x[0]) / (num - 1) as real;
    FirstSample(x, y, num);
    result := [(x[0], y[0])];
    for j := 1 to num
      invariant |result| == j
      invariant forall i :: 0 <= i < j ==> result[i] == (SampleAt(x, num, i), Curve(x, y, SampleAt(x, num, i)))
      invariant y2[..] == SecondDerivatives(x, y)
    {
      var v := x[0] + j as real * step;
      var min, max := FindPiece(x, v);
      var value := EvaluatePiece(x, y, y2, min, max, v);
      CurveAt(x, y, min, v);
      SampleIs(x, num, j, step);
      assert value == Curve(x, y, v);
      result := result + [(v, value)];
    }
  }

  lemma SampleIs(x: seq<real>, num: nat, j: nat, step: real)
    requires |x| >= 2 && num >= 2 && step == (x[|x| - 1] - x[0]) / (num - 1) as real
    ensures SampleAt(x, num, j) == x[0] + j as real * step
  {
  }

  lemma FirstSample(x: seq<real>, y: seq<real>, num: nat)
    requires DataOk(x, y) && num >= 2
    ensures SampleAt(x, num, 0) == x[0] && Curve(x, y, x[0]) == y[0]
  {
    hide Curve;
    assert 0.0 * ((x[|x| - 1] - x[0]) / (num - 1) as real) == 0.0;
    CurveInterpolates(x, y, 0);
  }

  method EvaluatePiece(x: seq<real>, y: seq<real>, y2: array<real>, min: nat, max: nat, v: real) returns (value: real)
    requires DataOk(x, y) && y2.Length == |x| && max == min + 1 < |x|
    ensures value == Piece(x, y, y2[..], min, v)
  {
    hide Blend, Arch;
    var h := x[max] - x[min];
    var a := (x[max] - v) / h;
    var b := (v - x[min]) / h;
    value := a * y[min] + b * y[max] + ((a * a * a - a) * y2[min] + (b * b * b - b) * y2[max]) * (h * h) / 6.0;
    BlendIs(h, y[min], y[max], y2[min], y2[max], a, b);
    ArchIs(a);
    ArchIs(b);
  }

  lemma ArchIs(a: real)
    ensures Arch(a) == a * a * a - a
  {
  }

  /** Samples start and end at the first and last knots, and hit the data wherever they hit a knot. */
  lemma SamplesMeetKnots(x: seq<real>, y: seq<real>, num: nat, j: nat, k: nat)
    requires DataOk(x, y) && num >= 2 && k < |x|
    ensures SampleAt(x, num, 0) == x[0] && SampleAt(x, num, num - 1) == x[|x| - 1]
    ensures (SampleAt(x, num, j) - x[0]) * (num - 1) as real == j as real * (x[|x| - 1] - x[0])
    ensures Curve(x, y, x[0]) == y[0] && Curve(x, y, x[|x| - 1]) == y[|x| - 1]
    ensures SampleAt(x, num, j) == x[k] ==> Curve(x, y, SampleAt(x, num, j)) == y[k]
  {
    hide Curve;
    FirstSample(x, y, num);
    DivCancel(x[|x| - 1] - x[0], (num - 1) as real);
    CurveInterpolates(x, y, k);
    CurveInterpolates(x, y, |x| - 1);
    var step := (x[|x| - 1] - x[0]) / (num - 1) as real;
    assert j as real * step * (num - 1) as real == j as real * (step * (num - 1) as real);
  }

  // ----- the extra points of the fit option

  /** `fit` with its distance: the given one, or the x range divided by 50000. */
  datatype FitOption = NoFit | FitDefault | FitBy(distance: real)

  function Distance(xs: seq<real>, fit: FitOption): real
    requires |xs| > 0
  {
    match fit
    case FitBy(d) => d
    case _ => (xs[|xs| - 1] - xs[0]) / 50000.0
  }

  /** The data the spline is computed from: with `fit`, every point gets a companion of the same height on
      either side. A distance of 0 makes the source look for a larger one forever. */
  method PrepareData(xs: seq<real>, ys: seq<real>, fit: FitOption) returns (xdata: seq<real>, ydata: seq<real>)
    requires |xs| == |ys| > 0
    requires !fit.NoFit? ==> Distance(xs, fit) != 0.0
    ensures fit.NoFit? ==> xdata == xs && ydata == ys
    ensures !fit.NoFit? ==> |xdata| == |ydata| == 3 * |xs| && Triples(xs, ys, Distance(xs, fit), xdata, ydata)
    ensures fit.FitBy? ==> xdata[2] - xdata[1] == fit.distance
    ensures fit.FitDefault? ==> (xdata[2] - xdata[1]) * 50000.0 == xs[|xs| - 1] - xs[0]
  {
    xdata, ydata := [], [];
    if !fit.NoFit? {
      var fpDist := Distance(xs, fit);
      for i := 0 to |xs|
        invariant |xdata| == |ydata| == 3 * i
        invariant Triples(xs[..i], ys[..i], fpDist, xdata, ydata)
      {
        var frontX := xs[i] - fpDist;
        var backX := xs[i] + fpDist;
        TriplesSnoc(xs, ys, fpDist, xdata, ydata, i);
        xdata := xdata + [frontX, xs[i], backX];
        ydata := ydata + [ys[i], ys[i], ys[i]];
      }
      assert xs[..|xs|] == xs && ys[..|xs|] == ys;
      TripleAt(xs, ys, fpDist, xdata, ydata, 0);
    } else {
      for i := 0 to |xs|
        invariant xdata == xs[..i] && ydata == ys[..i]
      {
        xdata := xdata + [xs[i]];
        ydata := ydata + [ys[i]];
      }
    }
  }

  predicate Triples(xs: seq<real>, ys: seq<real>, d: real, xdata: seq<real>, ydata: seq<real>)
    requires |xs| == |ys| && |xdata| == |ydata| == 3 * |xs|
  {
    forall k :: 0 <= k < |xs| ==>
      && xdata[3 * k] == xs[k] - d && xdata[3 * k + 1] == xs[k] && xdata[3 * k + 2] == xs[k] + d
      && ydata[3 * k] == ydata[3 * k + 1] == ydata[3 * k + 2] == ys[k]
  }

  lemma TriplesSnoc(xs: seq<real>, ys: seq<real>, d: real, xdata: seq<real>, ydata: seq<real>, i: nat)
    requires i < |xs| == |ys| && |xdata| == |ydata| == 3 * i
    requires Triples(xs[..i], ys[..i], d, xdata, ydata)
    ensures Triples(xs[..i + 1], ys[..i + 1], d, xdata + [xs[i] - d, xs[i], xs[i] + d], ydata + [ys[i], ys[i], ys[i]])
  {
    var x', y' := xdata + [xs[i] - d, xs[i], xs[i] + d], ydata + [ys[i], ys[i], ys[i]];
    forall k | 0 <= k < i + 1
      ensures x'[3 * k] == xs[k] - d && x'[3 * k + 1] == xs[k] && x'[3 * k + 2] == xs[k] + d
      ensures y'[3 * k] == y'[3 * k + 1] == y'[3 * k + 2] == ys[k]
    {
      if k < i {
        TripleAt(xs[..i], ys[..i], d, xdata, ydata, k);
      }
    }
  }

  lemma TripleAt(xs: seq<real>, ys: seq<real>, d: real, xdata: seq<real>, ydata: seq<real>, k: nat)
    requires |xs| == |ys| && |xdata| == |ydata| == 3 * |xs| && Triples(xs, ys, d, xdata, ydata) && k < |xs|
    ensures xdata[3 * k] == xs[k] - d && xdata[3 * k + 1] == xs[k] && xdata[3 * k + 2] == xs[k] + d
    ensures ydata[3 * k] == ydata[3 * k + 1] == ydata[3 * k + 2] == ys[k]
  {
  }

  /** The extended data is strictly increasing, as the spline needs it to be, exactly if the distance is
      positive and less than half of every gap. */
  lemma FitKeepsOrderIff(xs: seq<real>, ys: seq<real>, d: real, xdata: seq<real>, ydata: seq<real>)
    requires |xs| == |ys| > 0 && |xdata| == |ydata| == 3 * |xs| && Triples(xs, ys, d, xdata, ydata)
    ensures Increasing(xdata) <==> Fits(xs, d)
  {
    hide Triples;
    if Increasing(xdata) {
      TripleAt(xs, ys, d, xdata, ydata, 0);
      assert xdata[0] < xdata[0 + 1];
      forall i | 0 <= i < |xs| - 1 ensures xs[i + 1] - xs[i] > 2.0 * d {
        TripleAt(xs, ys, d, xdata, ydata, i);
        TripleAt(xs, ys, d, xdata, ydata, i + 1);
        assert xdata[3 * i + 2] < xdata[3 * i + 2 + 1];
      }
    }
    if Fits(xs, d) {
      forall j | 0 <= j < |xdata| - 1 ensures xdata[j] < xdata[j + 1] {
        FitStep(xs, ys, d, xdata, ydata, j);
      }
    }
  }

  /** The distance is positive and less than half of every gap. */
  predicate Fits(xs: seq<real>, d: real) {
    d > 0.0 && forall i :: 0 <= i < |xs| - 1 ==> xs[i + 1] - xs[i] > 2.0 * d
  }

  lemma FitStep(xs: seq<real>, ys: seq<real>, d: real, xdata: seq<real>, ydata: seq<real>, j: nat)
    requires |xs| == |ys| > 0 && |xdata| == |ydata| == 3 * |xs| && Triples(xs, ys, d, xdata, ydata)
    requires Fits(xs, d) && j < |xdata| - 1
    ensures xdata[j] < xdata[j + 1]
  {
    hide Triples;
    var k := j / 3;
    TripleAt(xs, ys, d, xdata, ydata, k);
    if j == 3 * k + 2 {
      TripleAt(xs, ys, d, xdata, ydata, k + 1);
      assert j + 1 == 3 * (k + 1);
    } else {
      assert j == 3 * k || j == 3 * k + 1;
    }
  }

  /** The whole legacy curve: `factor` samples per data point, on the spline of the prepared data. */
  method CalculateLegacyCurvePoints(xs: seq<real>, ys: seq<real>, fit: FitOption, factor: nat)
    returns (result: seq<Point>, xdata: seq<real>, ydata: seq<real>)
    requires DataOk(xs, ys) && factor > 0
    requires !fit.NoFit? ==> Fits(xs, Distance(xs, fit))
    ensures if fit.NoFit? then xdata == xs && ydata == ys
            else |xdata| == |ydata| == 3 * |xs| && Triples(xs, ys, Distance(xs, fit), xdata, ydata)
    ensures DataOk(xdata, ydata) && factor * |xs| >= 2 && |result| == factor * |xs|
    ensures forall j :: 0 <= j < |result| ==>
              result[j] == (SampleAt(xdata, factor * |xs|, j), Curve(xdata, ydata, SampleAt(xdata, factor * |xs|, j)))
  {
    var num := factor * |xs|;
    assert num >= |xs|;
    xdata, ydata := PrepareData(xs, ys, fit);
    if !fit.NoFit? {
      FitKeepsOrderIff(xs, ys, Distance(xs, fit), xdata, ydata);
    }
    result := SampleCurve(xdata, ydata, num);
  }
}
