/** The Hermite curve: gradients (Fritsch-Carlson or cardinal) and one cubic per segment. */
module HermiteSplines {
  import opened CubicMath

  /** `monotonicFit`, or a cardinal spline with a tension. */
  datatype Fit = Monotonic | Cardinal(tension: real)

  /** The closure made for one segment. */
  datatype Spline = Spline(x: real, coef1: real, coef2: real, coef3: real, coef4: real)

  function Eval(s: Spline, x: real): real {
    Cubic(s.coef1, s.coef2, s.coef3, x - s.x) + s.coef4
  }

  predicate Increasing(xs: seq<real>) {
    forall i :: 0 <= i < |xs| - 1 ==> xs[i] < xs[i + 1]
  }

  /** At least two points, with x strictly increasing. */
  predicate DataOk(xs: seq<real>, ys: seq<real>) {
    |xs| == |ys| >= 2 && Increasing(xs)
  }

  function Length(xs: seq<real>, i: nat): (r: real)
    requires Increasing(xs) && i + 1 < |xs|
    ensures r > 0.0
  {
    xs[i + 1] - xs[i]
  }

  function Slope(xs: seq<real>, ys: seq<real>, i: nat): real
    requires DataOk(xs, ys) && i + 1 < |xs|
  {
    (ys[i + 1] - ys[i]) / Length(xs, i)
  }

  /** The denominator of the Fritsch-Carlson gradient of two slopes of the same sign. */
  lemma SameSignDenominator(length: real, prevLength: real, slope: real, prev: real)
    requires length > 0.0 && prevLength > 0.0 && slope * prev > 0.0
    ensures slope != 0.0 && prev != 0.0
    ensures (length + prevLength + length) / prev + (length + prevLength + prevLength) / slope != 0.0
  {
    if slope > 0.0 {
      assert prev > 0.0;
    } else {
      assert prev < 0.0;
      QuotientNegative(length + prevLength + length, prev);
      QuotientNegative(length + prevLength + prevLength, slope);
    }
  }

  lemma QuotientNegative(a: real, b: real)
    requires a > 0.0 && b < 0.0
    ensures a / b < 0.0
  {
    DivCancel(a, b);
    CancelNegative(a / b, b);
  }

  lemma CancelNegative(q: real, b: real)
    requires b < 0.0 && q * b > 0.0
    ensures q < 0.0
  {
  }

  function FritschCarlson(length: real, prevLength: real, slope: real, prev: real): real
    requires length > 0.0 && prevLength > 0.0
  {
    if slope * prev <= 0.0 then 0.0
    else
      SameSignDenominator(length, prevLength, slope, prev);
      var common := length + prevLength;
      3.0 * common / ((common + length) / prev + (common + prevLength) / slope)
  }

  function Gradient(xs: seq<real>, ys: seq<real>, fit: Fit, k: nat): real
    requires DataOk(xs, ys) && k < |xs|
  {
    if k == 0 then Slope(xs, ys, 0)
    else if k == |xs| - 1 then Slope(xs, ys, k - 1)
    else
      match fit
      case Monotonic => FritschCarlson(Length(xs, k), Length(xs, k - 1), Slope(xs, ys, k), Slope(xs, ys, k - 1))
      case Cardinal(tension) =>
        assert xs[k - 1] < xs[k] < xs[k + 1];
        tension * (ys[k + 1] - ys[k - 1]) / (xs[k + 1] - xs[k - 1])
  }

  /** The cubic on a segment of length `l` from `(x, y)`, with slope `slope` and end gradients `m` and `m'`. */
  function MakeSpline(x: real, y: real, m: real, m': real, slope: real, l: real): Spline
    requires l > 0.0
  {
    var invLength := 1.0 / l;
    var common := m + m' - slope - slope;
    Spline(x, common * invLength * invLength, (slope - common - m) * invLength, m, y)
  }

  function SegmentSpline(xs: seq<real>, ys: seq<real>, fit: Fit, i: nat): Spline
    requires DataOk(xs, ys) && i + 1 < |xs|
  {
    MakeSpline(xs[i], ys[i], Gradient(xs, ys, fit, i), Gradient(xs, ys, fit, i + 1), Slope(xs, ys, i), Length(xs, i))
  }

  /** Lengths and slopes of the segments. */
  method Segments(xs: seq<real>, ys: seq<real>) returns (segmentLengths: seq<real>, segmentSlopes: seq<real>)
    requires DataOk(xs, ys)
    ensures |segmentLengths| == |segmentSlopes| == |xs| - 1
    ensures forall j :: 0 <= j < |xs| - 1 ==> segmentLengths[j] == Length(xs, j) && segmentSlopes[j] == Slope(xs, ys, j)
  {
    segmentLengths, segmentSlopes := [], [];
    for i := 0 to |xs| - 1
      invariant |segmentLengths| == |segmentSlopes| == i
      invariant forall j :: 0 <= j < i ==> segmentLengths[j] == Length(xs, j) && segmentSlopes[j] == Slope(xs, ys, j)
    {
      var dx := xs[i + 1] - xs[i];
      var dy := ys[i + 1] - ys[i];
      segmentLengths := segmentLengths + [dx];
      segmentSlopes := segmentSlopes + [dy / dx];
    }
  }

  method CreateHermiteSplines(xs: seq<real>, ys: seq<real>, fit: Fit) returns (ret: seq<Spline>)
    requires DataOk(xs, ys)
    ensures |ret| == |xs| - 1
    ensures forall i :: 0 <= i < |ret| ==> ret[i] == SegmentSpline(xs, ys, fit, i)
    ensures HermiteCurve(xs, ys, fit, ret)
  {
    hide Gradient, Slope, Length, MakeSpline, SegmentSpline, HermiteCurve;
    var segmentLengths, segmentSlopes := Segments(xs, ys);
    var gradients := CreateGradients(xs, ys, fit, segmentLengths, segmentSlopes);
    ret := [];
    for i := 0 to |segmentLengths|
      invariant |ret| == i
      invariant forall j :: 0 <= j < i ==> ret[j] == SegmentSpline(xs, ys, fit, j)
    {
      var slope := segmentSlopes[i];
      var invLength := 1.0 / segmentLengths[i];
      var common := gradients[i] + gradients[i + 1] - slope - slope;
      var coef1 := common * invLength * invLength;
      var coef2 := (slope - common - gradients[i]) * invLength;
      SegmentSplineIs(xs, ys, fit, i);
      ret := ret + [Spline(xs[i], coef1, coef2, gradients[i], ys[i])];
    }
    SegmentsAreHermite(xs, ys, fit, ret);
  }

  lemma SegmentSplineIs(xs: seq<real>, ys: seq<real>, fit: Fit, i: nat)
    requires DataOk(xs, ys) && i + 1 < |xs|
    ensures var m, slope, inv := Gradient(xs, ys, fit, i), Slope(xs, ys, i), 1.0 / Length(xs, i);
            var common := m + Gradient(xs, ys, fit, i + 1) - slope - slope;
            SegmentSpline(xs, ys, fit, i) == Spline(xs[i], common * inv * inv, (slope - common - m) * inv, m, ys[i])
  {
    hide Gradient, Slope, Length;
  }

  lemma GradientAtEnds(xs: seq<real>, ys: seq<real>, fit: Fit)
    requires DataOk(xs, ys)
    ensures Gradient(xs, ys, fit, 0) == Slope(xs, ys, 0)
    ensures Gradient(xs, ys, fit, |xs| - 1) == Slope(xs, ys, |xs| - 2)
  {
  }

  lemma GradientInside(xs: seq<real>, ys: seq<real>, fit: Fit, k: nat)
    requires DataOk(xs, ys) && 0 < k < |xs| - 1
    ensures xs[k - 1] < xs[k + 1]
    ensures fit.Monotonic? ==>
              Gradient(xs, ys, fit, k) ==
                  FritschCarlson(Length(xs, k), Length(xs, k - 1), Slope(xs, ys, k), Slope(xs, ys, k - 1))
    ensures fit.Cardinal? ==>
              Gradient(xs, ys, fit, k) == fit.tension * (ys[k + 1] - ys[k - 1]) / (xs[k + 1] - xs[k - 1])
  {
    assert xs[k - 1] < xs[k] < xs[k + 1];
  }

  /** The desired gradients at the data points. */
  method CreateGradients(xs: seq<real>, ys: seq<real>, fit: Fit, lengths: seq<real>, slopes: seq<real>)
      returns (gradients: seq<real>)
    requires DataOk(xs, ys) && |lengths| == |slopes| == |xs| - 1
    requires forall j :: 0 <= j < |lengths| ==> lengths[j] == Length(xs, j) && slopes[j] == Slope(xs, ys, j)
    ensures |gradients| == |xs| && forall k :: 0 <= k < |xs| ==> gradients[k] == Gradient(xs, ys, fit, k)
  {
    hide Gradient, Slope, Length;
    GradientAtEnds(xs, ys, fit);
    gradients := [slopes[0]];
    if fit.Monotonic? {
      for i := 1 to |lengths|
        invariant |gradients| == i
        invariant forall k :: 0 <= k < i ==> gradients[k] == Gradient(xs, ys, fit, k)
      {
        GradientInside(xs, ys, fit, i);
        var slope, prevSlope := slopes[i], slopes[i - 1];
        if slope * prevSlope <= 0.0 {
          gradients := gradients + [0.0];
        } else {
          var length, prevLength := lengths[i], lengths[i - 1];
          SameSignDenominator(length, prevLength, slope, prevSlope);
          var common := length + prevLength;
          gradients := gradients + [3.0 * common / ((common + length) / prevSlope + (common + prevLength) / slope)];
        }
      }
    } else {
      for i := 1 to |xs| - 1
        invariant |gradients| == i
        invariant forall k :: 0 <= k < i ==> gradients[k] == Gradient(xs, ys, fit, k)
      {
        GradientInside(xs, ys, fit, i);
        assert xs[i - 1] < xs[i] < xs[i + 1];
        gradients := gradients + [fit.tension * (ys[i + 1] - ys[i - 1]) / (xs[i + 1] - xs[i - 1])];
      }
    }
    gradients := gradients + [slopes[|slopes| - 1]];
  }

  // ----- Fritsch-Carlson gradients are bounded by both neighbouring slopes

  lemma FritschCarlsonPositive(length: real, prevLength: real, slope: real, prev: real)
    requires length > 0.0 && prevLength > 0.0 && slope > 0.0 && prev > 0.0
    ensures 0.0 <= FritschCarlson(length, prevLength, slope, prev) <= 3.0 * slope
    ensures FritschCarlson(length, prevLength, slope, prev) <= 3.0 * prev
  {
    MulPositive(slope, prev);
    var c := length + prevLength;
    var a, b := (c + length) / prev, (c + prevLength) / slope;
    var m := 3.0 * c / (a + b);
    DivCancel(c + length, prev);
    DivCancel(c + prevLength, slope);
    DivCancel(3.0 * c, a + b);
    assert a > 0.0 && b > 0.0;
    MulNonNeg(a, slope);
    assert (a + b) * slope == a * slope + b * slope >= c;
    QuotientLe(3.0 * c, a + b, 3.0 * slope);
    MulNonNeg(b, prev);
    assert (a + b) * prev == a * prev + b * prev >= c;
    QuotientLe(3.0 * c, a + b, 3.0 * prev);
  }

  lemma MulPositive(a: real, b: real)
    requires a > 0.0 && b > 0.0
    ensures a * b > 0.0
  {
  }

  lemma QuotientLe(n: real, d: real, bound: real)
    requires d > 0.0 && n >= 0.0 && n <= d * bound
    ensures 0.0 <= n / d <= bound
  {
    DivCancel(n, d);
    CancelLe(n / d, bound, d);
    CancelLe(0.0, n / d, d);
  }

  lemma CancelLe(q: real, b: real, d: real)
    requires d > 0.0 && q * d <= b * d
    ensures q <= b
  {
  }

  lemma CancelEq(q: real, b: real, d: real)
    requires d != 0.0 && q * d == b * d
    ensures q == b
  {
  }

  lemma QuotientNegate(a: real, b: real)
    requires b != 0.0
    ensures a / (-b) == -(a / b)
  {
    DivCancel(a, b);
    DivCancel(a, -b);
    assert (a / (-b) + a / b) * b == -(a / (-b) * (-b)) + a / b * b == 0.0;
    CancelEq(a / (-b) + a / b, 0.0, b);
  }

  lemma FritschCarlsonNegate(length: real, prevLength: real, slope: real, prev: real)
    requires length > 0.0 && prevLength > 0.0
    ensures FritschCarlson(length, prevLength, -slope, -prev) == -FritschCarlson(length, prevLength, slope, prev)
  {
    assert (-slope) * (-prev) == slope * prev;
    if slope * prev > 0.0 {
      SameSignDenominator(length, prevLength, slope, prev);
      var c := length + prevLength;
      QuotientNegate(c + length, prev);
      QuotientNegate(c + prevLength, slope);
      var d := (c + length) / prev + (c + prevLength) / slope;
      QuotientNegate(3.0 * c, d);
      assert (c + length) / (-prev) + (c + prevLength) / (-slope) == -d;
    }
  }

  /** Every interior gradient is 0 at a change of sign, and otherwise between 0 and 3 times either slope. */
  lemma FritschCarlsonBounded(length: real, prevLength: real, slope: real, prev: real)
    requires length > 0.0 && prevLength > 0.0
    ensures Bounded(FritschCarlson(length, prevLength, slope, prev), slope)
    ensures Bounded(FritschCarlson(length, prevLength, slope, prev), prev)
    ensures slope * prev <= 0.0 ==> FritschCarlson(length, prevLength, slope, prev) == 0.0
  {
    if slope * prev > 0.0 {
      if slope > 0.0 {
        assert prev > 0.0;
        FritschCarlsonPositive(length, prevLength, slope, prev);
      } else {
        assert slope < 0.0 && prev < 0.0;
        FritschCarlsonPositive(length, prevLength, -slope, -prev);
        FritschCarlsonNegate(length, prevLength, slope, prev);
      }
    }
  }

  lemma GradientsBounded(xs: seq<real>, ys: seq<real>, i: nat)
    requires DataOk(xs, ys) && i + 1 < |xs|
    ensures Bounded(Gradient(xs, ys, Monotonic, i), Slope(xs, ys, i))
    ensures Bounded(Gradient(xs, ys, Monotonic, i + 1), Slope(xs, ys, i))
  {
    if 0 < i {
      FritschCarlsonBounded(Length(xs, i), Length(xs, i - 1), Slope(xs, ys, i), Slope(xs, ys, i - 1));
    }
    if i + 1 < |xs| - 1 {
      FritschCarlsonBounded(Length(xs, i + 1), Length(xs, i), Slope(xs, ys, i + 1), Slope(xs, ys, i));
    }
  }

  // ----- one segment

  lemma SplineDifference(x0: real, y0: real, m: real, m': real, slope: real, l: real, x: real, y: real)
    requires l > 0.0
    ensures var s := MakeSpline(x0, y0, m, m', slope, l);
            Eval(s, y) - Eval(s, x) == (y - x) * MeanSlope(m, m', slope, (x - x0) / l, (y - x0) / l)
  {
    var s := MakeSpline(x0, y0, m, m', slope, l);
    var d, e := x - x0, y - x0;
    var k, b := m + m' - slope - slope, slope - (m + m' - slope - slope) - m;
    CubicDifference(s.coef1, s.coef2, s.coef3, d, e);
    Normalise(k, b, d, e, l);
    MeanSlopeIs(m, m', slope, d / l, e / l);
  }

  lemma MeanSlopeIs(m0: real, m1: real, s: real, u: real, v: real)
    ensures MeanSlope(m0, m1, s, u, v) == (m0 + m1 - s - s) * P(u, v) + (s - (m0 + m1 - s - s) - m0) * (u + v) + m0
  {
  }

  /** Between two points of a segment the curve rises by the distance times the mean slope of the
      normalised cubic. */
  lemma SegmentDifference(xs: seq<real>, ys: seq<real>, fit: Fit, i: nat, x: real, y: real)
    requires DataOk(xs, ys) && i + 1 < |xs|
    ensures var s, l := SegmentSpline(xs, ys, fit, i), Length(xs, i);
            Eval(s, y) - Eval(s, x) ==
              (y - x) * MeanSlope(Gradient(xs, ys, fit, i), Gradient(xs, ys, fit, i + 1), Slope(xs, ys, i),
                  (x - xs[i]) / l, (y - xs[i]) / l)
  {
    hide Gradient, Slope, Length, MakeSpline, MeanSlope, Eval;
    SplineDifference(xs[i], ys[i], Gradient(xs, ys, fit, i), Gradient(xs, ys, fit, i + 1), Slope(xs, ys, i),
        Length(xs, i), x, y);
  }

  lemma Normalise(k: real, b: real, d: real, e: real, l: real)
    requires l > 0.0
    ensures var inv := 1.0 / l;
            k * inv * inv * P(d, e) + b * inv * (d + e) == k * P(d / l, e / l) + b * (d / l + e / l)
  {
    var inv := 1.0 / l;
    QuotientIsProduct(d, l);
    QuotientIsProduct(e, l);
    var u, v := d * inv, e * inv;
    assert u * u == d * d * (inv * inv) && u * v == d * e * (inv * inv) && v * v == e * e * (inv * inv);
    assert P(u, v) == P(d, e) * (inv * inv);
    assert k * inv * inv * P(d, e) == k * (P(d, e) * (inv * inv));
    assert b * inv * (d + e) == b * (d * inv + e * inv);
  }

  lemma QuotientIsProduct(a: real, l: real)
    requires l != 0.0
    ensures a / l == a * (1.0 / l)
  {
    DivCancel(a, l);
    DivCancel(1.0, l);
    assert a * (1.0 / l) * l == a * (1.0 / l * l);
    assert a * (1.0 / l) * l / l == a * (1.0 / l);
  }

  lemma InUnit(d: real, l: real)
    requires l > 0.0 && 0.0 <= d <= l
    ensures 0.0 <= d / l <= 1.0
  {
    QuotientLe(d, l, 1.0);
  }

  /** With `monotonicFit` the curve is monotone over the whole segment, in the direction of its data. */
  lemma SegmentMonotone(xs: seq<real>, ys: seq<real>, i: nat, x: real, y: real)
    requires DataOk(xs, ys) && i + 1 < |xs| && xs[i] <= x <= y <= xs[i + 1]
    ensures ys[i] <= ys[i + 1] ==>
              Eval(SegmentSpline(xs, ys, Monotonic, i), x) <= Eval(SegmentSpline(xs, ys, Monotonic, i), y)
    ensures ys[i] >= ys[i + 1] ==>
              Eval(SegmentSpline(xs, ys, Monotonic, i), x) >= Eval(SegmentSpline(xs, ys, Monotonic, i), y)
  {
    var l, slope := Length(xs, i), Slope(xs, ys, i);
    var m, m' := Gradient(xs, ys, Monotonic, i), Gradient(xs, ys, Monotonic, i + 1);
    var u, v := (x - xs[i]) / l, (y - xs[i]) / l;
    InUnit(x - xs[i], l);
    InUnit(y - xs[i], l);
    GradientsBounded(xs, ys, i);
    MeanSlopeSign(m, m', slope, u, v);
    SegmentDifference(xs, ys, Monotonic, i, x, y);
    var r := MeanSlope(m, m', slope, u, v);
    SlopeSign(ys[i + 1] - ys[i], l);
    if r >= 0.0 {
      MulNonNeg(y - x, r);
    }
    if r <= 0.0 {
      MulNonNeg(y - x, -r);
      assert (y - x) * (-r) == -((y - x) * r);
    }
  }

  lemma SlopeSign(dy: real, l: real)
    requires l > 0.0
    ensures dy >= 0.0 ==> dy / l >= 0.0
    ensures dy <= 0.0 ==> dy / l <= 0.0
  {
    DivCancel(dy, l);
    if dy >= 0.0 {
      CancelLe(0.0, dy / l, l);
    }
    if dy <= 0.0 {
      CancelLe(dy / l, 0.0, l);
    }
  }

  /** The curve passes through both end points of every segment. */
  lemma SegmentInterpolates(xs: seq<real>, ys: seq<real>, fit: Fit, i: nat)
    requires DataOk(xs, ys) && i + 1 < |xs|
    ensures Eval(SegmentSpline(xs, ys, fit, i), xs[i]) == ys[i]
    ensures Eval(SegmentSpline(xs, ys, fit, i), xs[i + 1]) == ys[i + 1]
  {
    hide Gradient, MakeSpline, Slope, Length, Eval;
    SegmentEnds(xs, ys, i);
    SplineEnds(xs[i], ys[i], Gradient(xs, ys, fit, i), Gradient(xs, ys, fit, i + 1), Slope(xs, ys, i), Length(xs, i));
  }

  lemma SegmentEnds(xs: seq<real>, ys: seq<real>, i: nat)
    requires DataOk(xs, ys) && i + 1 < |xs|
    ensures xs[i] + Length(xs, i) == xs[i + 1]
    ensures ys[i] + Length(xs, i) * Slope(xs, ys, i) == ys[i + 1]
  {
    DivCancel(ys[i + 1] - ys[i], Length(xs, i));
  }

  lemma SplineEnds(x0: real, y0: real, m: real, m': real, slope: real, l: real)
    requires l > 0.0
    ensures Eval(MakeSpline(x0, y0, m, m', slope, l), x0) == y0
    ensures Eval(MakeSpline(x0, y0, m, m', slope, l), x0 + l) == y0 + l * slope
  {
    SplineDifference(x0, y0, m, m', slope, l, x0, x0 + l);
    DivCancel(l, l);
    assert (x0 - x0) / l == 0.0 && (x0 + l - x0) / l == 1.0;
    assert MeanSlope(m, m', slope, 0.0, 1.0) == slope;
    CubicAtZero(MakeSpline(x0, y0, m, m', slope, l));
  }

  lemma CubicAtZero(s: Spline)
    ensures Eval(s, s.x) == s.coef4
  {
  }

  /** With `monotonicFit` no segment leaves the range of its two data values. */
  lemma SegmentInRange(xs: seq<real>, ys: seq<real>, i: nat, x: real)
    requires DataOk(xs, ys) && i + 1 < |xs| && xs[i] <= x <= xs[i + 1]
    ensures var y := Eval(SegmentSpline(xs, ys, Monotonic, i), x);
            ys[i] <= y <= ys[i + 1] || ys[i] >= y >= ys[i + 1]
  {
    SegmentInterpolates(xs, ys, Monotonic, i);
    SegmentMonotone(xs, ys, i, xs[i], x);
    SegmentMonotone(xs, ys, i, x, xs[i + 1]);
  }

  function Derivative(s: Spline, x: real): real {
    3.0 * s.coef1 * ((x - s.x) * (x - s.x)) + 2.0 * s.coef2 * (x - s.x) + s.coef3
  }

  /** The slope of the chord between the offsets `d` and `e`. */
  function Chord(s: Spline, d: real, e: real): real {
    s.coef1 * P(d, e) + s.coef2 * (d + e) + s.coef3
  }

  lemma ChordRises(s: Spline, d: real, e: real, h: real)
    requires h == e - d
    ensures Cubic(s.coef1, s.coef2, s.coef3, e) - Cubic(s.coef1, s.coef2, s.coef3, d) == h * Chord(s, d, e)
  {
    hide P, Cubic;
    CubicDifference(s.coef1, s.coef2, s.coef3, d, e);
  }

  lemma EvalRises(s: Spline, x: real, h: real)
    ensures Eval(s, x + h) - Eval(s, x) == h * Chord(s, x - s.x, x + h - s.x)
  {
    hide Cubic, Chord;
    var d, e := x - s.x, x + h - s.x;
    assert h == e - d;
    ChordRises(s, d, e, h);
    assert Eval(s, x + h) == Cubic(s.coef1, s.coef2, s.coef3, e) + s.coef4;
    assert Eval(s, x) == Cubic(s.coef1, s.coef2, s.coef3, d) + s.coef4;
  }

  lemma ChordIs(s: Spline, x: real, h: real)
    ensures Chord(s, x - s.x, x + h - s.x) ==
            Derivative(s, x) + h * (3.0 * s.coef1 * (x - s.x) + s.coef2 + s.coef1 * h)
  {
    var d, e := x - s.x, x + h - s.x;
    assert e == d + h;
    LimitAlgebra(s.coef1, s.coef2, s.coef3, d, h);
  }

  /** `Derivative` is the derivative of `Eval`: the difference quotient deviates by a multiple of the step. */
  lemma DerivativeIsLimit(s: Spline, x: real, h: real)
    ensures Eval(s, x + h) - Eval(s, x) ==
              h * (Derivative(s, x) + h * (3.0 * s.coef1 * (x - s.x) + s.coef2 + s.coef1 * h))
  {
    hide Chord, Eval, Derivative;
    EvalRises(s, x, h);
    ChordIs(s, x, h);
    var q := Derivative(s, x) + h * (3.0 * s.coef1 * (x - s.x) + s.coef2 + s.coef1 * h);
    assert h * Chord(s, x - s.x, x + h - s.x) == h * q;
  }

  lemma LimitAlgebra(c1: real, c2: real, c3: real, d: real, h: real)
    ensures c1 * P(d, d + h) + c2 * (d + (d + h)) + c3 ==
            3.0 * c1 * (d * d) + 2.0 * c2 * d + c3 + h * (3.0 * c1 * d + c2 + c1 * h)
  {
    var dd := d * d;
    assert P(d, d + h) == 3.0 * dd + h * (3.0 * d + h);
    assert c1 * (3.0 * dd + h * (3.0 * d + h)) == 3.0 * c1 * dd + h * (3.0 * c1 * d + c1 * h);
    assert c2 * (d + (d + h)) == 2.0 * c2 * d + h * c2;
    var k := 3.0 * c1 * d + c1 * h;
    assert h * k + h * c2 == h * (k + c2);
  }

  /** Each segment has the gradients it was made for at its ends; so adjacent segments have the same
      first derivative at the point they share. */
  lemma SegmentGradients(xs: seq<real>, ys: seq<real>, fit: Fit, i: nat)
    requires DataOk(xs, ys) && i + 1 < |xs|
    ensures Derivative(SegmentSpline(xs, ys, fit, i), xs[i]) == Gradient(xs, ys, fit, i)
    ensures Derivative(SegmentSpline(xs, ys, fit, i), xs[i + 1]) == Gradient(xs, ys, fit, i + 1)
  {
    hide Gradient, Slope, MakeSpline, Derivative;
    SplineGradients(xs[i], ys[i], Gradient(xs, ys, fit, i), Gradient(xs, ys, fit, i + 1), Slope(xs, ys, i),
        Length(xs, i));
    assert xs[i] + Length(xs, i) == xs[i + 1];
  }

  lemma SplineGradients(x0: real, y0: real, m: real, m': real, slope: real, l: real)
    requires l > 0.0
    ensures Derivative(MakeSpline(x0, y0, m, m', slope, l), x0) == m
    ensures Derivative(MakeSpline(x0, y0, m, m', slope, l), x0 + l) == m'
  {
    var s, inv := MakeSpline(x0, y0, m, m', slope, l), 1.0 / l;
    var k, b := m + m' - slope - slope, slope - (m + m' - slope - slope) - m;
    DivCancel(1.0, l);
    assert x0 + l - s.x == l && x0 - s.x == 0.0;
    InverseSquare(k, inv, l);
    assert 3.0 * s.coef1 * (l * l) == 3.0 * (s.coef1 * (l * l));
    assert b * inv * l == b * (inv * l);
    assert 2.0 * s.coef2 * l == 2.0 * (s.coef2 * l);
  }

  lemma InverseSquare(k: real, inv: real, l: real)
    requires inv * l == 1.0
    ensures k * inv * inv * (l * l) == k
  {
    assert inv * inv * l == inv * (inv * l) == inv;
    assert inv * inv * (l * l) == inv * inv * l * l == 1.0;
    assert k * inv * inv * (l * l) == k * (inv * inv * (l * l));
  }

  lemma CurveIsSmooth(xs: seq<real>, ys: seq<real>, fit: Fit, k: nat)
    requires DataOk(xs, ys) && 0 < k < |xs| - 1
    ensures var left, right := SegmentSpline(xs, ys, fit, k - 1), SegmentSpline(xs, ys, fit, k);
            Eval(left, xs[k]) == Eval(right, xs[k]) == ys[k] && Derivative(left, xs[k]) == Derivative(right, xs[k])
  {
    SegmentInterpolates(xs, ys, fit, k - 1);
    SegmentInterpolates(xs, ys, fit, k);
    SegmentGradients(xs, ys, fit, k - 1);
    SegmentGradients(xs, ys, fit, k);
  }

  // ----- the curve in terms of the data alone

  /** The segment passes through its two data points. */
  predicate Interpolates(xs: seq<real>, ys: seq<real>, i: nat, s: Spline)
    requires |xs| == |ys| && i + 1 < |xs|
  {
    s.x == xs[i] && Eval(s, xs[i]) == ys[i] && Eval(s, xs[i + 1]) == ys[i + 1]
  }

  /** `m` is the gradient wanted at interior point `k`. For `monotonicFit` it is 0 where the slopes change sign,
      and otherwise the weighted harmonic mean of the two slopes, in which the longer segment counts less. */
  predicate Wanted(xs: seq<real>, ys: seq<real>, fit: Fit, k: nat, m: real)
    requires DataOk(xs, ys) && 0 < k < |xs| - 1
  {
    assert xs[k - 1] < xs[k] < xs[k + 1];
    match fit
    case Monotonic =>
      var h0, h1 := xs[k] - xs[k - 1], xs[k + 1] - xs[k];
      IsMean(h0, h1, (ys[k] - ys[k - 1]) / h0, (ys[k + 1] - ys[k]) / h1, m)
    case Cardinal(tension) =>
      Rises(xs[k + 1] - xs[k - 1], tension * (ys[k + 1] - ys[k - 1]), m)
  }

  /** The mean of the slopes `d0` and `d1` over segments of lengths `h0` and `h1`. */
  predicate IsMean(h0: real, h1: real, d0: real, d1: real, m: real) {
    if d0 * d1 <= 0.0 then m == 0.0
    else m * ((h0 + 2.0 * h1) * d1 + (2.0 * h0 + h1) * d0) == 3.0 * (h0 + h1) * d0 * d1
  }

  /** The gradient `m` rises by `dy` over `dx`. */
  predicate Rises(dx: real, dy: real, m: real) {
    m * dx == dy
  }

  /** A cubic per segment through the data, whose gradients are the wanted ones at interior points from both sides,
      and the slopes of the outer segments at the two ends. */
  ghost predicate HermiteCurve(xs: seq<real>, ys: seq<real>, fit: Fit, ret: seq<Spline>)
    requires DataOk(xs, ys)
  {
    var n := |xs| - 1;
    && |ret| == n
    && (forall i :: 0 <= i < n ==> Interpolates(xs, ys, i, ret[i]))
    && (forall k :: 0 < k < n ==>
          Wanted(xs, ys, fit, k, Derivative(ret[k], xs[k])) && Wanted(xs, ys, fit, k, Derivative(ret[k - 1], xs[k])))
    && Rises(xs[1] - xs[0], ys[1] - ys[0], Derivative(ret[0], xs[0]))
    && Rises(xs[n] - xs[n - 1], ys[n] - ys[n - 1], Derivative(ret[n - 1], xs[n]))
  }

  lemma SegmentsAreHermite(xs: seq<real>, ys: seq<real>, fit: Fit, ret: seq<Spline>)
    requires DataOk(xs, ys) && |ret| == |xs| - 1
    requires forall i :: 0 <= i < |ret| ==> ret[i] == SegmentSpline(xs, ys, fit, i)
    ensures HermiteCurve(xs, ys, fit, ret)
  {
    hide Gradient, Slope, Length, Wanted, SegmentSpline, Derivative, Eval, Rises;
    var n := |xs| - 1;
    forall i | 0 <= i < n ensures Interpolates(xs, ys, i, ret[i]) {
      SegmentInterpolates(xs, ys, fit, i);
      SegmentStart(xs, ys, fit, i);
    }
    forall k | 0 < k < n
      ensures Wanted(xs, ys, fit, k, Derivative(ret[k], xs[k])) && Wanted(xs, ys, fit, k, Derivative(ret[k - 1], xs[k]))
    {
      SegmentGradients(xs, ys, fit, k);
      SegmentGradients(xs, ys, fit, k - 1);
      GradientIsWanted(xs, ys, fit, k);
    }
    GradientAtEnds(xs, ys, fit);
    SegmentGradients(xs, ys, fit, 0);
    SegmentGradients(xs, ys, fit, n - 1);
    SlopeTimesLength(xs, ys, 0);
    SlopeTimesLength(xs, ys, n - 1);
  }

  lemma SegmentStart(xs: seq<real>, ys: seq<real>, fit: Fit, i: nat)
    requires DataOk(xs, ys) && i + 1 < |xs|
    ensures SegmentSpline(xs, ys, fit, i).x == xs[i]
  {
    hide Gradient, Slope, Length;
  }

  lemma SlopeTimesLength(xs: seq<real>, ys: seq<real>, i: nat)
    requires DataOk(xs, ys) && i + 1 < |xs|
    ensures Rises(xs[i + 1] - xs[i], ys[i + 1] - ys[i], Slope(xs, ys, i))
  {
    DivCancel(ys[i + 1] - ys[i], Length(xs, i));
  }

  lemma GradientIsWanted(xs: seq<real>, ys: seq<real>, fit: Fit, k: nat)
    requires DataOk(xs, ys) && 0 < k < |xs| - 1
    ensures Wanted(xs, ys, fit, k, Gradient(xs, ys, fit, k))
  {
    hide FritschCarlson, Gradient, IsMean;
    GradientInside(xs, ys, fit, k);
    match fit
    case Monotonic =>
      HarmonicMean(Length(xs, k), Length(xs, k - 1), Slope(xs, ys, k), Slope(xs, ys, k - 1));
    case Cardinal(tension) =>
      DivCancel(tension * (ys[k + 1] - ys[k - 1]), xs[k + 1] - xs[k - 1]);
  }

  lemma HarmonicMean(h1: real, h0: real, d1: real, d0: real)
    requires h0 > 0.0 && h1 > 0.0
    ensures IsMean(h0, h1, d0, d1, FritschCarlson(h1, h0, d1, d0))
  {
    if d0 * d1 > 0.0 {
      SameSignDenominator(h1, h0, d1, d0);
      var c := h1 + h0;
      var a, b := (c + h1) / d0, (c + h0) / d1;
      var m := 3.0 * c / (a + b);
      DivCancel(c + h1, d0);
      DivCancel(c + h0, d1);
      DivCancel(3.0 * c, a + b);
      HarmonicAlgebra(m, a, b, c, c + h1, c + h0, d0, d1);
      assert c + h1 == h0 + 2.0 * h1 && c + h0 == 2.0 * h0 + h1;
    }
  }

  lemma HarmonicAlgebra(m: real, a: real, b: real, c: real, p: real, q: real, d0: real, d1: real)
    requires a * d0 == p && b * d1 == q && m * (a + b) == 3.0 * c
    ensures m * (p * d1 + q * d0) == 3.0 * c * d0 * d1
  {
    var d := d0 * d1;
    assert p * d1 == a * d by {
      assert a * d0 * d1 == a * d;
    }
    assert q * d0 == b * d by {
      assert b * d1 * d0 == b * (d1 * d0);
    }
    assert a * d + b * d == (a + b) * d;
    assert m * ((a + b) * d) == m * (a + b) * d;
    assert 3.0 * c * d == 3.0 * c * d0 * d1;
  }

  /** A cubic is determined by its values and gradients at two points, so `HermiteCurve` determines the curve. */
  lemma CubicDetermined(s: Spline, t: Spline, x: real)
    requires s.x == t.x < x
    requires Eval(s, s.x) == Eval(t, s.x) && Eval(s, x) == Eval(t, x)
    requires Derivative(s, s.x) == Derivative(t, s.x) && Derivative(s, x) == Derivative(t, x)
    ensures s == t
  {
    hide Eval, Derivative;
    var h := x - s.x;
    CubicAtZero(s);
    CubicAtZero(t);
    DerivativeAtZero(s);
    DerivativeAtZero(t);
    DeterminedBy(s, t, x, h, h * h, h * (h * h));
  }

  lemma DerivativeAtZero(s: Spline)
    ensures Derivative(s, s.x) == s.coef3
  {
  }

  lemma DeterminedBy(s: Spline, t: Spline, x: real, h: real, h2: real, h3: real)
    requires s.x == t.x && s.coef3 == t.coef3 && s.coef4 == t.coef4
    requires Eval(s, x) == Eval(t, x) && Derivative(s, x) == Derivative(t, x)
    requires h == x - s.x > 0.0 && h2 == h * h && h3 == h * h2
    ensures s == t
  {
    hide Eval, Derivative;
    ProductPositive(h, h, h2);
    CubicParts(s, x, h, h2, h3);
    CubicParts(t, x, h, h2, h3);
    Difference(s.coef1, t.coef1, s.coef2, t.coef2, h, h2, h3);
    TwoEquations(s.coef1 - t.coef1, s.coef2 - t.coef2, h, h2, h3);
  }

  lemma Difference(p: real, q: real, r: real, t: real, h: real, h2: real, h3: real)
    requires p * h3 + r * h2 == q * h3 + t * h2
    requires 3.0 * p * h2 + 2.0 * r * h == 3.0 * q * h2 + 2.0 * t * h
    ensures (p - q) * h3 + (r - t) * h2 == 0.0 && 3.0 * (p - q) * h2 + 2.0 * (r - t) * h == 0.0
  {
  }

  lemma CubicParts(s: Spline, x: real, h: real, h2: real, h3: real)
    requires h == x - s.x && h2 == h * h && h3 == h * h2
    ensures Eval(s, x) == s.coef1 * h3 + s.coef2 * h2 + s.coef3 * h + s.coef4
    ensures Derivative(s, x) == 3.0 * s.coef1 * h2 + 2.0 * s.coef2 * h + s.coef3
  {
    assert s.coef1 * h * h2 == s.coef1 * (h * h2);
  }

  lemma TwoEquations(a: real, b: real, h: real, h2: real, h3: real)
    requires h != 0.0 && h2 > 0.0 && h2 == h * h && h3 == h * h2
    requires a * h3 + b * h2 == 0.0 && 3.0 * a * h2 + 2.0 * b * h == 0.0
    ensures a == 0.0 && b == 0.0
  {
    assert a * h * h2 == a * (h * h2);
    assert a * h * h == a * (h * h);
    var u := a * h;
    Distribute(u, b, h2);
    assert (3.0 * u + 2.0 * b) * h == 3.0 * (u * h) + 2.0 * b * h;
    Eliminate(u, b, h, h2);
    CancelZero(a, h);
  }

  lemma Distribute(x: real, y: real, z: real)
    ensures (x + y) * z == x * z + y * z
  {
  }

  lemma Eliminate(u: real, b: real, h: real, h2: real)
    requires h != 0.0 && h2 > 0.0 && (u + b) * h2 == 0.0 && (3.0 * u + 2.0 * b) * h == 0.0
    ensures u == 0.0 && b == 0.0
  {
    CancelZero(u + b, h2);
    CancelZero(3.0 * u + 2.0 * b, h);
  }

  lemma CancelZero(x: real, y: real)
    requires x * y == 0.0 && y != 0.0
    ensures x == 0.0
  {
  }

  /** The data lie on a straight line. */
  predicate OnLine(xs: seq<real>, ys: seq<real>, a: real, b: real) {
    |xs| == |ys| && forall k :: 0 <= k < |xs| ==> ys[k] == a * xs[k] + b
  }

  /** Data on a straight line are reproduced, by the monotone fit and by a cardinal spline of tension 1. */
  lemma LineIsReproduced(xs: seq<real>, ys: seq<real>, fit: Fit, a: real, b: real, ret: seq<Spline>, i: nat, x: real)
    requires DataOk(xs, ys) && OnLine(xs, ys, a, b) && HermiteCurve(xs, ys, fit, ret) && i < |ret|
    requires fit.Cardinal? ==> fit.tension == 1.0
    ensures Eval(ret[i], x) == a * x + b
  {
    hide Eval, Derivative, OnLine, HermiteCurve;
    SegmentMeets(xs, ys, fit, ret, i);
    OnLineAt(xs, ys, a, b, i);
    OnLineAt(xs, ys, a, b, i + 1);
    LineGradient(xs, ys, fit, a, b, ret, i);
    LineSegment(ret[i], xs[i], xs[i + 1], a, b, x);
  }

  lemma OnLineAt(xs: seq<real>, ys: seq<real>, a: real, b: real, k: nat)
    requires OnLine(xs, ys, a, b) && k < |xs|
    ensures |xs| == |ys| && ys[k] == a * xs[k] + b
  {
  }

  lemma SegmentMeets(xs: seq<real>, ys: seq<real>, fit: Fit, ret: seq<Spline>, i: nat)
    requires DataOk(xs, ys) && HermiteCurve(xs, ys, fit, ret) && i < |ret|
    ensures |ret| == |xs| - 1 && xs[i] < xs[i + 1] && ret[i].x == xs[i]
    ensures Eval(ret[i], xs[i]) == ys[i] && Eval(ret[i], xs[i + 1]) == ys[i + 1]
  {
    hide Eval, Derivative, Wanted, Rises;
    assert Interpolates(xs, ys, i, ret[i]);
  }

  lemma LineSegment(s: Spline, x0: real, x1: real, a: real, b: real, x: real)
    requires s.x == x0 < x1 && Eval(s, x0) == a * x0 + b && Eval(s, x1) == a * x1 + b
    requires Derivative(s, x0) == a == Derivative(s, x1)
    ensures Eval(s, x) == a * x + b
  {
    hide Eval, Derivative;
    var line := Spline(x0, 0.0, 0.0, a, a * x0 + b);
    LineValues(line, x, a, b);
    LineValues(line, x0, a, b);
    LineValues(line, x1, a, b);
    CubicDetermined(s, line, x1);
  }

  lemma LineValues(line: Spline, x: real, a: real, b: real)
    requires line == Spline(line.x, 0.0, 0.0, a, a * line.x + b)
    ensures Eval(line, x) == a * x + b && Derivative(line, x) == a
  {
    assert a * (x - line.x) == a * x - a * line.x;
  }

  lemma LineGradient(xs: seq<real>, ys: seq<real>, fit: Fit, a: real, b: real, ret: seq<Spline>, i: nat)
    requires DataOk(xs, ys) && OnLine(xs, ys, a, b) && HermiteCurve(xs, ys, fit, ret) && i < |ret|
    requires fit.Cardinal? ==> fit.tension == 1.0
    ensures Derivative(ret[i], xs[i]) == a && Derivative(ret[i], xs[i + 1]) == a
  {
    hide Eval, Derivative, Wanted, Rises;
    var n := |xs| - 1;
    if i == 0 {
      LineRise(xs, ys, a, b, 0, 1, Derivative(ret[0], xs[0]));
    } else {
      LineWanted(xs, ys, fit, a, b, i, Derivative(ret[i], xs[i]));
    }
    if i + 1 == n {
      LineRise(xs, ys, a, b, n - 1, n, Derivative(ret[n - 1], xs[n]));
    } else {
      LineWanted(xs, ys, fit, a, b, i + 1, Derivative(ret[i], xs[i + 1]));
    }
  }

  lemma LineRise(xs: seq<real>, ys: seq<real>, a: real, b: real, j: nat, k: nat, m: real)
    requires OnLine(xs, ys, a, b) && j < |xs| && k < |xs| && xs[j] < xs[k]
    requires Rises(xs[k] - xs[j], ys[k] - ys[j], m)
    ensures m == a
  {
    var dx := xs[k] - xs[j];
    OnLineAt(xs, ys, a, b, j);
    OnLineAt(xs, ys, a, b, k);
    assert ys[k] - ys[j] == a * dx;
    assert (m - a) * dx == m * dx - a * dx;
    CancelZero(m - a, dx);
  }

  lemma LineWanted(xs: seq<real>, ys: seq<real>, fit: Fit, a: real, b: real, k: nat, m: real)
    requires DataOk(xs, ys) && OnLine(xs, ys, a, b) && 0 < k < |xs| - 1 && Wanted(xs, ys, fit, k, m)
    requires fit.Cardinal? ==> fit.tension == 1.0
    ensures m == a
  {
    hide IsMean, Rises, OnLine;
    assert xs[k - 1] < xs[k] < xs[k + 1];
    match fit
    case Cardinal(tension) =>
      UnitTension(xs, ys, k, m);
      LineRise(xs, ys, a, b, k - 1, k + 1, m);
    case Monotonic =>
      var h0, h1 := xs[k] - xs[k - 1], xs[k + 1] - xs[k];
      var d0, d1 := (ys[k] - ys[k - 1]) / h0, (ys[k + 1] - ys[k]) / h1;
      QuotientRises(h0, ys[k] - ys[k - 1]);
      QuotientRises(h1, ys[k + 1] - ys[k]);
      LineRise(xs, ys, a, b, k - 1, k, d0);
      LineRise(xs, ys, a, b, k, k + 1, d1);
      LineMean(h0, h1, a, m);
  }

  lemma UnitTension(xs: seq<real>, ys: seq<real>, k: nat, m: real)
    requires DataOk(xs, ys) && 0 < k < |xs| - 1 && Wanted(xs, ys, Cardinal(1.0), k, m)
    ensures Rises(xs[k + 1] - xs[k - 1], ys[k + 1] - ys[k - 1], m)
  {
    assert 1.0 * (ys[k + 1] - ys[k - 1]) == ys[k + 1] - ys[k - 1];
  }

  lemma QuotientRises(dx: real, dy: real)
    requires dx > 0.0
    ensures Rises(dx, dy, dy / dx)
  {
    DivCancel(dy, dx);
  }

  lemma LineMean(h0: real, h1: real, a: real, m: real)
    requires h0 > 0.0 && h1 > 0.0
    requires IsMean(h0, h1, a, a, m)
    ensures m == a
  {
    if a == 0.0 {
      assert a * a == 0.0;
    } else {
      CancelNonZero(a);
      var w := 3.0 * (h0 + h1) * a;
      assert (h0 + 2.0 * h1) * a + (2.0 * h0 + h1) * a == w;
      assert (m - a) * w == 0.0 by {
        assert a * w == 3.0 * (h0 + h1) * a * a;
      }
      CancelNonZeroProduct(3.0 * (h0 + h1), a);
      CancelZero(m - a, w);
    }
  }

  lemma ProductPositive(a: real, b: real, product: real)
    requires a > 0.0 && b > 0.0 && product == a * b
    ensures product > 0.0
  {
  }

  lemma CancelNonZero(a: real)
    requires a != 0.0
    ensures a * a > 0.0
  {
    CancelNonZeroProduct(a, a);
    SquareNonNeg(a);
  }

  lemma CancelNonZeroProduct(x: real, y: real)
    requires x != 0.0 && y != 0.0
    ensures x * y != 0.0
  {
    if x * y == 0.0 {
      CancelZero(x, y);
    }
  }
}
