/** Sampling the Hermite curve. */
module CurveSampling {
  import opened CubicMath
  import opened HermiteSplines

  type Point = (real, real)

  function SampleStep(xs: seq<real>, n: nat, i: nat): (r: real)
    requires Increasing(xs) && i + 1 < |xs| && n > 0
    ensures r > 0.0
  {
    StepPositive(Length(xs, i), n);
    Length(xs, i) / n as real
  }

  lemma StepPositive(l: real, n: nat)
    requires l > 0.0 && n > 0
    ensures l / n as real > 0.0
  {
    DivCancel(l, n as real);
    CancelPositive(l / n as real, n as real);
  }

  lemma CancelPositive(q: real, d: real)
    requires d > 0.0 && q * d > 0.0
    ensures q > 0.0
  {
  }

  function SampleX(xs: seq<real>, n: nat, i: nat, j: nat): real
    requires Increasing(xs) && i + 1 < |xs| && n > 0
  {
    xs[i] + j as real * SampleStep(xs, n, i)
  }

  function SamplePoint(xs: seq<real>, ys: seq<real>, fit: Fit, n: nat, i: nat, j: nat): Point
    requires DataOk(xs, ys) && i + 1 < |xs| && n > 0
  {
    if j == 0 then (xs[i], ys[i])
    else (SampleX(xs, n, i, j), Eval(SegmentSpline(xs, ys, fit, i), SampleX(xs, n, i, j)))
  }

  /** The first `j` samples of segment `i`: the data point and points at equal distances. */
  function SegmentSamples(xs: seq<real>, ys: seq<real>, fit: Fit, n: nat, i: nat, j: nat): (r: seq<Point>)
    requires DataOk(xs, ys) && i + 1 < |xs| && n > 0
    ensures |r| == j && forall k :: 0 <= k < j ==> r[k] == SamplePoint(xs, ys, fit, n, i, k)
  {
    seq(j, k requires 0 <= k < j => SamplePoint(xs, ys, fit, n, i, k))
  }

  function SamplesBefore(xs: seq<real>, ys: seq<real>, fit: Fit, n: nat, m: nat): (r: seq<Point>)
    requires DataOk(xs, ys) && m < |xs| && n > 0
    ensures |r| == m * n
  {
    if m == 0 then []
    else SamplesBefore(xs, ys, fit, n, m - 1) + SegmentSamples(xs, ys, fit, n, m - 1, n)
  }

  /** `n` samples per segment, then the last data point. */
  function Samples(xs: seq<real>, ys: seq<real>, fit: Fit, n: nat): seq<Point>
    requires DataOk(xs, ys) && n > 0
  {
    SamplesBefore(xs, ys, fit, n, |xs| - 1) + [(xs[|xs| - 1], ys[|xs| - 1])]
  }

  /** Adding steps stays below the end of the segment exactly for the first `n` samples. */
  lemma SampleBelow(xs: seq<real>, n: nat, i: nat, j: nat)
    requires Increasing(xs) && i + 1 < |xs| && n > 0
    ensures j < n <==> SampleX(xs, n, i, j) < xs[i + 1]
    ensures SampleX(xs, n, i, j) >= xs[i]
    ensures SampleX(xs, n, i, j + 1) == SampleX(xs, n, i, j) + SampleStep(xs, n, i)
  {
    var s := SampleStep(xs, n, i);
    DivCancel(Length(xs, i), n as real);
    assert (j + 1) as real * s == j as real * s + s;
    MulNonNeg(j as real, s);
    var gap := (n - j) as real;
    assert n as real * s == j as real * s + gap * s;
    if j < n {
      MulPositive(gap, s);
    } else {
      MulNonNeg(-gap, s);
      assert -gap * s == -(gap * s);
    }
  }

  method CalculateSplineCurvePoints(xs: seq<real>, ys: seq<real>, fit: Fit, n: nat) returns (result: seq<Point>)
    requires DataOk(xs, ys) && n > 0
    ensures result == Samples(xs, ys, fit, n)
  {
    hide SegmentSpline, Eval, SampleX, SampleStep, HermiteCurve;
    var splines := CreateHermiteSplines(xs, ys, fit);
    result := [];
    for i := 0 to |xs| - 1
      invariant result == SamplesBefore(xs, ys, fit, n, i)
    {
      var xEnd := xs[i + 1];
      var xStep := (xEnd - xs[i]) / n as real;
      result := result + [(xs[i], ys[i])];
      FirstSample(xs, n, i, xStep);
      ghost var j := 1;
      var x := xs[i] + xStep;
      while x < xEnd
        invariant 1 <= j <= n && x == SampleX(xs, n, i, j)
        invariant result == SamplesBefore(xs, ys, fit, n, i) + SegmentSamples(xs, ys, fit, n, i, j)
        decreases n - j
      {
        SampleBelow(xs, n, i, j);
        result := result + [(x, Eval(splines[i], x))];
        x := x + xStep;
        j := j + 1;
      }
      SampleBelow(xs, n, i, j);
    }
    result := result + [(xs[|xs| - 1], ys[|xs| - 1])];
  }

  lemma FirstSample(xs: seq<real>, n: nat, i: nat, xStep: real)
    requires Increasing(xs) && i + 1 < |xs| && n > 0 && xStep == (xs[i + 1] - xs[i]) / n as real
    ensures xStep == SampleStep(xs, n, i) && SampleX(xs, n, i, 1) == xs[i] + xStep
  {
  }

  // ----- what the samples are

  lemma SamplePointIs(xs: seq<real>, ys: seq<real>, fit: Fit, n: nat, i: nat, j: nat)
    requires DataOk(xs, ys) && i + 1 < |xs| && n > 0
    ensures SamplePoint(xs, ys, fit, n, i, j) ==
              (SampleX(xs, n, i, j), Eval(SegmentSpline(xs, ys, fit, i), SampleX(xs, n, i, j)))
  {
    if j == 0 {
      SegmentInterpolates(xs, ys, fit, i);
      assert 0.0 * SampleStep(xs, n, i) == 0.0;
    }
  }

  lemma {:induction false} SamplesAt(xs: seq<real>, ys: seq<real>, fit: Fit, n: nat, m: nat, i: nat, j: nat)
    requires DataOk(xs, ys) && i < m < |xs| && j < n
    ensures i * n + j < m * n
    ensures SamplesBefore(xs, ys, fit, n, m)[i * n + j] == SamplePoint(xs, ys, fit, n, i, j)
  {
    hide SamplePoint;
    assert (i + 1) * n == i * n + n && (m - 1) * n + n == m * n;
    if i < m - 1 {
      SamplesAt(xs, ys, fit, n, m - 1, i, j);
    }
  }

  lemma SampleAtIndex(xs: seq<real>, ys: seq<real>, fit: Fit, n: nat, i: nat, j: nat)
    requires DataOk(xs, ys) && i + 1 < |xs| && j < n
    ensures |Samples(xs, ys, fit, n)| == (|xs| - 1) * n + 1
    ensures i * n + j < (|xs| - 1) * n
    ensures Samples(xs, ys, fit, n)[i * n + j] == SamplePoint(xs, ys, fit, n, i, j)
    ensures Samples(xs, ys, fit, n)[(|xs| - 1) * n] == (xs[|xs| - 1], ys[|xs| - 1])
  {
    hide SegmentSpline, Eval, SampleX, SampleStep, SamplePoint;
    SamplesAt(xs, ys, fit, n, |xs| - 1, i, j);
  }

  /** Exactly `n` points per segment plus one; sample `i * n + j` is the curve of segment `i` after `j`
      of `n` equal steps, and every data point is among them. */
  lemma SamplesShape(xs: seq<real>, ys: seq<real>, fit: Fit, n: nat, i: nat, j: nat)
    requires DataOk(xs, ys) && i + 1 < |xs| && j < n
    ensures |Samples(xs, ys, fit, n)| == (|xs| - 1) * n + 1
    ensures i * n + j < (|xs| - 1) * n
    ensures var p := Samples(xs, ys, fit, n)[i * n + j];
            && (p.0 - xs[i]) * n as real == j as real * (xs[i + 1] - xs[i])
            && p.1 == Eval(SegmentSpline(xs, ys, fit, i), p.0)
            && (j == 0 ==> p == (xs[i], ys[i]))
    ensures Samples(xs, ys, fit, n)[(|xs| - 1) * n] == (xs[|xs| - 1], ys[|xs| - 1])
  {
    hide SegmentSpline, Eval, SampleX, SampleStep, Samples;
    SampleAtIndex(xs, ys, fit, n, i, j);
    SamplePointIs(xs, ys, fit, n, i, j);
    SampleXIs(xs, n, i, j);
  }

  lemma SampleXIs(xs: seq<real>, n: nat, i: nat, j: nat)
    requires Increasing(xs) && i + 1 < |xs| && n > 0
    ensures (SampleX(xs, n, i, j) - xs[i]) * n as real == j as real * (xs[i + 1] - xs[i])
  {
    var s := SampleStep(xs, n, i);
    DivCancel(Length(xs, i), n as real);
    assert j as real * s * n as real == j as real * (s * n as real);
  }

  lemma {:induction false} SamplesIncreaseBefore(xs: seq<real>, ys: seq<real>, fit: Fit, n: nat, m: nat)
    requires DataOk(xs, ys) && m < |xs| && n > 0
    ensures forall k :: 0 <= k < m * n ==> SamplesBefore(xs, ys, fit, n, m)[k].0 < xs[m]
    ensures forall k :: 0 <= k < m * n - 1 ==>
              SamplesBefore(xs, ys, fit, n, m)[k].0 < SamplesBefore(xs, ys, fit, n, m)[k + 1].0
  {
    if m > 0 {
      SamplesIncreaseBefore(xs, ys, fit, n, m - 1);
      var before, segment := SamplesBefore(xs, ys, fit, n, m - 1), SegmentSamples(xs, ys, fit, n, m - 1, n);
      forall j: nat | j < n
        ensures segment[j].0 == SampleX(xs, n, m - 1, j) < xs[m]
        ensures SampleX(xs, n, m - 1, j) < SampleX(xs, n, m - 1, j + 1)
      {
        SamplePointIs(xs, ys, fit, n, m - 1, j);
        SampleBelow(xs, n, m - 1, j);
      }
      assert segment[0].0 == xs[m - 1];
      IncreaseConcat(before, segment, xs[m - 1], xs[m]);
    }
  }

  lemma IncreaseConcat(a: seq<Point>, b: seq<Point>, mid: real, end: real)
    requires b != [] && b[0].0 == mid < end
    requires forall k :: 0 <= k < |a| ==> a[k].0 < mid
    requires forall k :: 0 <= k < |a| - 1 ==> a[k].0 < a[k + 1].0
    requires forall k :: 0 <= k < |b| ==> b[k].0 < end
    requires forall k :: 0 <= k < |b| - 1 ==> b[k].0 < b[k + 1].0
    ensures forall k :: 0 <= k < |a + b| ==> (a + b)[k].0 < end
    ensures forall k :: 0 <= k < |a + b| - 1 ==> (a + b)[k].0 < (a + b)[k + 1].0
  {
  }

  /** The samples have strictly increasing x. */
  lemma SamplesIncrease(xs: seq<real>, ys: seq<real>, fit: Fit, n: nat)
    requires DataOk(xs, ys) && n > 0
    ensures forall k :: 0 <= k < |Samples(xs, ys, fit, n)| - 1 ==>
              Samples(xs, ys, fit, n)[k].0 < Samples(xs, ys, fit, n)[k + 1].0
  {
    SamplesIncreaseBefore(xs, ys, fit, n, |xs| - 1);
  }

  predicate Nondecreasing(ys: seq<real>) {
    forall i :: 0 <= i < |ys| - 1 ==> ys[i] <= ys[i + 1]
  }

  lemma {:induction false} SamplesMonotoneBefore(xs: seq<real>, ys: seq<real>, n: nat, m: nat)
    requires DataOk(xs, ys) && m < |xs| && n > 0 && Nondecreasing(ys)
    ensures forall k :: 0 <= k < m * n ==> SamplesBefore(xs, ys, Monotonic, n, m)[k].1 <= ys[m]
    ensures forall k :: 0 <= k < m * n - 1 ==>
              SamplesBefore(xs, ys, Monotonic, n, m)[k].1 <= SamplesBefore(xs, ys, Monotonic, n, m)[k + 1].1
  {
    if m > 0 {
      SamplesMonotoneBefore(xs, ys, n, m - 1);
      var i := m - 1;
      var before, segment := SamplesBefore(xs, ys, Monotonic, n, i), SegmentSamples(xs, ys, Monotonic, n, i, n);
      forall j: nat | j < n
        ensures segment[j].1 <= ys[m] && (j + 1 < n ==> segment[j].1 <= segment[j + 1].1)
      {
        SegmentSampleRises(xs, ys, n, i, j);
      }
      assert segment[0].1 == ys[i];
      NondecreasingConcat(before, segment, ys[i], ys[m]);
    }
  }

  lemma SegmentSampleRises(xs: seq<real>, ys: seq<real>, n: nat, i: nat, j: nat)
    requires DataOk(xs, ys) && i + 1 < |xs| && j < n && ys[i] <= ys[i + 1]
    ensures SamplePoint(xs, ys, Monotonic, n, i, j).1 <= ys[i + 1]
    ensures j + 1 < n ==> SamplePoint(xs, ys, Monotonic, n, i, j).1 <= SamplePoint(xs, ys, Monotonic, n, i, j + 1).1
  {
    hide SegmentSpline, Eval, SampleX, SampleStep;
    var x := SampleX(xs, n, i, j);
    SamplePointIs(xs, ys, Monotonic, n, i, j);
    SampleBelow(xs, n, i, j);
    SegmentInterpolates(xs, ys, Monotonic, i);
    SegmentMonotone(xs, ys, i, x, xs[i + 1]);
    if j + 1 < n {
      SamplePointIs(xs, ys, Monotonic, n, i, j + 1);
      SampleBelow(xs, n, i, j + 1);
      SegmentMonotone(xs, ys, i, x, SampleX(xs, n, i, j + 1));
    }
  }

  lemma NondecreasingConcat(a: seq<Point>, b: seq<Point>, mid: real, end: real)
    requires b != [] && b[0].1 == mid <= end
    requires forall k :: 0 <= k < |a| ==> a[k].1 <= mid
    requires forall k :: 0 <= k < |a| - 1 ==> a[k].1 <= a[k + 1].1
    requires forall k :: 0 <= k < |b| ==> b[k].1 <= end
    requires forall k :: 0 <= k < |b| - 1 ==> b[k].1 <= b[k + 1].1
    ensures forall k :: 0 <= k < |a + b| ==> (a + b)[k].1 <= end
    ensures forall k :: 0 <= k < |a + b| - 1 ==> (a + b)[k].1 <= (a + b)[k + 1].1
  {
  }

  /** With `monotonicFit`, a nondecreasing data set yields nondecreasing samples. */
  lemma SamplesMonotone(xs: seq<real>, ys: seq<real>, n: nat)
    requires DataOk(xs, ys) && n > 0 && Nondecreasing(ys)
    ensures forall k :: 0 <= k < |Samples(xs, ys, Monotonic, n)| - 1 ==>
              Samples(xs, ys, Monotonic, n)[k].1 <= Samples(xs, ys, Monotonic, n)[k + 1].1
  {
    SamplesMonotoneBefore(xs, ys, n, |xs| - 1);
  }
}
