/** The fill: a top and a bottom curve merged into one list of points. */
module FillMerge {
  import opened Wrappers
  import opened HermiteSplines
  import opened CurveSampling
  import opened LegacyCurve

  /** One point of the merged curve; a value is missing where that curve has no earlier point. */
  datatype Merged = Merged(x: real, top: Option<real>, bottom: Option<real>)

  predicate XIncreasing(c: seq<Point>) {
    forall k :: 0 <= k < |c| - 1 ==> c[k].0 < c[k + 1].0
  }

  lemma {:induction false} SortedEnd(c: seq<Point>, i: nat)
    requires XIncreasing(c) && i < |c|
    ensures c[i].0 <= c[|c| - 1].0 && (i < |c| - 1 ==> c[i].0 < c[|c| - 1].0)
    decreases |c| - i
  {
    if i < |c| - 1 {
      SortedEnd(c, i + 1);
    }
  }

  // ----- when the loop ends

  /** One iteration on the two indices. A comparison with a point that does not exist is false, so past the end
      of either curve the bottom index advances. */
  function Next(top: seq<Point>, bottom: seq<Point>, i: nat, j: nat): (nat, nat) {
    if i < |top| && j < |bottom| && top[i].0 == bottom[j].0 then (i + 1, j + 1)
    else if i < |top| && j < |bottom| && top[i].0 < bottom[j].0 then (i + 1, j)
    else (i, j + 1)
  }

  predicate Running(top: seq<Point>, bottom: seq<Point>, i: nat, j: nat) {
    i < |top| || j < |bottom|
  }

  /** The loop that starts at `i` and `j` ends within `n` iterations. */
  predicate EndsWithin(top: seq<Point>, bottom: seq<Point>, i: nat, j: nat, n: nat)
    decreases n
  {
    !Running(top, bottom, i, j) ||
    (n > 0 && EndsWithin(top, bottom, Next(top, bottom, i, j).0, Next(top, bottom, i, j).1, n - 1))
  }

  ghost predicate Ends(top: seq<Point>, bottom: seq<Point>) {
    exists n :: EndsWithin(top, bottom, 0, 0, n)
  }

  /** The bottom curve reaches at least as far as the top one. */
  predicate Reaches(top: seq<Point>, bottom: seq<Point>) {
    top == [] || (bottom != [] && top[|top| - 1].0 <= bottom[|bottom| - 1].0)
  }

  /** With the bottom curve exhausted before the top one, the loop never ends. */
  lemma {:induction false} ExhaustedRunsOn(top: seq<Point>, bottom: seq<Point>, i: nat, j: nat, n: nat)
    requires i < |top| && j >= |bottom|
    ensures !EndsWithin(top, bottom, i, j, n)
    decreases n
  {
    if n > 0 {
      ExhaustedRunsOn(top, bottom, i, j + 1, n - 1);
    }
  }

  /** While both curves last, a longer top curve stays ahead. */
  lemma {:induction false} LongerRunsOn(top: seq<Point>, bottom: seq<Point>, i: nat, j: nat, n: nat)
    requires XIncreasing(top) && XIncreasing(bottom) && i < |top| && j <= |bottom|
    requires bottom != [] ==> bottom[|bottom| - 1].0 < top[|top| - 1].0
    ensures !EndsWithin(top, bottom, i, j, n)
    decreases n
  {
    if j == |bottom| {
      ExhaustedRunsOn(top, bottom, i, j, n);
    } else if n > 0 {
      SortedEnd(top, i);
      SortedEnd(bottom, j);
      LongerRunsOn(top, bottom, Next(top, bottom, i, j).0, Next(top, bottom, i, j).1, n - 1);
    }
  }

  lemma {:induction false} ReachingEnds(top: seq<Point>, bottom: seq<Point>, i: nat, j: nat)
    requires XIncreasing(top) && XIncreasing(bottom) && Reaches(top, bottom)
    requires i <= |top| && j <= |bottom| && (i == |top| || j < |bottom|)
    ensures EndsWithin(top, bottom, i, j, |top| - i + |bottom| - j)
    decreases |top| - i + |bottom| - j
  {
    if Running(top, bottom, i, j) {
      NextStays(top, bottom, i, j);
      var (i', j') := Next(top, bottom, i, j);
      ReachingEnds(top, bottom, i', j');
      EndsLater(top, bottom, i', j', |top| - i' + |bottom| - j', |top| - i + |bottom| - j - 1);
    }
  }

  lemma {:induction false} EndsLater(top: seq<Point>, bottom: seq<Point>, i: nat, j: nat, m: nat, n: nat)
    requires EndsWithin(top, bottom, i, j, m) && m <= n
    ensures EndsWithin(top, bottom, i, j, n)
    decreases m
  {
    if Running(top, bottom, i, j) {
      EndsLater(top, bottom, Next(top, bottom, i, j).0, Next(top, bottom, i, j).1, m - 1, n - 1);
    }
  }

  /** The bottom curve is never exhausted first. */
  lemma NextStays(top: seq<Point>, bottom: seq<Point>, i: nat, j: nat)
    requires XIncreasing(top) && XIncreasing(bottom) && Reaches(top, bottom)
    requires i <= |top| && j < |bottom|
    ensures var (i', j') := Next(top, bottom, i, j);
            i' <= |top| && j' <= |bottom| && (i' == |top| || j' < |bottom|) && i + j < i' + j'
  {
    hide XIncreasing;
    SortedEnd(bottom, j);
    if i < |top| {
      SortedEnd(top, i);
    }
  }

  /** The loop ends exactly if the bottom curve reaches at least as far as the top one. */
  lemma MergeEndsIff(top: seq<Point>, bottom: seq<Point>)
    requires XIncreasing(top) && XIncreasing(bottom)
    ensures Ends(top, bottom) <==> Reaches(top, bottom)
  {
    if Reaches(top, bottom) {
      ReachingEnds(top, bottom, 0, 0);
    } else {
      forall n: nat ensures !EndsWithin(top, bottom, 0, 0, n) {
        LongerRunsOn(top, bottom, 0, 0, n);
      }
    }
  }

  // ----- the merge

  /** The point an iteration produces, after `last`. */
  function NextPoint(top: seq<Point>, bottom: seq<Point>, i: nat, j: nat, last: Merged): Merged
    requires j < |bottom|
  {
    if i < |top| && top[i].0 == bottom[j].0 then Merged(top[i].0, Some(top[i].1), Some(bottom[j].1))
    else if i < |top| && top[i].0 < bottom[j].0 then Merged(top[i].0, Some(top[i].1), last.bottom)
    else Merged(bottom[j].0, last.top, Some(bottom[j].1))
  }

  /** The merge from indices `i` and `j` on; `last` is the point produced before. */
  function Merge(top: seq<Point>, bottom: seq<Point>, i: nat, j: nat, last: Merged): seq<Merged>
    requires i <= |top| && j <= |bottom|
    decreases |top| - i + |bottom| - j
  {
    if j == |bottom| then []
    else
      var p := NextPoint(top, bottom, i, j, last);
      [p] + Merge(top, bottom, Next(top, bottom, i, j).0, Next(top, bottom, i, j).1, p)
  }

  const NOTHING := Merged(0.0, None, None)

  /** The merge loop, for curves on which it ends. */
  method MergeCurves(top: seq<Point>, bottom: seq<Point>) returns (points: seq<Merged>)
    requires XIncreasing(top) && XIncreasing(bottom) && Reaches(top, bottom)
    ensures points == Merge(top, bottom, 0, 0, NOTHING)
  {
    hide Merge, XIncreasing, Reaches;
    points := [];
    var i, j := 0, 0;
    ghost var last := NOTHING;
    BothEnd(top, bottom);
    while i < |top| || j < |bottom|
      invariant 0 <= i <= |top| && 0 <= j <= |bottom|
      invariant i == |top| || j < |bottom|
      invariant last == if points == [] then NOTHING else points[|points| - 1]
      invariant points + Merge(top, bottom, i, j, last) == Merge(top, bottom, 0, 0, NOTHING)
      decreases |top| - i + |bottom| - j
    {
      NextStays(top, bottom, i, j);
      MergeStep(top, bottom, i, j, last);
      ghost var done, p, next := points, NextPoint(top, bottom, i, j, last), Next(top, bottom, i, j);
      if i < |top| && top[i].0 == bottom[j].0 {
        points := points + [Merged(top[i].0, Some(top[i].1), Some(bottom[j].1))];
        j := j + 1;
        i := i + 1;
      } else if i < |top| && top[i].0 < bottom[j].0 {
        var previous := if |points| > 0 then points[|points| - 1].bottom else None;
        points := points + [Merged(top[i].0, Some(top[i].1), previous)];
        i := i + 1;
      } else {
        var previous := if |points| > 0 then points[|points| - 1].top else None;
        points := points + [Merged(bottom[j].0, previous, Some(bottom[j].1))];
        j := j + 1;
      }
      assert points == done + [p] && (i, j) == next;
      last := p;
      Assoc(done, p, Merge(top, bottom, i, j, p));
    }
    MergeEnd(top, bottom, i, last);
  }

  lemma BothEnd(top: seq<Point>, bottom: seq<Point>)
    requires Reaches(top, bottom)
    ensures |top| == 0 || |bottom| > 0
  {
  }

  lemma Assoc<T>(a: seq<T>, x: T, b: seq<T>)
    ensures (a + [x]) + b == a + ([x] + b)
  {
  }

  lemma {:induction false} MergeStep(top: seq<Point>, bottom: seq<Point>, i: nat, j: nat, last: Merged)
    requires i <= |top| && j < |bottom|
    ensures var (i', j') := Next(top, bottom, i, j);
            var p := NextPoint(top, bottom, i, j, last);
            i' <= |top| && j' <= |bottom| && Merge(top, bottom, i, j, last) == [p] + Merge(top, bottom, i', j', p)
  {
  }

  lemma {:induction false} MergeEnd(top: seq<Point>, bottom: seq<Point>, i: nat, last: Merged)
    requires i <= |top|
    ensures Merge(top, bottom, i, |bottom|, last) == []
  {
  }

  // ----- what the merge contains

  predicate HasTop(points: seq<Merged>, p: Point) {
    exists k :: 0 <= k < |points| && points[k].x == p.0 && points[k].top == Some(p.1)
  }

  predicate HasBottom(points: seq<Merged>, p: Point) {
    exists k :: 0 <= k < |points| && points[k].x == p.0 && points[k].bottom == Some(p.1)
  }

  lemma HasLater(p: Merged, rest: seq<Merged>, q: Point)
    ensures HasTop(rest, q) ==> HasTop([p] + rest, q)
    ensures HasBottom(rest, q) ==> HasBottom([p] + rest, q)
  {
    if HasTop(rest, q) {
      var k :| 0 <= k < |rest| && rest[k].x == q.0 && rest[k].top == Some(q.1);
      assert ([p] + rest)[k + 1] == rest[k];
    }
    if HasBottom(rest, q) {
      var k :| 0 <= k < |rest| && rest[k].x == q.0 && rest[k].bottom == Some(q.1);
      assert ([p] + rest)[k + 1] == rest[k];
    }
  }

  lemma HasFirst(p: Merged, rest: seq<Merged>, q: Point)
    requires p.x == q.0
    ensures p.top == Some(q.1) ==> HasTop([p] + rest, q)
    ensures p.bottom == Some(q.1) ==> HasBottom([p] + rest, q)
  {
    assert ([p] + rest)[0] == p;
  }

  /** Merging keeps every point of both curves. */
  lemma {:induction false} MergeKeepsPoints(top: seq<Point>, bottom: seq<Point>, i: nat, j: nat, last: Merged)
    requires XIncreasing(top) && XIncreasing(bottom) && Reaches(top, bottom)
    requires i <= |top| && j <= |bottom| && (i == |top| || j < |bottom|)
    ensures forall a :: i <= a < |top| ==> HasTop(Merge(top, bottom, i, j, last), top[a])
    ensures forall b :: j <= b < |bottom| ==> HasBottom(Merge(top, bottom, i, j, last), bottom[b])
    decreases |top| - i + |bottom| - j
  {
    hide Merge, HasTop, HasBottom, XIncreasing, Reaches;
    if j < |bottom| {
      NextStays(top, bottom, i, j);
      MergeStep(top, bottom, i, j, last);
      var (i', j') := Next(top, bottom, i, j);
      var p := NextPoint(top, bottom, i, j, last);
      var rest := Merge(top, bottom, i', j', p);
      MergeKeepsPoints(top, bottom, i', j', p);
      forall a | i <= a < |top| ensures HasTop([p] + rest, top[a]) {
        if a < i' {
          HasFirst(p, rest, top[a]);
        } else {
          HasLater(p, rest, top[a]);
        }
      }
      forall b | j <= b < |bottom| ensures HasBottom([p] + rest, bottom[b]) {
        if b < j' {
          HasFirst(p, rest, bottom[b]);
        } else {
          HasLater(p, rest, bottom[b]);
        }
      }
    }
  }

  /** The merged x values increase strictly, from the smaller of the two first ones. */
  lemma {:induction false} MergeIncreases(top: seq<Point>, bottom: seq<Point>, i: nat, j: nat, last: Merged)
    requires XIncreasing(top) && XIncreasing(bottom) && i <= |top| && j <= |bottom|
    ensures var m := Merge(top, bottom, i, j, last);
            && (m != [] ==> j < |bottom| && m[0].x == NextPoint(top, bottom, i, j, last).x)
            && forall k :: 0 <= k < |m| - 1 ==> m[k].x < m[k + 1].x
    decreases |top| - i + |bottom| - j
  {
    hide Merge;
    if j < |bottom| {
      MergeStep(top, bottom, i, j, last);
      var (i', j') := Next(top, bottom, i, j);
      MergeIncreases(top, bottom, i', j', NextPoint(top, bottom, i, j, last));
    } else {
      MergeEnd(top, bottom, i, last);
    }
  }

  /** The value of the curve's last point at or before `x`. */
  function ValueAt(c: seq<Point>, x: real): Option<real> {
    if c == [] then None
    else if c[|c| - 1].0 <= x then Some(c[|c| - 1].1)
    else ValueAt(c[..|c| - 1], x)
  }

  /** The value of the last one of the first `i` points. */
  function ValueBefore(c: seq<Point>, i: nat): Option<real>
    requires i <= |c|
  {
    if i == 0 then None else Some(c[i - 1].1)
  }

  lemma {:induction false} ValueAtIs(c: seq<Point>, i: nat, x: real)
    requires XIncreasing(c) && i <= |c| && (i == 0 || c[i - 1].0 <= x) && (i == |c| || x < c[i].0)
    ensures ValueAt(c, x) == ValueBefore(c, i)
  {
    if i < |c| {
      SortedEnd(c, i);
      ValueAtIs(c[..|c| - 1], i, x);
    }
  }

  predicate HasX(c: seq<Point>, x: real) {
    exists k :: 0 <= k < |c| && c[k].0 == x
  }

  /** What a merged point means: its x is that of a point, and its values are the last ones of both curves. */
  predicate Means(top: seq<Point>, bottom: seq<Point>, p: Merged) {
    && (HasX(top, p.x) || HasX(bottom, p.x))
    && p.top == ValueAt(top, p.x) && p.bottom == ValueAt(bottom, p.x)
  }

  /** All points before the two indices lie before all points from them on. */
  predicate Apart(top: seq<Point>, bottom: seq<Point>, i: nat, j: nat)
    requires i <= |top| && j <= |bottom|
  {
    && (0 < i && j < |bottom| ==> top[i - 1].0 < bottom[j].0)
    && (0 < j && i < |top| ==> bottom[j - 1].0 < top[i].0)
  }

  lemma NextMeans(top: seq<Point>, bottom: seq<Point>, i: nat, j: nat, last: Merged)
    requires XIncreasing(top) && XIncreasing(bottom) && i <= |top| && j < |bottom| && Apart(top, bottom, i, j)
    requires last.top == ValueBefore(top, i) && last.bottom == ValueBefore(bottom, j)
    ensures var (i', j') := Next(top, bottom, i, j);
            var p := NextPoint(top, bottom, i, j, last);
            && i' <= |top| && j' <= |bottom| && Apart(top, bottom, i', j')
            && p.top == ValueBefore(top, i') && p.bottom == ValueBefore(bottom, j')
            && Means(top, bottom, p)
  {
    hide ValueAt;
    var (i', j') := Next(top, bottom, i, j);
    var p := NextPoint(top, bottom, i, j, last);
    ValueAtIs(top, i', p.x);
    ValueAtIs(bottom, j', p.x);
  }

  /** The merge invents no point, and what it carries along is the last value of the other curve. */
  lemma {:induction false} MergeMeans(top: seq<Point>, bottom: seq<Point>, i: nat, j: nat, last: Merged)
    requires XIncreasing(top) && XIncreasing(bottom) && i <= |top| && j <= |bottom| && Apart(top, bottom, i, j)
    requires last.top == ValueBefore(top, i) && last.bottom == ValueBefore(bottom, j)
    ensures forall k :: 0 <= k < |Merge(top, bottom, i, j, last)| ==>
              Means(top, bottom, Merge(top, bottom, i, j, last)[k])
    decreases |top| - i + |bottom| - j
  {
    hide Merge, Means, Apart, ValueBefore, NextPoint, XIncreasing;
    if j < |bottom| {
      NextMeans(top, bottom, i, j, last);
      MergeStep(top, bottom, i, j, last);
      MergeMeans(top, bottom, Next(top, bottom, i, j).0, Next(top, bottom, i, j).1, NextPoint(top, bottom, i, j, last));
    } else {
      MergeEnd(top, bottom, i, last);
    }
  }

  /** Of two curves on which the loop ends, the merge has exactly the x values, in increasing order, and at each of
      them the value that each curve had last. */
  lemma {:induction false} MergeIsExact(top: seq<Point>, bottom: seq<Point>)
    requires XIncreasing(top) && XIncreasing(bottom) && Reaches(top, bottom)
    ensures var m := Merge(top, bottom, 0, 0, NOTHING);
            && (forall k :: 0 <= k < |m| ==> Means(top, bottom, m[k]))
            && (forall k :: 0 <= k < |m| - 1 ==> m[k].x < m[k + 1].x)
            && (forall a :: 0 <= a < |top| ==> HasTop(m, top[a]))
            && (forall b :: 0 <= b < |bottom| ==> HasBottom(m, bottom[b]))
  {
    hide Merge, Means, HasTop, HasBottom, XIncreasing;
    MergeMeans(top, bottom, 0, 0, NOTHING);
    MergeIncreases(top, bottom, 0, 0, NOTHING);
    MergeKeepsPoints(top, bottom, 0, 0, NOTHING);
  }

  // ----- the fill

  function Zip(top: seq<Point>, bottom: seq<Point>, i: nat): (r: seq<Merged>)
    requires |top| == |bottom| && i <= |top|
    ensures |r| == |top| - i
    ensures forall k :: 0 <= k < |r| ==> r[k] == Merged(top[i + k].0, Some(top[i + k].1), Some(bottom[i + k].1))
    decreases |top| - i
  {
    if i == |top| then [] else [Merged(top[i].0, Some(top[i].1), Some(bottom[i].1))] + Zip(top, bottom, i + 1)
  }

  lemma {:induction false} MergeIsZip(top: seq<Point>, bottom: seq<Point>, i: nat, last: Merged)
    requires |top| == |bottom| && i <= |top|
    requires forall k :: 0 <= k < |top| ==> top[k].0 == bottom[k].0
    ensures Merge(top, bottom, i, i, last) == Zip(top, bottom, i)
    decreases |top| - i
  {
    if i < |top| {
      MergeIsZip(top, bottom, i + 1, Merged(top[i].0, Some(top[i].1), Some(bottom[i].1)));
    }
  }

  lemma {:induction false} SameXBefore(xs: seq<real>, top: seq<real>, bottom: seq<real>, fit: Fit, n: nat, m: nat)
    requires DataOk(xs, top) && DataOk(xs, bottom) && m < |xs| && n > 0
    ensures forall k :: 0 <= k < m * n ==>
              SamplesBefore(xs, top, fit, n, m)[k].0 == SamplesBefore(xs, bottom, fit, n, m)[k].0
  {
    hide SegmentSpline, Eval;
    if m > 0 {
      SameXBefore(xs, top, bottom, fit, n, m - 1);
      var a, b := SegmentSamples(xs, top, fit, n, m - 1, n), SegmentSamples(xs, bottom, fit, n, m - 1, n);
      assert forall k :: 0 <= k < n ==> a[k].0 == b[k].0;
    }
  }

  /** The x list of a sampled curve does not depend on its y values. So in the fill case the merge runs
      in lockstep and gives exactly the points (x, top, bottom). */
  lemma FillIsZip(xs: seq<real>, top: seq<real>, bottom: seq<real>, fit: Fit, n: nat)
    requires DataOk(xs, top) && DataOk(xs, bottom) && n > 0
    ensures var a, b := Samples(xs, top, fit, n), Samples(xs, bottom, fit, n);
            && |a| == |b| && XIncreasing(a) && XIncreasing(b) && Reaches(a, b)
            && (forall k :: 0 <= k < |a| ==> a[k].0 == b[k].0)
            && Merge(a, b, 0, 0, NOTHING) == Zip(a, b, 0)
  {
    SameXBefore(xs, top, bottom, fit, n, |xs| - 1);
    SamplesIncrease(xs, top, fit, n);
    SamplesIncrease(xs, bottom, fit, n);
    MergeIsZip(Samples(xs, top, fit, n), Samples(xs, bottom, fit, n), 0, NOTHING);
  }

  /** `processDatapoints` for a filled series. */
  method FillCurve(xs: seq<real>, top: seq<real>, bottom: seq<real>, fit: Fit, n: nat) returns (points: seq<Merged>)
    requires DataOk(xs, top) && DataOk(xs, bottom) && n > 0
    ensures points == Zip(Samples(xs, top, fit, n), Samples(xs, bottom, fit, n), 0)
  {
    hide Samples;
    FillIsZip(xs, top, bottom, fit, n);
    var pointsTop := CalculateSplineCurvePoints(xs, top, fit, n);
    var pointsBottom := CalculateSplineCurvePoints(xs, bottom, fit, n);
    points := MergeCurves(pointsTop, pointsBottom);
  }

  /** The samples of a legacy curve have strictly increasing x. */
  lemma LegacySamplesIncrease(x: seq<real>, num: nat, j: nat)
    requires Increasing(x) && |x| >= 2 && num >= 2
    ensures SampleAt(x, num, j) < SampleAt(x, num, j + 1)
  {
    IncreasingOrder(x, 0, |x| - 1);
    StepPositive(x[|x| - 1] - x[0], num - 1);
    var step := (x[|x| - 1] - x[0]) / (num - 1) as real;
    SampleIs(x, num, j, step);
    SampleIs(x, num, j + 1, step);
    NextMultiple(j, step);
  }

  lemma NextMultiple(j: nat, step: real)
    ensures (j + 1) as real * step == j as real * step + step
  {
  }

  /** The prepared x values do not depend on the y values. */
  lemma SamePrepared(xs: seq<real>, ys: seq<real>, zs: seq<real>, d: real, x: seq<real>, y: seq<real>, x': seq<real>,
      z: seq<real>)
    requires |xs| == |ys| == |zs| && |x| == |y| == |x'| == |z| == 3 * |xs|
    requires Triples(xs, ys, d, x, y) && Triples(xs, zs, d, x', z)
    ensures x == x'
  {
    hide Triples;
    forall j | 0 <= j < |x| ensures x[j] == x'[j] {
      var k := j / 3;
      TripleAt(xs, ys, d, x, y, k);
      TripleAt(xs, zs, d, x', z, k);
      assert j == 3 * k || j == 3 * k + 1 || j == 3 * k + 2;
    }
  }

  /** `processDatapoints` for a filled series with the legacy option: again the two curves have the same x list,
      and the merge is their zip. */
  method FillLegacyCurve(xs: seq<real>, top: seq<real>, bottom: seq<real>, fit: FitOption, factor: nat)
    returns (points: seq<Merged>, xdata: seq<real>, ytop: seq<real>, ybottom: seq<real>)
    requires DataOk(xs, top) && DataOk(xs, bottom) && factor > 0
    requires !fit.NoFit? ==> Fits(xs, Distance(xs, fit))
    ensures fit.NoFit? ==> xdata == xs && ytop == top && ybottom == bottom
    ensures !fit.NoFit? ==>
              && |xdata| == |ytop| == |ybottom| == 3 * |xs|
              && Triples(xs, top, Distance(xs, fit), xdata, ytop)
              && Triples(xs, bottom, Distance(xs, fit), xdata, ybottom)
    ensures DataOk(xdata, ytop) && DataOk(xdata, ybottom) && factor * |xs| >= 2 && |points| == factor * |xs|
    ensures forall j :: 0 <= j < |points| ==>
              var v := SampleAt(xdata, factor * |xs|, j);
              points[j] == Merged(v, Some(Curve(xdata, ytop, v)), Some(Curve(xdata, ybottom, v)))
  {
    hide Curve, SampleAt, Triples, Fits, Merge;
    var pointsTop, pointsBottom, xbottom;
    pointsTop, xdata, ytop := CalculateLegacyCurvePoints(xs, top, fit, factor);
    pointsBottom, xbottom, ybottom := CalculateLegacyCurvePoints(xs, bottom, fit, factor);
    if !fit.NoFit? {
      SamePrepared(xs, top, bottom, Distance(xs, fit), xdata, ytop, xbottom, ybottom);
    }
    var num := factor * |xs|;
    forall k | 0 <= k < num - 1
      ensures pointsTop[k].0 < pointsTop[k + 1].0 && pointsBottom[k].0 < pointsBottom[k + 1].0
    {
      LegacySamplesIncrease(xdata, num, k);
    }
    points := MergeCurves(pointsTop, pointsBottom);
    MergeIsZip(pointsTop, pointsBottom, 0, NOTHING);
  }
}
