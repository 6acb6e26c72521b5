/** Real-number facts about cubics, each about one polynomial identity or inequality. */
module CubicMath {

  lemma MulNonNeg(a: real, b: real)
    requires a >= 0.0 && b >= 0.0
    ensures a * b >= 0.0
  {
  }

  lemma SquareNonNeg(a: real)
    ensures a * a >= 0.0
  {
    if a < 0.0 {
      MulNonNeg(-a, -a);
      assert a * a == (-a) * (-a);
    }
  }

  lemma MulLe(a: real, b: real, c: real)
    requires a <= b && c >= 0.0
    ensures a * c <= b * c
  {
    MulNonNeg(b - a, c);
    assert (b - a) * c == b * c - a * c;
  }

  /** A linear function that is non-negative at both ends of an interval is non-negative on it. */
  lemma LinearMin(m: real, M: real, a: real, c: real)
    requires 0.0 <= m <= M && c >= 0.0 && M * a + c >= 0.0
    ensures m * a + c >= 0.0
  {
    if a >= 0.0 {
      MulNonNeg(m, a);
    } else {
      MulLe(m, M, -a);
      assert m * (-a) == -(m * a) && M * (-a) == -(M * a);
    }
  }

  /** `a^2 + ab + b^2` is non-negative. */
  lemma FormNonNeg(a: real, b: real)
    ensures a * a + a * b + b * b >= 0.0
  {
    SquareNonNeg(a + b);
    SquareNonNeg(a);
    SquareNonNeg(b);
    assert (a + b) * (a + b) == a * a + 2.0 * (a * b) + b * b;
  }

  function P(u: real, v: real): real {
    u * u + u * v + v * v
  }

  /** The mean slope between `u` and `v` of the cubic on the unit interval with mean slope `s` and end
      gradients `m0` and `m1`. */
  function MeanSlope(m0: real, m1: real, s: real, u: real, v: real): real {
    (m0 + m1 - s - s) * P(u, v) + (s - (m0 + m1 - s - s) - m0) * (u + v) + m0
  }

  lemma MeanSlopeLinear(m0: real, m1: real, s: real, p: real, t: real)
    ensures (m0 + m1 - s - s) * p + (s - (m0 + m1 - s - s) - m0) * t + m0 ==
            m0 * (p - 2.0 * t + 1.0) + (m1 * (p - t) + s * (3.0 * t - 2.0 * p))
  {
  }

  lemma Corners(u: real, v: real)
    requires 0.0 <= u <= 1.0 && 0.0 <= v <= 1.0
    ensures 3.0 * (u + v) - 2.0 * P(u, v) >= 0.0
    ensures P(u, v) >= 0.0
    ensures P(u, v) - 3.0 * (u + v) + 3.0 >= 0.0
    ensures 4.0 * P(u, v) - 6.0 * (u + v) + 3.0 >= 0.0
  {
    MulNonNeg(u, 1.0 - u);
    MulNonNeg(v, 1.0 - v);
    MulNonNeg(u, 1.0 - v);
    MulNonNeg(v, 1.0 - u);
    assert u * (1.0 - u) == u - u * u && v * (1.0 - v) == v - v * v;
    assert u * (1.0 - v) == u - u * v && v * (1.0 - u) == v - u * v;
    FormNonNeg(u, v);
    FormNonNeg(1.0 - u, 1.0 - v);
    assert (1.0 - u) * (1.0 - u) == 1.0 - 2.0 * u + u * u;
    assert (1.0 - v) * (1.0 - v) == 1.0 - 2.0 * v + v * v;
    assert (1.0 - u) * (1.0 - v) == 1.0 - u - v + u * v;
    FormNonNeg(u - 0.5, v - 0.5);
    assert (u - 0.5) * (u - 0.5) == u * u - u + 0.25;
    assert (v - 0.5) * (v - 0.5) == v * v - v + 0.25;
    assert (u - 0.5) * (v - 0.5) == u * v - 0.5 * u - 0.5 * v + 0.25;
  }

  lemma MeanSlopeNonNeg(m0: real, m1: real, s: real, u: real, v: real)
    requires 0.0 <= m0 <= 3.0 * s && 0.0 <= m1 <= 3.0 * s
    requires 0.0 <= u <= 1.0 && 0.0 <= v <= 1.0
    ensures MeanSlope(m0, m1, s, u, v) >= 0.0
  {
    var p, t, M := P(u, v), u + v, 3.0 * s;
    Corners(u, v);
    MeanSlopeLinear(m0, m1, s, p, t);
    var c := s * (3.0 * t - 2.0 * p);
    MulNonNeg(s, 3.0 * t - 2.0 * p);
    MulNonNeg(s, p);
    MulNonNeg(s, p - 3.0 * t + 3.0);
    MulNonNeg(s, 4.0 * p - 6.0 * t + 3.0);
    var b, a := p - t, p - 2.0 * t + 1.0;
    assert M * b + c == s * p;
    LinearMin(m1, M, b, c);
    assert M * a + c == s * (p - 3.0 * t + 3.0);
    assert M * b + (M * a + c) == s * (4.0 * p - 6.0 * t + 3.0);
    LinearMin(m1, M, b, M * a + c);
    LinearMin(m0, M, a, m1 * b + c);
  }

  lemma MeanSlopeNegated(m0: real, m1: real, s: real, u: real, v: real)
    ensures MeanSlope(-m0, -m1, -s, u, v) == -MeanSlope(m0, m1, s, u, v)
  {
    var p, t := P(u, v), u + v;
    MeanSlopeLinear(m0, m1, s, p, t);
    MeanSlopeLinear(-m0, -m1, -s, p, t);
    assert (-m0) * (p - 2.0 * t + 1.0) == -(m0 * (p - 2.0 * t + 1.0));
    assert (-m1) * (p - t) == -(m1 * (p - t));
    assert (-s) * (3.0 * t - 2.0 * p) == -(s * (3.0 * t - 2.0 * p));
  }

  /** `m` lies between 0 and 3 times the slope: the Fritsch-Carlson condition. */
  predicate Bounded(m: real, s: real) {
    (s >= 0.0 ==> 0.0 <= m <= 3.0 * s) && (s <= 0.0 ==> 3.0 * s <= m <= 0.0)
  }

  /** The mean slopes of a cubic whose end gradients are bounded have the sign of its overall slope. */
  lemma MeanSlopeSign(m0: real, m1: real, s: real, u: real, v: real)
    requires Bounded(m0, s) && Bounded(m1, s)
    requires 0.0 <= u <= 1.0 && 0.0 <= v <= 1.0
    ensures s >= 0.0 ==> MeanSlope(m0, m1, s, u, v) >= 0.0
    ensures s <= 0.0 ==> MeanSlope(m0, m1, s, u, v) <= 0.0
  {
    if s >= 0.0 {
      MeanSlopeNonNeg(m0, m1, s, u, v);
    }
    if s <= 0.0 {
      MeanSlopeNonNeg(-m0, -m1, -s, u, v);
      MeanSlopeNegated(m0, m1, s, u, v);
    }
  }

  function Cubic(c1: real, c2: real, c3: real, d: real): real {
    c1 * d * (d * d) + c2 * (d * d) + c3 * d
  }

  lemma CubicDifference(c1: real, c2: real, c3: real, d: real, e: real)
    ensures Cubic(c1, c2, c3, e) - Cubic(c1, c2, c3, d) == (e - d) * (c1 * P(d, e) + c2 * (d + e) + c3)
  {
    var p, t := P(d, e), d + e;
    assert (e - d) * p == e * (e * e) - d * (d * d) by {
      assert (e - d) * (d * d) == e * (d * d) - d * (d * d);
      assert (e - d) * (d * e) == d * (e * e) - e * (d * d);
      assert (e - d) * (e * e) == e * (e * e) - d * (e * e);
    }
    assert (e - d) * t == e * e - d * d;
    assert (e - d) * (c1 * p + c2 * t + c3) == c1 * ((e - d) * p) + c2 * ((e - d) * t) + c3 * (e - d);
    assert c1 * (e * (e * e) - d * (d * d)) == c1 * e * (e * e) - c1 * d * (d * d);
  }

  lemma DivCancel(a: real, b: real)
    requires b != 0.0
    ensures a / b * b == a && b * (a / b) == a
  {
  }
}
