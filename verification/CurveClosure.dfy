/** Chord-and-tangent addition stays on the curve. */
module CurveClosure {
  import opened ModArith
  import opened MontInverse
  import opened Curve
  import opened CurveAgreement

  /** The curve's cubic minus the square of the line through (x1, y1) with slope s. */
  function Gap(b: int, x1: int, y1: int, s: int, x: int): int {
    x * x * x - 3 * x + b - (y1 + s * (x - x1)) * (y1 + s * (x - x1))
  }

  /** `Gap` as a polynomial in x. */
  lemma GapExpands(b: int, x1: int, y1: int, s: int, x: int)
    ensures Gap(b, x1, y1, s, x)
            == Cubic(s * s, 2 * s * s * x1 - 2 * s * y1 - 3, b - (y1 - s * x1) * (y1 - s * x1), x)
  {
    var k := y1 - s * x1;
    assert y1 + s * (x - x1) == k + s * x;
    assert (k + s * x) * (k + s * x) == k * k + 2 * k * (s * x) + (s * x) * (s * x);
    assert (s * x) * (s * x) == s * s * (x * x);
    assert 2 * k * (s * x) == (2 * s * y1 - 2 * s * s * x1) * x;
  }

  function Cubic(a: int, c: int, e: int, x: int): int {
    x * x * x - a * (x * x) + c * x + e
  }

  /** Where the three abscissas sum to a, the cubic is the line left after taking out the product
      of the three linear factors. */
  lemma CubicLeavesLine(a: int, c: int, e: int, x: int, y: int, z: int)
    requires a == x + y + z
    ensures Cubic(a, c, e, x) == (c - (x * y + x * z + y * z)) * x + (e + x * y * z)
  {
    assert a * (x * x) == x * x * x + (y + z) * (x * x);
    assert (x * y + x * z + y * z) * x == (y + z) * (x * x) + x * y * z;
  }

  /** Three values of one line. */
  lemma LineAtThree(m: int, n: int, x1: int, x2: int, x3: int, y1: int, y2: int, y3: int)
    requires y1 == m * x1 + n && y2 == m * x2 + n && y3 == m * x3 + n
    ensures (x2 - x1) * y3 == (x3 - x1) * y2 + (x2 - x3) * y1
  {
    assert (x2 - x1) * (m * x3) == (x3 - x1) * (m * x2) + (x2 - x3) * (m * x1);
    assert (x2 - x1) * n == (x3 - x1) * n + (x2 - x3) * n;
  }

  /** `CubicLeavesLine` with the line's coefficients named. */
  lemma CubicOnLine(a: int, c: int, e: int, x: int, y: int, z: int, m: int, n: int)
    requires a == x + y + z && m == c - (x * y + x * z + y * z) && n == e + x * y * z
    ensures Cubic(a, c, e, x) == m * x + n
  {
    CubicLeavesLine(a, c, e, x, y, z);
  }

  lemma SymmetricSums(x: int, y: int, z: int)
    ensures y * x + y * z + x * z == x * y + x * z + y * z && z * x + z * y + x * y == x * y + x * z + y * z
    ensures y * x * z == x * y * z && z * x * y == x * y * z
  {}

  /** A cubic at three abscissas that sum to a. */
  lemma ThreeAbscissas(a: int, c: int, e: int, x1: int, x2: int, x3: int)
    requires a == x1 + x2 + x3
    ensures (x2 - x1) * Cubic(a, c, e, x3) == (x3 - x1) * Cubic(a, c, e, x2) + (x2 - x3) * Cubic(a, c, e, x1)
  {
    hide Cubic;
    var m, n := c - (x1 * x2 + x1 * x3 + x2 * x3), e + x1 * x2 * x3;
    SymmetricSums(x1, x2, x3);
    CubicOnLine(a, c, e, x1, x2, x3, m, n);
    CubicOnLine(a, c, e, x2, x1, x3, m, n);
    CubicOnLine(a, c, e, x3, x1, x2, m, n);
    LineAtThree(m, n, x1, x2, x3, Cubic(a, c, e, x1), Cubic(a, c, e, x2), Cubic(a, c, e, x3));
  }

  /** The line meets the cubic at x1, x2 and x3 = s^2 - x1 - x2. */
  lemma GapAtThree(b: int, x1: int, y1: int, s: int, x2: int)
    ensures var x3 := s * s - x1 - x2;
            (x2 - x1) * Gap(b, x1, y1, s, x3) == (x3 - x1) * Gap(b, x1, y1, s, x2) + (x2 - x3) * Gap(b, x1, y1, s, x1)
  {
    hide Gap, Cubic;
    var x3 := s * s - x1 - x2;
    GapExpands(b, x1, y1, s, x1);
    GapExpands(b, x1, y1, s, x2);
    GapExpands(b, x1, y1, s, x3);
    ThreeAbscissas(s * s, 2 * s * s * x1 - 2 * s * y1 - 3, b - (y1 - s * x1) * (y1 - s * x1), x1, x2, x3);
  }

  /** The tangent meets the cubic twice at x1, and at x3 = s^2 - 2 x1. */
  lemma GapAtTangent(b: int, x1: int, y1: int, s: int)
    ensures var x3 := s * s - x1 - x1;
            Gap(b, x1, y1, s, x3) == Gap(b, x1, y1, s, x1) + (x3 - x1) * (3 * (x1 * x1 - 1) - s * (2 * y1))
  {
    hide Gap;
    var x3 := s * s - x1 - x1;
    var c, e := 2 * s * s * x1 - 2 * s * y1 - 3, b - (y1 - s * x1) * (y1 - s * x1);
    GapExpands(b, x1, y1, s, x1);
    GapExpands(b, x1, y1, s, x3);
    CubicLeavesLine(s * s, c, e, x1, x1, x3);
    CubicLeavesLine(s * s, c, e, x3, x1, x1);
    SymmetricSums(x1, x1, x3);
    var m, n := c - (x1 * x1 + x1 * x3 + x1 * x3), e + x1 * x1 * x3;
    assert m == 3 * (x1 * x1 - 1) - s * (2 * y1) by { TangentLine(x1, y1, s, x3); }
    assert m * x3 + n == m * x1 + n + (x3 - x1) * m;
  }

  lemma TangentLine(x1: int, y1: int, s: int, x3: int)
    requires x3 == s * s - x1 - x1
    ensures 2 * s * s * x1 - 2 * s * y1 - 3 - (x1 * x1 + x1 * x3 + x1 * x3) == 3 * (x1 * x1 - 1) - s * (2 * y1)
  {
    assert x1 * x3 == s * s * x1 - 2 * (x1 * x1);
  }

  // ----- Closure

  /** The point (x, y) with x congruent to s^2 - x1 - x2 and y to s (x1 - x) - y1 lies on the curve when
      the gap at s^2 - x1 - x2 vanishes. */
  lemma ThirdOnCurve(p: nat, b: int, x1: int, y1: int, x2: int, s: int)
    requires p > 0 && Cong(p, Gap(b, x1, y1, s, s * s - x1 - x2), 0)
    ensures OnCurve(p, b, Third(p, x1, y1, x2, s))
  {
    hide Cong, Third;
    ThirdCong(p, x1, y1, x2, s);
    var t, w := Third(p, x1, y1, x2, s), s * s - x1 - x2;
    // The gap at t.x vanishes too.
    GapCong(p, b, x1, y1, s, t.x, w);
    CongTrans(p, Gap(b, x1, y1, s, t.x), Gap(b, x1, y1, s, w), 0);
    // t.y is minus the line's value at t.x.
    var line := y1 + s * (t.x - x1);
    assert s * (x1 - t.x) - y1 == -line;
    CongMul(p, t.y, -line, t.y, -line);
    assert (-line) * (-line) == line * line;
    var f := t.x * t.x * t.x - 3 * t.x + b;
    assert Gap(b, x1, y1, s, t.x) == f - line * line;
    CongRefl(p, line * line);
    CongAdd(p, f - line * line, 0, line * line, line * line);
    CongSym(p, f, line * line);
    CongTrans(p, t.y * t.y, line * line, f);
  }

  lemma GapCong(p: nat, b: int, x1: int, y1: int, s: int, x: int, w: int)
    requires p > 0 && Cong(p, x, w)
    ensures Cong(p, Gap(b, x1, y1, s, x), Gap(b, x1, y1, s, w))
  {
    hide Cong;
    CongMul(p, x, w, x, w);
    CongMul(p, x * x, w * w, x, w);
    Scale(p, 3, x, w);
    CongAdd(p, x * x * x, w * w * w, 3 * x, 3 * w);
    CongRefl(p, b);
    CongAdd(p, x * x * x - 3 * x, w * w * w - 3 * w, b, b);
    CongRefl(p, x1);
    CongAdd(p, x, w, x1, x1);
    Scale(p, s, x - x1, w - x1);
    CongRefl(p, y1);
    CongAdd(p, y1, y1, s * (x - x1), s * (w - x1));
    var l, k := y1 + s * (x - x1), y1 + s * (w - x1);
    CongMul(p, l, k, l, k);
    CongAdd(p, x * x * x - 3 * x + b, w * w * w - 3 * w + b, l * l, k * k);
  }

  /** A point of the curve on the line has no gap. */
  lemma NoGap(p: nat, b: int, x1: int, y1: int, s: int, x: int, y: int)
    requires p > 0 && Cong(p, y * y, x * x * x - 3 * x + b) && Cong(p, s * (x - x1), y - y1)
    ensures Cong(p, Gap(b, x1, y1, s, x), 0)
  {
    hide Cong;
    var f, line := x * x * x - 3 * x + b, y1 + s * (x - x1);
    CongRefl(p, y1);
    CongAdd(p, y1, y1, s * (x - x1), y - y1);
    assert y1 + (y - y1) == y;
    CongMul(p, line, y, line, y);
    CongTrans(p, line * line, y * y, f);
    CongRefl(p, f);
    CongAdd(p, f, f, line * line, f);
    assert f - f == 0;
  }

  lemma ChordCloses(p: nat, b: int, a: Affine, c: Affine)
    requires Prime(p) && p > 2 && OnCurve(p, b, a) && OnCurve(p, b, c) && a.Aff? && c.Aff? && a.x != c.x
    ensures OnCurve(p, b, AffAdd(p, a, c))
  {
    hide Prime, Cong, Inverse, Third, Gap;
    var x1: int, y1: int, x2: int, y2: int := a.x, a.y, c.x, c.y;
    var d, e := x2 - x1, y2 - y1;
    var s := e * Inverse(p, d);
    var x3 := s * s - x1 - x2;
    DifferenceNotZero(p, x1, x2);
    ChordSlope(p, d, e);
    NoGap(p, b, x1, y1, s, x2, y2);
    CongRefl(p, 0);
    assert s * (x1 - x1) == 0;
    NoGap(p, b, x1, y1, s, x1, y1);
    var g1, g2, g3 := Gap(b, x1, y1, s, x1), Gap(b, x1, y1, s, x2), Gap(b, x1, y1, s, x3);
    GapAtThree(b, x1, y1, s, x2);
    Scale(p, x3 - x1, g2, 0);
    Scale(p, x2 - x3, g1, 0);
    CongAdd(p, (x3 - x1) * g2, (x3 - x1) * 0, (x2 - x3) * g1, (x2 - x3) * 0);
    assert (x3 - x1) * 0 + (x2 - x3) * 0 == 0;
    PrimeDivides(p, d, g3);
    ThirdOnCurve(p, b, x1, y1, x2, s);
  }

  lemma Vanishes(p: nat, g: int, k: int, e: int, u: int)
    requires p > 0 && Cong(p, g, 0) && Cong(p, u, e)
    ensures Cong(p, g + k * (e - u), 0)
  {
    hide Cong;
    CongRefl(p, e);
    CongAdd(p, e, e, u, e);
    Scale(p, k, e - u, e - e);
    CongAdd(p, g, 0, k * (e - u), k * (e - e));
    assert 0 + k * (e - e) == 0;
  }

  lemma TangentCloses(p: nat, b: int, a: Affine)
    requires Prime(p) && p > 2 && OnCurve(p, b, a) && a.Aff? && a.y != 0
    ensures OnCurve(p, b, AffAdd(p, a, a))
  {
    hide Prime, Cong, Inverse, Third, Gap;
    var x1: int, y1: int := a.x, a.y;
    var e := 3 * (x1 * x1 - 1);
    var s := e * Inverse(p, 2 * y1);
    var x3 := s * s - x1 - x1;
    TwiceNotZero(p, y1);
    TangentSlope(p, x1, y1);
    CongRefl(p, 0);
    assert s * (x1 - x1) == 0;
    NoGap(p, b, x1, y1, s, x1, y1);
    GapAtTangent(b, x1, y1, s);
    Vanishes(p, Gap(b, x1, y1, s, x1), x3 - x1, e, s * (2 * y1));
    ThirdOnCurve(p, b, x1, y1, x1, s);
  }

  /** Sums of points of the curve are points of the curve. */
  lemma AddCloses(p: nat, b: int, a: Affine, c: Affine)
    requires Prime(p) && p > 2 && OnCurve(p, b, a) && OnCurve(p, b, c)
    ensures OnCurve(p, b, AffAdd(p, a, c))
  {
    if a.Aff? && c.Aff? {
      if a.x != c.x { ChordCloses(p, b, a, c); }
      else if a.y == c.y && a.y != 0 { TangentCloses(p, b, a); }
    }
  }

  // ----- Chords and tangents

  /** The reflection of `r` lies on the line through (x1, y1) with the slope e / d. */
  ghost predicate OnLine(p: nat, x1: int, y1: int, d: int, e: int, r: Affine)
    requires p > 0
  {
    r.Aff? && Cong(p, d * (0 - r.y - y1), e * (r.x - x1))
  }

  lemma ThirdOnLine(p: nat, x1: int, y1: int, x2: int, s: int, d: int, e: int)
    requires p > 0 && Cong(p, s * d, e)
    ensures OnLine(p, x1, y1, d, e, Third(p, x1, y1, x2, s))
  {
    hide Cong, Third;
    var t := Third(p, x1, y1, x2, s);
    var x: int, y: int := t.x, t.y;
    ThirdCong(p, x1, y1, x2, s);
    CongRefl(p, y1);
    CongAdd(p, y, s * (x1 - x) - y1, y1, y1);
    Scale(p, -d, y + y1, s * (x1 - x));
    LineTerms(d, s, x, x1, y, y1);
    Scale(p, x - x1, s * d, e);
    CongTrans(p, d * (0 - y - y1), (s * d) * (x - x1), e * (x - x1));
  }

  lemma LineTerms(d: int, s: int, x: int, x1: int, y: int, y1: int)
    ensures -d * (y + y1) == d * (0 - y - y1) && -d * (s * (x1 - x)) == (s * d) * (x - x1)
  {}

  /** A sum is the third point of a line, reflected: the line is the chord through two different points. */
  lemma SumOnChord(p: nat, a: Affine, c: Affine)
    requires Prime(p) && p > 2 && a.Aff? && c.Aff? && a.x < p && c.x < p && a.x != c.x
    ensures OnLine(p, a.x, a.y, c.x - a.x, c.y - a.y, AffAdd(p, a, c))
  {
    hide Prime, Cong, Inverse, Third, OnLine;
    var d: int, e: int := c.x - a.x, c.y - a.y;
    DifferenceNotZero(p, a.x, c.x);
    ChordSlope(p, d, e);
    ThirdOnLine(p, a.x, a.y, c.x, e * Inverse(p, d), d, e);
  }

  /** For the sum of a point with itself, it is the tangent, of slope (3 x^2 - 3) / 2 y. */
  lemma SumOnTangent(p: nat, a: Affine)
    requires Prime(p) && p > 2 && a.Aff? && a.x < p && a.y < p && a.y != 0
    ensures OnLine(p, a.x, a.y, 2 * a.y, 3 * (a.x * a.x - 1), AffAdd(p, a, a))
  {
    hide Prime, Cong, Inverse, Third, OnLine;
    TwiceNotZero(p, a.y);
    TangentSlope(p, a.x, a.y);
    ThirdOnLine(p, a.x, a.y, a.x, 3 * (a.x * a.x - 1) * Inverse(p, 2 * a.y), 2 * a.y, 3 * (a.x * a.x - 1));
  }
}
