/**
 The Jacobian formulas agree with affine chord-and-tangent addition on every input: equal, opposite,
 at infinity, and in general position (mcuboot-image/src/p256.rs:245-301).
 */
module CurveAgreement {
  import opened ModArith
  import opened Fermat
  import opened MontInverse
  import opened Curve

  lemma Scale(p: nat, c: int, a: int, b: int)
    requires p > 0 && Cong(p, a, b)
    ensures Cong(p, c * a, c * b) && Cong(p, a * c, b * c)
  {
    hide Cong;
    CongRefl(p, c);
    CongMul(p, c, c, a, b);
    CongMul(p, a, b, c, c);
  }

  lemma NotZero(p: nat, z: nat)
    requires 0 < z < p
    ensures !Cong(p, z, 0)
  {
    if Cong(p, z, 0) { CongResidues(p, z, 0); }
  }

  lemma ProductNotZero(p: nat, a: int, b: int)
    requires Prime(p) && !Cong(p, a, 0) && !Cong(p, b, 0)
    ensures !Cong(p, a * b, 0)
  {
    if Cong(p, a * b, 0) { PrimeDivides(p, a, b); }
  }

  lemma ResidueZero(p: nat, r: nat, x: int)
    requires r < p && Cong(p, r, x)
    ensures r == 0 <==> Cong(p, x, 0)
  {
    hide Cong;
    if r == 0 { CongSym(p, 0, x); }
    if Cong(p, x, 0) {
      CongTrans(p, r, x, 0);
      CongResidues(p, r, 0);
    }
  }

  // ----- What a triple stands for

  lemma UnitSquare(p: nat, z: int, i: int, x: int)
    requires p > 0 && Cong(p, z * i, 1)
    ensures Cong(p, x * (i * i) * (z * z), x) && Cong(p, x * (i * (i * i)) * (z * z * z), x)
  {
    hide Cong;
    var u := z * i;
    CongMul(p, u, 1, u, 1);
    Scale(p, x, u * u, 1 * 1);
    assert x * (u * u) == x * (i * i) * (z * z);
    CongMul(p, u * u, 1 * 1, u, 1);
    Scale(p, x, u * u * u, 1 * 1 * 1);
    assert x * (u * u * u) == x * (i * (i * i)) * (z * z * z) by {
      assert u * u * u == (i * (i * i)) * (z * z * z);
    }
  }

  /** The affine point of a triple is what the triple stands for. */
  lemma AffineOver(p: nat, j: Jacobian)
    requires Prime(p) && p > 2 && InField(p, j) && j.z != 0
    ensures ToAffine(p, j).Aff? && Over(p, j, ToAffine(p, j).x, ToAffine(p, j).y)
    ensures ToAffine(p, j).x < p && ToAffine(p, j).y < p
  {
    hide Cong, Prime, Mul, Inverse;
    var z, i := j.z, Inverse(p, j.z);
    NotZero(p, z);
    InverseIsInverse(p, z);
    CongRefl(p, i);
    CongRefl(p, j.x);
    CongRefl(p, j.y);
    var ii := Mul(p, i, i);
    HMul(p, i, i, i, i);
    HMul(p, j.x, j.x, ii, i * i);
    HMul(p, i, i, ii, i * i);
    HMul(p, j.y, j.y, Mul(p, i, ii), i * (i * i));
    var a := ToAffine(p, j);
    UnitSquare(p, z, i, j.x);
    UnitSquare(p, z, i, j.y);
    Scale(p, z * z, a.x, j.x * (i * i));
    CongTrans(p, a.x * (z * z), j.x * (i * i) * (z * z), j.x);
    CongSym(p, a.x * (z * z), j.x);
    Scale(p, z * z * z, a.y, j.y * (i * (i * i)));
    CongTrans(p, a.y * (z * z * z), j.y * (i * (i * i)) * (z * z * z), j.y);
    CongSym(p, a.y * (z * z * z), j.y);
  }

  lemma SameOver(p: nat, c: int, x: int, y: int, w: int)
    requires Prime(p) && !Cong(p, c, 0) && Cong(p, w, x * c) && Cong(p, w, y * c)
    ensures Cong(p, x, y)
  {
    hide Cong, Prime;
    PrimeIsPositive(p);
    CongSym(p, w, x * c);
    CongTrans(p, x * c, w, y * c);
    assert x * c == c * x && y * c == c * y;
    Cancel(p, c, x, y);
  }

  /** A triple stands for one point only. */
  lemma OverUnique(p: nat, j: Jacobian, a: Affine)
    requires Prime(p) && p > 2 && InField(p, j) && j.z != 0
    requires a.Aff? && a.x < p && a.y < p && Over(p, j, a.x, a.y)
    ensures ToAffine(p, j) == a
  {
    hide Cong, Prime, ToAffine;
    var c, z := ToAffine(p, j), j.z;
    AffineOver(p, j);
    NotZero(p, z);
    ProductNotZero(p, z, z);
    ProductNotZero(p, z * z, z);
    SameOver(p, z * z, c.x, a.x, j.x);
    SameOver(p, z * z * z, c.y, a.y, j.y);
    CongResidues(p, c.x, a.x);
    CongResidues(p, c.y, a.y);
  }

  // ----- Doubling

  /** Multiples of the tangent's third point, cleared of denominators. */
  lemma TangentAlgebra(p: nat, x: int, y: int, s: int, e: int, tx: int, ty: int)
    requires p > 0 && Cong(p, s * (2 * y), e) && Cong(p, tx, s * s - 2 * x) && Cong(p, ty, s * (x - tx) - y)
    ensures var n := e * e - 8 * (x * (y * y));
            && Cong(p, tx * ((2 * y) * (2 * y)), n)
            && Cong(p, ty * ((2 * y) * (2 * y) * (2 * y)), e * (4 * (x * (y * y)) - n) - 8 * ((y * y) * (y * y)))
  {
    hide Cong;
    var c := 2 * y;
    var n := e * e - 8 * (x * (y * y));
    // tx c^2 = (s c)^2 - 2 x c^2
    Scale(p, c * c, tx, s * s - 2 * x);
    assert (s * s - 2 * x) * (c * c) == (s * c) * (s * c) - 8 * (x * (y * y));
    CongMul(p, s * c, e, s * c, e);
    CongRefl(p, 8 * (x * (y * y)));
    CongAdd(p, (s * c) * (s * c), e * e, 8 * (x * (y * y)), 8 * (x * (y * y)));
    CongTrans(p, tx * (c * c), (s * c) * (s * c) - 8 * (x * (y * y)), n);
    // ty c^3 = (s c) (x c^2 - tx c^2) - y c^3
    Scale(p, c * c * c, ty, s * (x - tx) - y);
    TangentRegroup(x, y, s, tx, c);
    CongRefl(p, 4 * (x * (y * y)));
    CongAdd(p, 4 * (x * (y * y)), 4 * (x * (y * y)), tx * (c * c), n);
    CongMul(p, s * c, e, 4 * (x * (y * y)) - tx * (c * c), 4 * (x * (y * y)) - n);
    var y4 := 8 * ((y * y) * (y * y));
    CongRefl(p, y4);
    CongAdd(p, (s * c) * (4 * (x * (y * y)) - tx * (c * c)), e * (4 * (x * (y * y)) - n), y4, y4);
    CongTrans(p, ty * (c * c * c), (s * c) * (4 * (x * (y * y)) - tx * (c * c)) - y4, e * (4 * (x * (y * y)) - n) - y4);
  }

  lemma TangentRegroup(x: int, y: int, s: int, tx: int, c: int)
    requires c == 2 * y
    ensures (s * (x - tx) - y) * (c * c * c) == (s * c) * (4 * (x * (y * y)) - tx * (c * c)) - 8 * ((y * y) * (y * y))
  {
    assert c * c == 4 * (y * y);
    assert y * (c * c * c) == 8 * ((y * y) * (y * y));
    assert (s * (x - tx)) * (c * c * c) == (s * c) * ((x - tx) * (c * c));
    assert (x - tx) * (c * c) == 4 * (x * (y * y)) - tx * (c * c);
  }

  lemma DoubleAlpha(x: int, w: int)
    ensures 3 * ((x * w - w) * (x * w + w)) == 3 * (x * x - 1) * (w * w)
  {
    assert (x * w - w) * (x * w + w) == (x * w) * (x * w) - w * w;
    assert (x * w) * (x * w) == x * x * (w * w);
  }

  lemma DoubleGamma(y: int, z: int, w: int)
    requires w == z * z
    ensures (y * (z * z * z)) * (y * (z * z * z)) == (y * y) * (w * (w * w))
  {
    assert z * z * z == w * z;
    assert (w * z) * (w * z) == w * (w * w);
    assert (y * (w * z)) * (y * (w * z)) == (y * y) * ((w * z) * (w * z));
  }

  lemma DoubleBeta(x: int, g: int, w: int, q: int)
    requires q == w * w
    ensures (x * w) * (g * (w * q)) == x * g * (q * q)
  {
    assert (x * w) * (g * (w * q)) == (x * g) * ((w * w) * q);
  }

  lemma DoubleGammaSquare(g: int, w: int, q: int)
    requires q == w * w
    ensures (g * (w * q)) * (g * (w * q)) == (g * g) * (q * q * q)
  {
    assert (w * q) * (w * q) == (w * w) * (q * q);
    assert (g * (w * q)) * (g * (w * q)) == (g * g) * ((w * q) * (w * q));
  }

  lemma DoubleZ(y: int, z: int, q: int)
    requires q == (z * z) * (z * z)
    ensures (y * (z * z * z) + z) * (y * (z * z * z) + z) - (y * (z * z * z)) * (y * (z * z * z)) - z * z == 2 * y * q
  {
    var v := y * (z * z * z);
    assert (v + z) * (v + z) - v * v - z * z == 2 * (v * z);
    assert v * z == y * q;
  }

  lemma DoubleCombine(e: int, c: int, q: int)
    ensures (e * q) * (e * q) - 8 * (c * (q * q)) == (e * e - 8 * c) * (q * q)
    ensures var n := e * e - 8 * c;
            (e * q) * (4 * (c * (q * q)) - n * (q * q)) == e * (4 * c - n) * (q * q * q)
  {
    var n := e * e - 8 * c;
    assert 4 * (c * (q * q)) - n * (q * q) == (4 * c - n) * (q * q);
    assert (e * q) * ((4 * c - n) * (q * q)) == e * (4 * c - n) * (q * q * q);
  }

  /** The coordinates of the double over q = z^4, with e = 3 (x^2 - 1). */
  ghost function DoubleOf(x: int, y: int, q: int): Triple {
    var e, c := 3 * (x * x - 1), x * (y * y);
    var n := e * e - 8 * c;
    Triple(n * (q * q), (e * (4 * c - n) - 8 * ((y * y) * (y * y))) * (q * q * q), 2 * y * q)
  }

  lemma DoublePolynomial(x: int, y: int, z: int)
    ensures IntDouble(x * (z * z), y * (z * z * z), z) == DoubleOf(x, y, (z * z) * (z * z))
  {
    var w, g := z * z, y * y;
    var q, e, c := w * w, 3 * (x * x - 1), x * g;
    DoubleAlpha(x, w);
    DoubleGamma(y, z, w);
    DoubleBeta(x, g, w, q);
    DoubleGammaSquare(g, w, q);
    DoubleZ(y, z, q);
    DoubleCombine(e, c, q);
    DoubleAssemble(e, c, g, q);
  }

  lemma DoubleAssemble(e: int, c: int, g: int, q: int)
    ensures e * (4 * c - (e * e - 8 * c)) * (q * q * q) - 8 * ((g * g) * (q * q * q))
            == (e * (4 * c - (e * e - 8 * c)) - 8 * (g * g)) * (q * q * q)
  {}

  lemma TangentSlope(p: nat, x: int, y: int)
    requires Prime(p) && p > 2 && !Cong(p, 2 * y, 0)
    ensures Cong(p, 3 * (x * x - 1) * Inverse(p, 2 * y) * (2 * y), 3 * (x * x - 1))
  {
    hide Cong, Prime, Inverse;
    var e, i := 3 * (x * x - 1), Inverse(p, 2 * y);
    InverseIsInverse(p, 2 * y);
    Scale(p, e, 2 * y * i, 1);
    assert e * (2 * y * i) == e * i * (2 * y) && e * 1 == e;
  }

  lemma ThirdCong(p: nat, x1: int, y1: int, x2: int, s: int)
    requires p > 0
    ensures var t := Third(p, x1, y1, x2, s);
            && t.x < p && t.y < p
            && Cong(p, t.x, s * s - x1 - x2) && Cong(p, t.y, s * (x1 - t.x) - y1)
  {
    hide Cong;
    CongMod(p, s * s - x1 - x2);
    CongMod(p, s * (x1 - Third(p, x1, y1, x2, s).x) - y1);
  }

  /** From r congruent to t c^2 q^2 and so on to what the triple stands for. */
  lemma OverFromProducts(p: nat, r: Jacobian, tx: int, ty: int, c: int, q: int, nx: int, ny: int)
    requires p > 0 && Cong(p, r.z, c * q)
    requires Cong(p, tx * (c * c), nx) && Cong(p, ty * (c * c * c), ny)
    requires Cong(p, r.x, nx * (q * q)) && Cong(p, r.y, ny * (q * q * q))
    ensures Over(p, r, tx, ty)
  {
    hide Cong;
    var z := r.z;
    CongMul(p, z, c * q, z, c * q);
    Scale(p, tx, z * z, (c * q) * (c * q));
    assert tx * ((c * q) * (c * q)) == tx * (c * c) * (q * q);
    Scale(p, q * q, tx * (c * c), nx);
    CongTrans(p, tx * (z * z), tx * (c * c) * (q * q), nx * (q * q));
    CongSym(p, tx * (z * z), nx * (q * q));
    CongTrans(p, r.x, nx * (q * q), tx * (z * z));
    CongMul(p, z * z, (c * q) * (c * q), z, c * q);
    Scale(p, ty, z * z * z, (c * q) * (c * q) * (c * q));
    CubeRegroup(ty, c, q);
    Scale(p, q * q * q, ty * (c * c * c), ny);
    CongTrans(p, ty * (z * z * z), ty * (c * c * c) * (q * q * q), ny * (q * q * q));
    CongSym(p, ty * (z * z * z), ny * (q * q * q));
    CongTrans(p, r.y, ny * (q * q * q), ty * (z * z * z));
  }

  lemma CubeRegroup(t: int, c: int, q: int)
    ensures t * ((c * q) * (c * q) * (c * q)) == t * (c * c * c) * (q * q * q)
  {
    assert (c * q) * (c * q) * (c * q) == (c * c * c) * (q * q * q);
  }

  lemma TwiceNotZero(p: nat, y: nat)
    requires Prime(p) && p > 2 && y < p
    ensures Cong(p, 2 * y, 0) <==> y == 0
  {
    hide Prime, Cong;
    if y == 0 { CongRefl(p, 0); } else {
      NotZero(p, 2);
      NotZero(p, y);
      ProductNotZero(p, 2, y);
    }
  }

  lemma PowersNotZero(p: nat, z: nat)
    requires Prime(p) && 0 < z < p
    ensures !Cong(p, z, 0) && !Cong(p, z * z, 0) && !Cong(p, (z * z) * (z * z), 0)
  {
    hide Prime, Cong;
    NotZero(p, z);
    ProductNotZero(p, z, z);
    ProductNotZero(p, z * z, z * z);
  }

  /** The tangent's third point, for a triple with the coordinates of the double. */
  lemma TangentOver(p: nat, r: Jacobian, x: nat, y: nat, q: int)
    requires Prime(p) && p > 2 && !Cong(p, 2 * y, 0)
    requires var d := DoubleOf(x, y, q); Cong(p, r.x, d.x) && Cong(p, r.y, d.y) && Cong(p, r.z, d.z)
    ensures var t := Third(p, x, y, x, 3 * (x * x - 1) * Inverse(p, 2 * y)); Over(p, r, t.x, t.y)
  {
    hide Prime, Cong, Inverse, Third, Over;
    var e, c := 3 * (x * x - 1), x * (y * y);
    var s, n := e * Inverse(p, 2 * y), e * e - 8 * c;
    var t := Third(p, x, y, x, s);
    TangentSlope(p, x, y);
    ThirdCong(p, x, y, x, s);
    assert s * s - x - x == s * s - 2 * x;
    TangentAlgebra(p, x, y, s, e, t.x, t.y);
    OverFromProducts(p, r, t.x, t.y, 2 * y, q, n, e * (4 * c - n) - 8 * ((y * y) * (y * y)));
  }

  /** What doubling does to a triple over (x, y). */
  lemma DoubleOver(p: nat, j: Jacobian, x: nat, y: nat)
    requires Prime(p) && p > 2 && InField(p, j) && j.z != 0 && x < p && y < p && Over(p, j, x, y)
    ensures JacDouble(p, j).z == 0 <==> y == 0
    ensures y != 0 ==>
      var t := Third(p, x, y, x, 3 * (x * x - 1) * Inverse(p, 2 * y)); Over(p, JacDouble(p, j), t.x, t.y)
  {
    hide Prime, Cong, JacDouble, IntDouble, Inverse, Third, DoubleOf;
    var r, z := JacDouble(p, j), j.z;
    var q := (z * z) * (z * z);
    CongRefl(p, z);
    DoubleIsPolynomial(p, j, x * (z * z), y * (z * z * z), z);
    DoublePolynomial(x, y, z);
    DoubleOfZ(x, y, q);
    PowersNotZero(p, z);
    TwiceNotZero(p, y);
    ResidueZero(p, r.z, 2 * y * q);
    if y != 0 {
      ProductNotZero(p, 2 * y, q);
      TangentOver(p, r, x, y, q);
    } else {
      CongRefl(p, 0);
    }
  }

  lemma DoubleOfZ(x: int, y: int, q: int)
    ensures DoubleOf(x, y, q).z == 2 * y * q && (y == 0 ==> DoubleOf(x, y, q).z == 0)
  {}

  lemma AffineInfinity(p: nat, j: Jacobian)
    requires p > 2
    ensures ToAffine(p, j) == Infinity <==> j.z == 0
  {}

  lemma DoubleOfInfinity(p: nat, j: Jacobian)
    requires p > 0 && InField(p, j) && j.z == 0
    ensures JacDouble(p, j) == j
  {}

  /** Doubling a triple doubles the point. */
  lemma DoubleAgrees(p: nat, j: Jacobian)
    requires Prime(p) && p > 2 && InField(p, j)
    ensures ToAffine(p, JacDouble(p, j)) == AffAdd(p, ToAffine(p, j), ToAffine(p, j))
  {
    hide Prime, Cong, Over, Third, Inverse, ToAffine, JacDouble;
    AffineInfinity(p, j);
    AffineInfinity(p, JacDouble(p, j));
    if j.z == 0 {
      DoubleOfInfinity(p, j);
    } else {
      AffineOver(p, j);
      var a := ToAffine(p, j);
      DoubleOver(p, j, a.x, a.y);
      if a.y != 0 {
        var s := 3 * (a.x * a.x - 1) * Inverse(p, 2 * a.y);
        ThirdCong(p, a.x, a.y, a.x, s);
        OverUnique(p, JacDouble(p, j), Third(p, a.x, a.y, a.x, s));
      }
    }
  }

  // ----- Adding

  /** Multiples of the chord's third point, cleared of denominators. */
  lemma ChordAlgebra(p: nat, x1: int, y1: int, x2: int, e: int, s: int, tx: int, ty: int)
    requires p > 0
    requires Cong(p, s * (x2 - x1), e) && Cong(p, tx, s * s - x1 - x2) && Cong(p, ty, s * (x1 - tx) - y1)
    ensures var d := x2 - x1;
            var n := e * e - d * (d * d) - 2 * (x1 * (d * d));
            && Cong(p, tx * (d * d), n)
            && Cong(p, ty * (d * d * d), e * (x1 * (d * d) - n) - y1 * (d * (d * d)))
  {
    hide Cong;
    var d := x2 - x1;
    var f := d * (d * d) + 2 * (x1 * (d * d));
    var n := e * e - d * (d * d) - 2 * (x1 * (d * d));
    // tx d^2 = (s d)^2 - (x1 + x2) d^2
    Scale(p, d * d, tx, s * s - x1 - x2);
    assert (s * s - x1 - x2) * (d * d) == (s * d) * (s * d) - f by { ChordSum(x1, x2, s, d); }
    CongMul(p, s * d, e, s * d, e);
    CongRefl(p, f);
    CongAdd(p, (s * d) * (s * d), e * e, f, f);
    CongTrans(p, tx * (d * d), (s * d) * (s * d) - f, n);
    // ty d^3 = (s d) (x1 d^2 - tx d^2) - y1 d^3
    Scale(p, d * d * d, ty, s * (x1 - tx) - y1);
    ChordRegroup(x1, y1, s, tx, d);
    CongRefl(p, x1 * (d * d));
    CongAdd(p, x1 * (d * d), x1 * (d * d), tx * (d * d), n);
    CongMul(p, s * d, e, x1 * (d * d) - tx * (d * d), x1 * (d * d) - n);
    var g := y1 * (d * (d * d));
    CongRefl(p, g);
    CongAdd(p, (s * d) * (x1 * (d * d) - tx * (d * d)), e * (x1 * (d * d) - n), g, g);
    CongTrans(p, ty * (d * d * d), (s * d) * (x1 * (d * d) - tx * (d * d)) - g, e * (x1 * (d * d) - n) - g);
  }

  lemma ChordSum(x1: int, x2: int, s: int, d: int)
    requires d == x2 - x1
    ensures (s * s - x1 - x2) * (d * d) == (s * d) * (s * d) - (d * (d * d) + 2 * (x1 * (d * d)))
  {
    assert (s * s) * (d * d) == (s * d) * (s * d);
    assert (x1 + x2) * (d * d) == (d + 2 * x1) * (d * d);
  }

  lemma ChordRegroup(x1: int, y1: int, s: int, tx: int, d: int)
    ensures (s * (x1 - tx) - y1) * (d * d * d) == (s * d) * (x1 * (d * d) - tx * (d * d)) - y1 * (d * (d * d))
  {
    assert (s * (x1 - tx)) * (d * d * d) == (s * d) * ((x1 - tx) * (d * d));
  }

  /** The coordinates of the sum over q = d^3, for the differences a = x2 - x1 and e = y2 - y1. */
  ghost function SumOf(x1: int, y1: int, a: int, e: int, q: int): Triple {
    var n := e * e - a * (a * a) - 2 * (x1 * (a * a));
    Triple(n * (q * q), (e * (x1 * (a * a) - n) - y1 * (a * (a * a))) * (q * q * q), a * q)
  }

  lemma SumPowers(a: int, x1: int, d: int, q2: int, q: int)
    requires q2 == d * d && q == d * d * d
    ensures (a * q2) * ((a * q2) * (a * q2)) == a * (a * a) * (q * q)
    ensures (x1 * q2) * ((a * q2) * (a * q2)) == x1 * (a * a) * (q * q)
    ensures d * (a * q2) == a * q
  {
    assert q2 * (q2 * q2) == q * q;
    assert (a * q2) * (a * q2) == (a * a) * (q2 * q2);
    assert (a * q2) * ((a * a) * (q2 * q2)) == (a * (a * a)) * (q2 * (q2 * q2));
    assert (x1 * q2) * ((a * a) * (q2 * q2)) == (x1 * (a * a)) * (q2 * (q2 * q2));
  }

  lemma SumCombine(x1: int, y1: int, a: int, e: int, q: int)
    ensures var c, b := a * (a * a), x1 * (a * a);
            var n := e * e - c - 2 * b;
            && (e * q) * (e * q) - c * (q * q) - 2 * (b * (q * q)) == n * (q * q)
            && (e * q) * (b * (q * q) - n * (q * q)) - (y1 * q) * (c * (q * q)) == (e * (b - n) - y1 * c) * (q * q * q)
  {
    var c, b := a * (a * a), x1 * (a * a);
    var n := e * e - c - 2 * b;
    assert (e * q) * (e * q) == e * e * (q * q);
    assert b * (q * q) - n * (q * q) == (b - n) * (q * q);
    assert (e * q) * ((b - n) * (q * q)) == e * (b - n) * (q * q * q);
    assert (y1 * q) * (c * (q * q)) == y1 * c * (q * q * q);
    assert e * (b - n) * (q * q * q) - y1 * c * (q * q * q) == (e * (b - n) - y1 * c) * (q * q * q);
  }

  lemma SumPolynomial(x1: int, y1: int, x2: int, y2: int, d: int)
    ensures IntAdd(x1 * (d * d), x2 * (d * d), y1 * (d * d * d), y2 * (d * d * d), d)
            == SumOf(x1, y1, x2 - x1, y2 - y1, d * d * d)
  {
    var a, e, q2, q := x2 - x1, y2 - y1, d * d, d * d * d;
    assert x2 * q2 - x1 * q2 == a * q2 && y2 * q - y1 * q == e * q;
    SumPowers(a, x1, d, q2, q);
    SumCombine(x1, y1, a, e, q);
  }

  lemma ChordSlope(p: nat, d: int, e: int)
    requires Prime(p) && p > 2 && !Cong(p, d, 0)
    ensures Cong(p, e * Inverse(p, d) * d, e)
  {
    hide Cong, Prime, Inverse;
    var i := Inverse(p, d);
    InverseIsInverse(p, d);
    Scale(p, e, d * i, 1);
    assert e * (d * i) == e * i * d && e * 1 == e;
  }

  /** The chord's third point, for a triple with the coordinates of the sum. */
  lemma ChordOver(p: nat, r: Jacobian, x1: nat, y1: nat, x2: nat, y2: nat, q: int)
    requires Prime(p) && p > 2 && !Cong(p, x2 - x1, 0)
    requires var t := SumOf(x1, y1, x2 - x1, y2 - y1, q); Cong(p, r.x, t.x) && Cong(p, r.y, t.y) && Cong(p, r.z, t.z)
    ensures var t := Third(p, x1, y1, x2, (y2 - y1) * Inverse(p, x2 - x1)); Over(p, r, t.x, t.y)
  {
    hide Prime, Cong, Inverse, Third, Over;
    var d, e := x2 - x1, y2 - y1;
    var s := e * Inverse(p, d);
    var t := Third(p, x1, y1, x2, s);
    var n := e * e - d * (d * d) - 2 * (x1 * (d * d));
    ChordSlope(p, d, e);
    ThirdCong(p, x1, y1, x2, s);
    ChordAlgebra(p, x1, y1, x2, e, s, t.x, t.y);
    OverFromProducts(p, r, t.x, t.y, d, q, n, e * (x1 * (d * d) - n) - y1 * (d * (d * d)));
  }

  /** Whether two residues agree shows in their difference times a unit. */
  lemma DifferenceShows(p: nat, h: nat, a: nat, b: nat, u: int)
    requires Prime(p) && h < p && a < p && b < p && !Cong(p, u, 0) && Cong(p, h, b * u - a * u)
    ensures h == 0 <==> a == b
    ensures a != b ==> !Cong(p, b - a, 0)
  {
    hide Prime, Cong;
    PrimeIsPositive(p);
    ResidueZero(p, h, b * u - a * u);
    assert b * u - a * u == (b - a) * u;
    if a == b {
      CongRefl(p, 0);
      assert (b - a) * u == 0;
    } else {
      DifferenceNotZero(p, a, b);
      ProductNotZero(p, b - a, u);
    }
  }

  lemma DifferenceNotZero(p: nat, a: nat, b: nat)
    requires p > 0 && a < p && b < p && a != b
    ensures !Cong(p, b - a, 0)
  {
    if Cong(p, b - a, 0) {
      CongRefl(p, a);
      CongAdd(p, b - a, 0, a, a);
      CongResidues(p, b, a);
    }
  }

  /** The two differences of `add` and what they reveal. */
  lemma CrossShows(p: nat, j: Jacobian, k: Jacobian, x1: nat, y1: nat, x2: nat, y2: nat)
    requires Prime(p) && p > 2 && InField(p, j) && InField(p, k) && j.z != 0 && k.z != 0
    requires x1 < p && y1 < p && x2 < p && y2 < p && Over(p, j, x1, y1) && Over(p, k, x2, y2)
    ensures var (u1, u2, s1, s2) := Cross(p, j, k);
            (Sub(p, u2, u1) == 0 <==> x1 == x2) && (Sub(p, s2, s1) == 0 <==> y1 == y2)
  {
    hide Prime, Cong, Cross, Over, Sub;
    var (u1, u2, s1, s2) := Cross(p, j, k);
    var d := j.z * k.z;
    CrossIsPolynomial(p, j, k, x1, y1, x2, y2);
    NotZero(p, j.z);
    NotZero(p, k.z);
    ProductNotZero(p, j.z, k.z);
    ProductNotZero(p, d, d);
    ProductNotZero(p, d * d, d);
    HSub(p, u2, x2 * (d * d), u1, x1 * (d * d));
    HSub(p, s2, y2 * (d * d * d), s1, y1 * (d * d * d));
    DifferenceShows(p, Sub(p, u2, u1), x1, x2, d * d);
    DifferenceShows(p, Sub(p, s2, s1), y1, y2, d * d * d);
  }

  /** What adding does to triples over points with different x. */
  lemma AddOver(p: nat, j: Jacobian, k: Jacobian, x1: nat, y1: nat, x2: nat, y2: nat)
    requires Prime(p) && p > 2 && InField(p, j) && InField(p, k) && j.z != 0 && k.z != 0 && x1 != x2
    requires x1 < p && y1 < p && x2 < p && y2 < p && Over(p, j, x1, y1) && Over(p, k, x2, y2)
    ensures JacAdd(p, j, k).z != 0
    ensures var t := Third(p, x1, y1, x2, (y2 - y1) * Inverse(p, x2 - x1)); Over(p, JacAdd(p, j, k), t.x, t.y)
  {
    hide Prime, Cong, Cross, Over, Sub, JacAdd, IntAdd, SumOf, Inverse, Third;
    var d := j.z * k.z;
    var q := d * d * d;
    CrossShows(p, j, k, x1, y1, x2, y2);
    CrossIsPolynomial(p, j, k, x1, y1, x2, y2);
    AddIsPolynomial(p, j, k, x1 * (d * d), x2 * (d * d), y1 * q, y2 * q);
    SumPolynomial(x1, y1, x2, y2, d);
    DifferenceNotZero(p, x1, x2);
    ChordOver(p, JacAdd(p, j, k), x1, y1, x2, y2, q);
    NotZero(p, j.z);
    NotZero(p, k.z);
    ProductNotZero(p, j.z, k.z);
    ProductNotZero(p, d, d);
    ProductNotZero(p, d * d, d);
    ProductNotZero(p, x2 - x1, q);
    SumOfZ(x1, y1, x2 - x1, y2 - y1, q);
    ResidueZero(p, JacAdd(p, j, k).z, (x2 - x1) * q);
  }

  lemma SumOfZ(x1: int, y1: int, a: int, e: int, q: int)
    ensures SumOf(x1, y1, a, e, q).z == a * q
  {}

  /** The branches of `add`. */
  lemma AddBranches(p: nat, j: Jacobian, k: Jacobian)
    requires p > 0 && InField(p, j) && InField(p, k)
    ensures j.z == 0 ==> JacAdd(p, j, k) == k
    ensures j.z != 0 && k.z == 0 ==> JacAdd(p, j, k) == j
    ensures j.z != 0 && k.z != 0 ==>
      var (u1, u2, s1, s2) := Cross(p, j, k);
      Sub(p, u2, u1) == 0 ==> JacAdd(p, j, k) == if Sub(p, s2, s1) == 0 then JacDouble(p, j) else Jac(0, 0, 0)
  {
    hide JacDouble;
  }

  /** Adding triples adds the points. */
  lemma AddAgrees(p: nat, j: Jacobian, k: Jacobian)
    requires Prime(p) && p > 2 && InField(p, j) && InField(p, k)
    ensures ToAffine(p, JacAdd(p, j, k)) == AffAdd(p, ToAffine(p, j), ToAffine(p, k))
  {
    hide Prime, Cong, Over, Third, Inverse, ToAffine, JacAdd, JacDouble, Cross, Sub;
    AddBranches(p, j, k);
    AffineInfinity(p, j);
    AffineInfinity(p, k);
    if j.z != 0 && k.z != 0 {
      AffineOver(p, j);
      AffineOver(p, k);
      var a, c := ToAffine(p, j), ToAffine(p, k);
      CrossShows(p, j, k, a.x, a.y, c.x, c.y);
      if a.x == c.x {
        DoubleAgrees(p, j);
        AffineInfinity(p, Jac(0, 0, 0));
      } else {
        AddOver(p, j, k, a.x, a.y, c.x, c.y);
        var s := (c.y - a.y) * Inverse(p, c.x - a.x);
        ThirdCong(p, a.x, a.y, c.x, s);
        OverUnique(p, JacAdd(p, j, k), Third(p, a.x, a.y, c.x, s));
      }
    }
  }
}
