/**
 The curve y^2 = x^3 - 3x + b over a prime field: affine chord-and-tangent addition, and the Jacobian
 formulas of mcuboot-image/src/p256.rs:230-302 that compute it without divisions.
 */
module Curve {
  import opened ModArith
  import opened MontInverse

  // ----- Affine points

  datatype Affine = Infinity | Aff(x: nat, y: nat)

  ghost predicate OnCurve(p: nat, b: int, a: Affine)
    requires p > 0
  {
    a.Aff? ==> a.x < p && a.y < p && Cong(p, a.y * a.y, a.x * a.x * a.x - 3 * a.x + b)
  }

  /** The third point of the line with slope `slope` through (x1, y1) and a point over x2, negated. */
  function Third(p: nat, x1: int, y1: int, x2: int, slope: int): (r: Affine)
    requires p > 0
    ensures r.Aff?
  {
    var x3 := (slope * slope - x1 - x2) % p;
    Aff(x3, (slope * (x1 - x3) - y1) % p)
  }

  /** Chord-and-tangent addition. */
  function AffAdd(p: nat, a: Affine, c: Affine): Affine
    requires p > 2
  {
    if a.Infinity? then c
    else if c.Infinity? then a
    else if a.x != c.x then Third(p, a.x, a.y, c.x, (c.y - a.y) * Inverse(p, c.x - a.x))
    else if a.y == c.y && a.y != 0 then Third(p, a.x, a.y, a.x, 3 * (a.x * a.x - 1) * Inverse(p, 2 * a.y))
    else Infinity
  }

  // ----- The Jacobian formulas, on residues

  datatype Jacobian = Jac(x: nat, y: nat, z: nat)

  predicate InField(p: nat, j: Jacobian) {
    j.x < p && j.y < p && j.z < p
  }

  /** `Point::double`. */
  function JacDouble(p: nat, j: Jacobian): (r: Jacobian)
    requires p > 0 && InField(p, j)
    ensures InField(p, r)
  {
    if j.z == 0 then j
    else
      var delta := Mul(p, j.z, j.z);
      var gamma := Mul(p, j.y, j.y);
      var beta := Mul(p, j.x, gamma);
      var t := Mul(p, Sub(p, j.x, delta), Add(p, j.x, delta));
      var alpha := Add(p, Add(p, t, t), t);
      var beta2 := Add(p, beta, beta);
      var beta4 := Add(p, beta2, beta2);
      var beta8 := Add(p, beta4, beta4);
      var x := Sub(p, Mul(p, alpha, alpha), beta8);
      var yz := Add(p, j.y, j.z);
      var z := Sub(p, Sub(p, Mul(p, yz, yz), gamma), delta);
      var gammaSq := Mul(p, gamma, gamma);
      var g2 := Add(p, gammaSq, gammaSq);
      var g4 := Add(p, g2, g2);
      var g8 := Add(p, g4, g4);
      var y := Sub(p, Mul(p, alpha, Sub(p, beta4, x)), g8);
      Jac(x, y, z)
  }

  /** `Point::add`. */
  function JacAdd(p: nat, j: Jacobian, k: Jacobian): (r: Jacobian)
    requires p > 0 && InField(p, j) && InField(p, k)
    ensures InField(p, r)
  {
    if j.z == 0 then k
    else if k.z == 0 then j
    else
      var z1z1 := Mul(p, j.z, j.z);
      var z2z2 := Mul(p, k.z, k.z);
      var u1 := Mul(p, j.x, z2z2);
      var u2 := Mul(p, k.x, z1z1);
      var s1 := Mul(p, Mul(p, j.y, k.z), z2z2);
      var s2 := Mul(p, Mul(p, k.y, j.z), z1z1);
      var h := Sub(p, u2, u1);
      var r := Sub(p, s2, s1);
      if h == 0 then (if r == 0 then JacDouble(p, j) else Jac(0, 0, 0))
      else
        var hh := Mul(p, h, h);
        var hhh := Mul(p, h, hh);
        var v := Mul(p, u1, hh);
        var x := Sub(p, Sub(p, Mul(p, r, r), hhh), Add(p, v, v));
        var y := Sub(p, Mul(p, r, Sub(p, v, x)), Mul(p, s1, hhh));
        var z := Mul(p, Mul(p, j.z, k.z), h);
        Jac(x, y, z)
  }

  /** The affine point a Jacobian triple stands for. */
  function ToAffine(p: nat, j: Jacobian): Affine
    requires p > 2
  {
    if j.z == 0 then Infinity
    else
      var i := Inverse(p, j.z);
      Aff(Mul(p, j.x, Mul(p, i, i)), Mul(p, j.y, Mul(p, i, Mul(p, i, i))))
  }

  // ----- Residue operations as integer operations

  lemma HAdd(p: nat, a: int, a': int, b: int, b': int)
    requires p > 0 && Cong(p, a, a') && Cong(p, b, b')
    ensures Cong(p, Add(p, a, b), a' + b')
  {
    hide Cong;
    CongAdd(p, a, a', b, b');
    CongMod(p, a + b);
    CongTrans(p, Add(p, a, b), a + b, a' + b');
  }

  lemma HSub(p: nat, a: int, a': int, b: int, b': int)
    requires p > 0 && Cong(p, a, a') && Cong(p, b, b')
    ensures Cong(p, Sub(p, a, b), a' - b')
  {
    hide Cong;
    CongAdd(p, a, a', b, b');
    CongMod(p, a - b);
    CongTrans(p, Sub(p, a, b), a - b, a' - b');
  }

  lemma HMul(p: nat, a: int, a': int, b: int, b': int)
    requires p > 0 && Cong(p, a, a') && Cong(p, b, b')
    ensures Cong(p, Mul(p, a, b), a' * b')
  {
    hide Cong;
    CongMul(p, a, a', b, b');
    CongMod(p, a * b);
    CongTrans(p, Mul(p, a, b), a * b, a' * b');
  }

  /** Doubling and adding as polynomials in integer coordinates. */
  datatype Triple = Triple(x: int, y: int, z: int)

  function IntDouble(x: int, y: int, z: int): Triple {
    var alpha := 3 * ((x - z * z) * (x + z * z));
    var beta := x * (y * y);
    var x3 := alpha * alpha - 8 * beta;
    Triple(x3, alpha * (4 * beta - x3) - 8 * ((y * y) * (y * y)), (y + z) * (y + z) - y * y - z * z)
  }

  lemma DoubleIsPolynomial(p: nat, j: Jacobian, x: int, y: int, z: int)
    requires p > 0 && InField(p, j) && j.z != 0 && Cong(p, j.x, x) && Cong(p, j.y, y) && Cong(p, j.z, z)
    ensures var r, q := JacDouble(p, j), IntDouble(x, y, z); Cong(p, r.x, q.x) && Cong(p, r.y, q.y) && Cong(p, r.z, q.z)
  {
    hide Cong, Add, Sub, Mul;
    var delta := Mul(p, j.z, j.z);
    HMul(p, j.z, z, j.z, z);
    var gamma := Mul(p, j.y, j.y);
    HMul(p, j.y, y, j.y, y);
    var beta := Mul(p, j.x, gamma);
    HMul(p, j.x, x, gamma, y * y);
    HSub(p, j.x, x, delta, z * z);
    HAdd(p, j.x, x, delta, z * z);
    var t := Mul(p, Sub(p, j.x, delta), Add(p, j.x, delta));
    var t' := (x - z * z) * (x + z * z);
    HMul(p, Sub(p, j.x, delta), x - z * z, Add(p, j.x, delta), x + z * z);
    HAdd(p, t, t', t, t');
    var alpha := Add(p, Add(p, t, t), t);
    HAdd(p, Add(p, t, t), t' + t', t, t');
    var beta' := x * (y * y);
    var beta2 := Add(p, beta, beta);
    HAdd(p, beta, beta', beta, beta');
    var beta4 := Add(p, beta2, beta2);
    HAdd(p, beta2, 2 * beta', beta2, 2 * beta');
    var beta8 := Add(p, beta4, beta4);
    HAdd(p, beta4, 4 * beta', beta4, 4 * beta');
    HMul(p, alpha, 3 * t', alpha, 3 * t');
    var x3 := Sub(p, Mul(p, alpha, alpha), beta8);
    var x3' := (3 * t') * (3 * t') - 8 * beta';
    HSub(p, Mul(p, alpha, alpha), (3 * t') * (3 * t'), beta8, 8 * beta');
    var yz := Add(p, j.y, j.z);
    HAdd(p, j.y, y, j.z, z);
    HMul(p, yz, y + z, yz, y + z);
    HSub(p, Mul(p, yz, yz), (y + z) * (y + z), gamma, y * y);
    HSub(p, Sub(p, Mul(p, yz, yz), gamma), (y + z) * (y + z) - y * y, delta, z * z);
    var g := Mul(p, gamma, gamma);
    var g' := (y * y) * (y * y);
    HMul(p, gamma, y * y, gamma, y * y);
    var g2 := Add(p, g, g);
    HAdd(p, g, g', g, g');
    var g4 := Add(p, g2, g2);
    HAdd(p, g2, 2 * g', g2, 2 * g');
    HAdd(p, g4, 4 * g', g4, 4 * g');
    HSub(p, beta4, 4 * beta', x3, x3');
    HMul(p, alpha, 3 * t', Sub(p, beta4, x3), 4 * beta' - x3');
    HSub(p, Mul(p, alpha, Sub(p, beta4, x3)), (3 * t') * (4 * beta' - x3'), Add(p, g4, g4), 8 * g');
  }

  /** The cross products of `add`: both points brought to the common denominator z1 z2. */
  function Cross(p: nat, j: Jacobian, k: Jacobian): (nat, nat, nat, nat)
    requires p > 0
  {
    var z1z1, z2z2 := Mul(p, j.z, j.z), Mul(p, k.z, k.z);
    (Mul(p, j.x, z2z2), Mul(p, k.x, z1z1), Mul(p, Mul(p, j.y, k.z), z2z2), Mul(p, Mul(p, k.y, j.z), z1z1))
  }

  /** For points x1, y1 over z1 and x2, y2 over z2, with d = z1 z2, the cross products are x1 d^2, x2 d^2,
      y1 d^3 and y2 d^3. */
  lemma CrossIsPolynomial(p: nat, j: Jacobian, k: Jacobian, x1: int, y1: int, x2: int, y2: int)
    requires p > 0 && InField(p, j) && InField(p, k)
    requires Over(p, j, x1, y1) && Over(p, k, x2, y2)
    ensures var (u1, u2, s1, s2) := Cross(p, j, k);
            var d := j.z * k.z;
            && Cong(p, u1, x1 * (d * d)) && Cong(p, u2, x2 * (d * d))
            && Cong(p, s1, y1 * (d * d * d)) && Cong(p, s2, y2 * (d * d * d))
  {
    hide Cong, Mul;
    var z1, z2 := j.z, k.z;
    CongRefl(p, z1);
    CongRefl(p, z2);
    var z1z1, z2z2 := Mul(p, z1, z1), Mul(p, z2, z2);
    HMul(p, z1, z1, z1, z1);
    HMul(p, z2, z2, z2, z2);
    HMul(p, j.x, x1 * (z1 * z1), z2z2, z2 * z2);
    HMul(p, k.x, x2 * (z2 * z2), z1z1, z1 * z1);
    HMul(p, j.y, y1 * (z1 * z1 * z1), z2, z2);
    HMul(p, Mul(p, j.y, z2), y1 * (z1 * z1 * z1) * z2, z2z2, z2 * z2);
    HMul(p, k.y, y2 * (z2 * z2 * z2), z1, z1);
    HMul(p, Mul(p, k.y, z1), y2 * (z2 * z2 * z2) * z1, z1z1, z1 * z1);
    CrossRegroup(x1, y1, z1, z2);
    CrossRegroup(x2, y2, z2, z1);
    assert z2 * z1 == z1 * z2;
  }

  lemma CrossRegroup(x: int, y: int, z: int, w: int)
    ensures x * (z * z) * (w * w) == x * ((z * w) * (z * w))
    ensures y * (z * z * z) * w * (w * w) == y * ((z * w) * (z * w) * (z * w))
  {
    assert (z * z) * (w * w) == (z * w) * (z * w);
    assert (z * z * z) * (w * w * w) == (z * w) * (z * w) * (z * w);
    assert y * (z * z * z) * w * (w * w) == y * ((z * z * z) * (w * w * w));
  }

  /** The triple stands for (x, y): its coordinates are x z^2 and y z^3. */
  ghost predicate Over(p: nat, j: Jacobian, x: int, y: int)
    requires p > 0
  {
    Cong(p, j.x, x * (j.z * j.z)) && Cong(p, j.y, y * (j.z * j.z * j.z))
  }

  function IntAdd(u1: int, u2: int, s1: int, s2: int, d: int): Triple {
    var h, r := u2 - u1, s2 - s1;
    var v := u1 * (h * h);
    var x := r * r - h * (h * h) - 2 * v;
    Triple(x, r * (v - x) - s1 * (h * (h * h)), d * h)
  }

  lemma AddIsPolynomial(p: nat, j: Jacobian, k: Jacobian, u1': int, u2': int, s1': int, s2': int)
    requires p > 0 && InField(p, j) && InField(p, k) && j.z != 0 && k.z != 0
    requires var (u1, u2, s1, s2) := Cross(p, j, k);
             && Cong(p, u1, u1') && Cong(p, u2, u2') && Cong(p, s1, s1') && Cong(p, s2, s2')
             && Sub(p, u2, u1) != 0
    ensures var r, q := JacAdd(p, j, k), IntAdd(u1', u2', s1', s2', j.z * k.z);
            Cong(p, r.x, q.x) && Cong(p, r.y, q.y) && Cong(p, r.z, q.z)
  {
    hide Cong, Add, Sub, Mul;
    var (u1, u2, s1, s2) := Cross(p, j, k);
    var h, r := Sub(p, u2, u1), Sub(p, s2, s1);
    var h', r' := u2' - u1', s2' - s1';
    HSub(p, u2, u2', u1, u1');
    HSub(p, s2, s2', s1, s1');
    var hh, hh' := Mul(p, h, h), h' * h';
    HMul(p, h, h', h, h');
    var hhh, hhh' := Mul(p, h, hh), h' * hh';
    HMul(p, h, h', hh, hh');
    var v, v' := Mul(p, u1, hh), u1' * hh';
    HMul(p, u1, u1', hh, hh');
    HMul(p, r, r', r, r');
    HSub(p, Mul(p, r, r), r' * r', hhh, hhh');
    HAdd(p, v, v', v, v');
    var x, x' := Sub(p, Sub(p, Mul(p, r, r), hhh), Add(p, v, v)), r' * r' - hhh' - 2 * v';
    HSub(p, Sub(p, Mul(p, r, r), hhh), r' * r' - hhh', Add(p, v, v), 2 * v');
    HSub(p, v, v', x, x');
    HMul(p, r, r', Sub(p, v, x), v' - x');
    HMul(p, s1, s1', hhh, hhh');
    HSub(p, Mul(p, r, Sub(p, v, x)), r' * (v' - x'), Mul(p, s1, hhh), s1' * hhh');
    CongRefl(p, j.z);
    CongRefl(p, k.z);
    HMul(p, j.z, j.z, k.z, k.z);
    HMul(p, Mul(p, j.z, k.z), j.z * k.z, h, h');
  }
}
