/**
 ECDSA verification (mcuboot-image/src/p256.rs:304-390): public keys are points of the curve, and a
 signature is accepted exactly when section 4.1.4 of SEC 1 version 2.0 accepts it.
 */
module Ecdsa {
  import opened Wrappers
  import opened Bytes
  import opened Arithmetic
  import opened ModArith
  import opened Limbs
  import opened Montgomery
  import opened MontField
  import opened MontInverse
  import opened Curve
  import opened CurveAgreement
  import opened CurveGroup
  import opened CurvePoints

  /** The domain parameters: field, group order, curve coefficient, base point. */
  datatype Domain = Domain(f: Modulus, n: Modulus, b: Number, gx: Number, gy: Number) {
    /** What the constants satisfy: sizes, Montgomery constants, and a base point on the curve. */
    ghost predicate Valid() {
      && f.Valid() && n.Valid()
      && Val(b) < f.M() && OnCurve(f.M(), Val(b), Base())
      && f.M() <= 2 * n.M() && R <= 2 * n.M()
    }

    function Base(): Affine {
      Aff(Val(gx), Val(gy))
    }

    /** The mathematical hypotheses: n is prime, and the curve over the prime p is a group. */
    ghost predicate Lawful() {
      GroupLaw(f.M(), Val(b)) && Prime(n.M())
    }
  }

  datatype VerifyingKey = VerifyingKey(x: Number, y: Number) {
    function Public(): Affine {
      Aff(Val(x), Val(y))
    }
  }

  // ----- Keys

  lemma CurveEquation(p: nat, x: nat, y: nat, b: nat)
    requires p > 0
    ensures Mul(p, y, y) == Add(p, Sub(p, Mul(p, Mul(p, x, x), x), Add(p, Add(p, x, x), x)), b)
            <==> Cong(p, y * y, x * x * x - 3 * x + b)
  {
    hide Cong, Add, Sub, Mul;
    CongRefl(p, x);
    CongRefl(p, y);
    CongRefl(p, b);
    var l := Mul(p, y, y);
    HMul(p, y, y, y, y);
    HMul(p, x, x, x, x);
    HMul(p, Mul(p, x, x), x * x, x, x);
    HAdd(p, x, x, x, x);
    HAdd(p, Add(p, x, x), x + x, x, x);
    var x3, three := Mul(p, Mul(p, x, x), x), Add(p, Add(p, x, x), x);
    HSub(p, x3, x * x * x, three, 3 * x);
    var r := Add(p, Sub(p, x3, three), b);
    HAdd(p, Sub(p, x3, three), x * x * x - 3 * x, b, b);
    ResiduesOf(p, l, y * y, r, x * x * x - 3 * x + b);
  }

  lemma ResiduesOf(p: nat, l: nat, l': int, r: nat, r': int)
    requires l < p && r < p && Cong(p, l, l') && Cong(p, r, r')
    ensures l == r <==> Cong(p, l', r')
  {
    hide Cong;
    CongSym(p, l, l');
    CongSym(p, r, r');
    if l == r {
      CongTrans(p, l', l, r');
    } else if Cong(p, l', r') {
      CongTrans(p, l, l', r');
      CongTrans(p, l, r', r);
      CongResidues(p, l, r);
    }
  }

  /** `from_xy` accepts exactly the encodings of points of the curve. */
  method FromXY(d: Domain, xy: seq<byte>) returns (key: Option<VerifyingKey>)
    requires d.Valid() && |xy| == 64
    ensures var point := Aff(BigEndian(xy[..32]), BigEndian(xy[32..]));
            && (key.Some? <==> OnCurve(d.f.M(), Val(d.b), point))
            && (key.Some? ==> key.value.Public() == point)
  {
    hide Value, Cong, Add, Sub, Mul, Modulus.Valid, Residue, BigEndian;
    var f := d.f;
    var x := FromBe(xy[..32]);
    var y := FromBe(xy[32..]);
    var xFits := Less(x, f.m);
    var yFits := Less(y, f.m);
    if !xFits || !yFits {
      return None;
    }
    var lhs, rhs := CurveSides(f, d.b, x, y);
    CurveEquation(f.M(), Val(x), Val(y), Val(d.b));
    if Residue(f, lhs) == Residue(f, rhs) { ResidueInjective(f, lhs, rhs); }
    key := if lhs == rhs then Some(VerifyingKey(x, y)) else None;
  }

  /** The two sides of the curve equation. */
  method CurveSides(f: Modulus, b: Number, x: Number, y: Number) returns (lhs: Number, rhs: Number)
    requires f.Valid() && Reduced(f, x) && Reduced(f, y) && Reduced(f, b)
    ensures Reduced(f, lhs) && Reduced(f, rhs) && Residue(f, lhs) == Mul(f.M(), Val(y), Val(y))
    ensures var p, v := f.M(), Val(x) as int;
            Residue(f, rhs) == Add(p, Sub(p, Mul(p, Mul(p, v, v), v), Add(p, Add(p, v, v), v)), Val(b))
  {
    hide Value, Add, Sub, Mul, Modulus.Valid;
    var xm := EnterMont(f, x);
    var ym := EnterMont(f, y);
    lhs := FieldMul(f, ym, ym);
    var x2 := FieldMul(f, xm, xm);
    var x3 := FieldMul(f, x2, xm);
    var twoX := FieldAdd(f, xm, xm);
    var threeX := FieldAdd(f, twoX, xm);
    var cubic := FieldSub(f, x3, threeX);
    var bm := EnterMont(f, b);
    rhs := FieldAdd(f, cubic, bm);
  }

  // ----- The standard

  /** Steps 4 to 8 of section 4.1.4 for the inverse `w` of s. */
  predicate PointMatches(p: nat, n: nat, g: Affine, q: Affine, e: nat, r: nat, w: nat)
    requires p > 2 && n > 0
  {
    var point := Combination(p, Mul(n, e, w), g, Mul(n, r, w), q);
    point.Aff? && point.x % n == r
  }

  /** Section 4.1.4 of SEC 1 version 2.0, for a digest as long as the group order. */
  ghost predicate SecAccepts(p: nat, n: nat, g: Affine, q: Affine, e: nat, r: nat, s: nat)
    requires p > 2 && n > 0
  {
    && 1 <= r < n && 1 <= s < n
    && exists w: nat :: w < n && Mul(n, s, w) == 1 && PointMatches(p, n, g, q, e, r, w)
  }

  /** There is one inverse, and `Inverse` is it. */
  lemma OneInverse(n: nat, s: nat)
    requires Prime(n) && n > 2 && 1 <= s < n
    ensures Mul(n, s, Inverse(n, s)) == 1
    ensures forall w: nat :: w < n && Mul(n, s, w) == 1 ==> w == Inverse(n, s)
  {
    hide Prime, Cong, Inverse;
    var i := Inverse(n, s);
    NotZero(n, s);
    InverseIsInverse(n, s);
    DivModUnique(1, n, 0, 1);
    CongIsModEq(n, s * i, 1);
    forall w: nat | w < n && Mul(n, s, w) == 1 ensures w == i {
      CongIsModEq(n, s * w, s * i);
      Cancel(n, s, w, i);
      CongResidues(n, w, i);
    }
  }

  lemma AcceptsByInverse(p: nat, n: nat, g: Affine, q: Affine, e: nat, r: nat, s: nat)
    requires p > 2 && Prime(n) && n > 2 && 1 <= s < n && 1 <= r < n
    ensures SecAccepts(p, n, g, q, e, r, s) <==> PointMatches(p, n, g, q, e, r, Inverse(n, s))
  {
    hide Prime, Inverse, PointMatches, Mul;
    OneInverse(n, s);
  }

  // ----- The code

  /** One conditional subtraction reduces any number below twice the modulus. */
  method ReduceOnce(n: Modulus, a: Number) returns (r: Number)
    requires n.Valid() && Val(a) < 2 * n.M()
    ensures Val(r) == Val(a) % n.M()
  {
    var below := Less(a, n.m);
    if below {
      DivModUnique(Val(a), n.M(), 0, Val(a));
      return a;
    }
    var limbs := new u32[8](i requires 0 <= i < 8 => a[i]);
    assert limbs[..] == a;
    var borrowed := SubInPlace(limbs, n.m);
    ValBound(limbs[..]);
    DivModUnique(Val(a), n.M(), 1, Val(a) - n.M());
    r := limbs[..];
  }

  lemma StandsForAffine(f: Modulus, a: Point, x: nat, y: nat)
    requires f.Valid() && Prime(f.M()) && x < f.M() && y < f.M()
    requires Residue(f, a.x) == x && Residue(f, a.y) == y && Residue(f, a.z) == 1
    ensures Stands(f, a) == Aff(x, y)
  {
    hide Residue, Prime, ToAffine, Cong;
    CongRefl(f.M(), x);
    CongRefl(f.M(), y);
    OverUnique(f.M(), Decode(f, a), Aff(x, y));
  }

  /** The representation of an affine point. */
  method Represent(f: Modulus, x: Number, y: Number) returns (r: Point)
    requires f.Valid() && Prime(f.M()) && Reduced(f, x) && Reduced(f, y)
    ensures InRange(f, r) && Stands(f, r) == Aff(Val(x), Val(y))
  {
    hide Prime, Value;
    OneIsOne();
    var one := EnterMont(f, ONE);
    var xm := EnterMont(f, x);
    var ym := EnterMont(f, y);
    r := Point(xm, ym, one);
    StandsForAffine(f, r, Val(x), Val(y));
  }

  /** The scalars: e / s and r / s modulo n. */
  method Scalars(n: Modulus, e: Number, r: Number, s: Number) returns (u1: Number, u2: Number)
    requires n.Valid() && Reduced(n, e) && Reduced(n, r) && Reduced(n, s)
    ensures Val(u1) == Mul(n.M(), Val(e), Inverse(n.M(), Val(s)))
    ensures Val(u2) == Mul(n.M(), Val(r), Inverse(n.M(), Val(s)))
  {
    hide Modulus.Valid, Value, Inverse, Mul;
    var sm := EnterMont(n, s);
    var w := Invert(n, sm);
    u1 := MulPlain(n, e, w);
    u2 := MulPlain(n, r, w);
  }

  /** The affine abscissa of a point that is not at infinity. */
  method Abscissa(f: Modulus, a: Point) returns (x: Number)
    requires f.Valid() && InRange(f, a) && Stands(f, a).Aff?
    ensures Val(x) == Stands(f, a).x < f.M()
  {
    hide Modulus.Valid, Value, Inverse, Mul;
    var zInv := Invert(f, a.z);
    var zInv2 := FieldMul(f, zInv, zInv);
    var xm := FieldMul(f, a.x, zInv2);
    x := LeaveMont(f, xm);
  }

  lemma ReducedFactor(n: nat, e: int, w: int)
    requires n > 0
    ensures Mul(n, e % n, w) == Mul(n, e, w)
  {
    CongMod(n, e);
    CongRefl(n, w);
    CongMul(n, e % n, e, w, w);
    CongIsModEq(n, (e % n) * w, e * w);
  }

  /** The ladder's point decides. */
  method Matches(d: Domain, acc: Point, r: Number) returns (ok: bool)
    requires d.Valid() && InRange(d.f, acc)
    ensures ok <==> var point := Stands(d.f, acc); point.Aff? && point.x % d.n.M() == Val(r)
  {
    hide Value, Residue;
    ResidueZeroOnly(d.f, acc.z);
    AffineInfinity(d.f.M(), Decode(d.f, acc));
    var none := IsZero(acc.z);
    if none {
      return false;
    }
    var x := Abscissa(d.f, acc);
    x := ReduceOnce(d.n, x);
    if Val(x) == Val(r) { ValInjective(x, r); }
    ok := x == r;
  }

  /** `verify_prehash` accepts exactly when the standard does. */
  method VerifyPrehash(d: Domain, key: VerifyingKey, digest: seq<byte>, rBytes: seq<byte>, sBytes: seq<byte>)
    returns (ok: bool)
    requires d.Valid() && d.Lawful() && OnCurve(d.f.M(), Val(d.b), key.Public())
    requires |digest| == |rBytes| == |sBytes| == 32
    ensures ok <==>
              SecAccepts(d.f.M(), d.n.M(), d.Base(), key.Public(),
                         BigEndian(digest), BigEndian(rBytes), BigEndian(sBytes))
  {
    hide Modulus.Valid, Value, Prime, Stands, Combination, Inverse, Mul, Cong, BigEndian;
    var f, n := d.f, d.n;
    var r := FromBe(rBytes);
    var s := FromBe(sBytes);
    var rZero := IsZero(r);
    var sZero := IsZero(s);
    var rFits := Less(r, n.m);
    var sFits := Less(s, n.m);
    if rZero || sZero || !rFits || !sFits {
      return false;
    }
    var z := FromBe(digest);
    ValBound(z);
    var e := ReduceOnce(n, z);
    var u1, u2 := Scalars(n, e, r, s);
    ReducedFactor(n.M(), Val(z), Inverse(n.M(), Val(s)));
    var g := Represent(f, d.gx, d.gy);
    var q := Represent(f, key.x, key.y);
    var acc := Ladder(f, Val(d.b), g, q, u1, u2);
    ok := Matches(d, acc, r);
    AcceptsByInverse(f.M(), n.M(), d.Base(), key.Public(), Val(z), Val(r), Val(s));
  }
}
