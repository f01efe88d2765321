/**
 Points as the code holds them (mcuboot-image/src/p256.rs:230-302): Jacobian triples of Montgomery
 representatives, and the ladder that computes a sum of two multiples with them.
 */
module CurvePoints {
  import opened Arithmetic
  import opened ModArith
  import opened Limbs
  import opened Bits
  import opened Montgomery
  import opened MontField
  import opened Curve
  import opened CurveAgreement
  import opened CurveGroup

  const ZERO: Number := [0, 0, 0, 0, 0, 0, 0, 0]

  lemma ZeroIsZero()
    ensures Val(ZERO) == 0
  {
    ValueZero(ZERO, LIMBS);
  }

  // ----- Field elements

  /** The residue a representative stands for. */
  ghost function Residue(f: Modulus, a: Number): (r: nat)
    requires f.Valid()
    ensures r < f.M()
  {
    Dec(f, Val(a))
  }

  lemma ResidueZeroOnly(f: Modulus, a: Number)
    requires f.Valid() && Reduced(f, a)
    ensures Residue(f, a) == 0 <==> Val(a) == 0
  {
    DecZero(f, Val(a));
  }

  lemma SubIsZero(m: nat, a: nat, b: nat)
    requires a < m && b < m && Sub(m, a, b) == 0
    ensures a == b
  {
    assert Cong(m, a, b);
    CongResidues(m, a, b);
  }

  /** Two reduced representatives of one residue are the same limbs. */
  lemma ResidueInjective(f: Modulus, a: Number, b: Number)
    requires f.Valid() && Reduced(f, a) && Reduced(f, b) && Residue(f, a) == Residue(f, b)
    ensures a == b
  {
    hide Dec;
    var m, x, y := f.M(), Val(a), Val(b);
    DecSum(f, x, y);
    DivModUnique(0, m, 0, 0);
    DecZero(f, Sub(m, x, y));
    SubIsZero(m, x, y);
    ValInjective(a, b);
  }

  method FieldAdd(f: Modulus, a: Number, b: Number) returns (r: Number)
    requires f.Valid() && Reduced(f, a) && Reduced(f, b)
    ensures Reduced(f, r) && Residue(f, r) == Add(f.M(), Residue(f, a), Residue(f, b))
  {
    hide Dec;
    r := AddMod(f, a, b);
    DecSum(f, Val(a), Val(b));
  }

  method FieldSub(f: Modulus, a: Number, b: Number) returns (r: Number)
    requires f.Valid() && Reduced(f, a) && Reduced(f, b)
    ensures Reduced(f, r) && Residue(f, r) == Sub(f.M(), Residue(f, a), Residue(f, b))
  {
    hide Dec;
    r := SubMod(f, a, b);
    DecSum(f, Val(a), Val(b));
  }

  method FieldMul(f: Modulus, a: Number, b: Number) returns (r: Number)
    requires f.Valid() && Reduced(f, a) && Reduced(f, b)
    ensures Reduced(f, r) && Residue(f, r) == Mul(f.M(), Residue(f, a), Residue(f, b))
  {
    r := MulMod(f, a, b);
  }

  // ----- Points

  datatype Point = Point(x: Number, y: Number, z: Number)

  const INFINITY: Point := Point(ZERO, ZERO, ZERO)

  predicate InRange(f: Modulus, a: Point) {
    Reduced(f, a.x) && Reduced(f, a.y) && Reduced(f, a.z)
  }

  ghost function Decode(f: Modulus, a: Point): (r: Jacobian)
    requires f.Valid()
    ensures InField(f.M(), r)
  {
    Jac(Residue(f, a.x), Residue(f, a.y), Residue(f, a.z))
  }

  /** The point of the plane a representation stands for. */
  ghost function Stands(f: Modulus, a: Point): Affine
    requires f.Valid()
  {
    ToAffine(f.M(), Decode(f, a))
  }

  lemma InfinityDecodes(f: Modulus)
    requires f.Valid()
    ensures InRange(f, INFINITY) && Decode(f, INFINITY) == Jac(0, 0, 0)
  {
    ZeroIsZero();
    DecZero(f, 0);
  }

  method Double(f: Modulus, a: Point) returns (r: Point)
    requires f.Valid() && InRange(f, a)
    ensures InRange(f, r) && Decode(f, r) == JacDouble(f.M(), Decode(f, a))
  {
    hide Modulus.Valid, Residue, Add, Sub, Mul, Reduced, Value;
    ResidueZeroOnly(f, a.z);
    var none := IsZero(a.z);
    if none {
      return a;
    }
    var delta := FieldMul(f, a.z, a.z);
    var gamma := FieldMul(f, a.y, a.y);
    var beta := FieldMul(f, a.x, gamma);
    var less := FieldSub(f, a.x, delta);
    var more := FieldAdd(f, a.x, delta);
    var t := FieldMul(f, less, more);
    var t2 := FieldAdd(f, t, t);
    var alpha := FieldAdd(f, t2, t);
    var beta2 := FieldAdd(f, beta, beta);
    var beta4 := FieldAdd(f, beta2, beta2);
    var beta8 := FieldAdd(f, beta4, beta4);
    var alphaSq := FieldMul(f, alpha, alpha);
    var x := FieldSub(f, alphaSq, beta8);
    var yz := FieldAdd(f, a.y, a.z);
    var yzSq := FieldMul(f, yz, yz);
    var rest := FieldSub(f, yzSq, gamma);
    var z := FieldSub(f, rest, delta);
    var gammaSq := FieldMul(f, gamma, gamma);
    var g2 := FieldAdd(f, gammaSq, gammaSq);
    var g4 := FieldAdd(f, g2, g2);
    var g8 := FieldAdd(f, g4, g4);
    var drop := FieldSub(f, beta4, x);
    var rise := FieldMul(f, alpha, drop);
    var y := FieldSub(f, rise, g8);
    r := Point(x, y, z);
  }

  method AddPoints(f: Modulus, a: Point, b: Point) returns (r: Point)
    requires f.Valid() && InRange(f, a) && InRange(f, b)
    ensures InRange(f, r) && Decode(f, r) == JacAdd(f.M(), Decode(f, a), Decode(f, b))
  {
    hide Modulus.Valid, Residue, Add, Sub, Mul, Reduced, Value, JacDouble;
    ResidueZeroOnly(f, a.z);
    ResidueZeroOnly(f, b.z);
    var none := IsZero(a.z);
    if none {
      return b;
    }
    none := IsZero(b.z);
    if none {
      return a;
    }
    var z1z1 := FieldMul(f, a.z, a.z);
    var z2z2 := FieldMul(f, b.z, b.z);
    var u1 := FieldMul(f, a.x, z2z2);
    var u2 := FieldMul(f, b.x, z1z1);
    var y1z2 := FieldMul(f, a.y, b.z);
    var s1 := FieldMul(f, y1z2, z2z2);
    var y2z1 := FieldMul(f, b.y, a.z);
    var s2 := FieldMul(f, y2z1, z1z1);
    var h := FieldSub(f, u2, u1);
    var slope := FieldSub(f, s2, s1);
    ResidueZeroOnly(f, h);
    ResidueZeroOnly(f, slope);
    var sameX := IsZero(h);
    if sameX {
      var sameY := IsZero(slope);
      if sameY {
        r := Double(f, a);
        return;
      }
      InfinityDecodes(f);
      return INFINITY;
    }
    var hh := FieldMul(f, h, h);
    var hhh := FieldMul(f, h, hh);
    var v := FieldMul(f, u1, hh);
    var slopeSq := FieldMul(f, slope, slope);
    var partial := FieldSub(f, slopeSq, hhh);
    var v2 := FieldAdd(f, v, v);
    var x := FieldSub(f, partial, v2);
    var drop := FieldSub(f, v, x);
    var rise := FieldMul(f, slope, drop);
    var base := FieldMul(f, s1, hhh);
    var y := FieldSub(f, rise, base);
    var zz := FieldMul(f, a.z, b.z);
    var z := FieldMul(f, zz, h);
    r := Point(x, y, z);
  }

  // ----- The double-scalar ladder

  lemma BitsOfAddend(p: nat, b1: nat, g: Affine, b2: nat, q: Affine)
    requires p > 2
    ensures Addend(p, b1, g, b2, q) ==
      if b1 != 0 && b2 != 0 then AffAdd(p, g, q) else if b1 != 0 then g else if b2 != 0 then q else Infinity
  {
    AddInfinity(p, g);
    AddInfinity(p, q);
  }

  lemma NoMultiples(p: nat, g: Affine, q: Affine)
    requires p > 2
    ensures Combination(p, 0, g, 0, q) == Infinity
  {}

  lemma StandsForInfinity(f: Modulus)
    requires f.Valid()
    ensures InRange(f, INFINITY) && Stands(f, INFINITY) == Infinity
  {
    InfinityDecodes(f);
  }

  method DoubleStands(f: Modulus, a: Point) returns (r: Point)
    requires f.Valid() && Prime(f.M()) && InRange(f, a)
    ensures InRange(f, r) && Stands(f, r) == AffAdd(f.M(), Stands(f, a), Stands(f, a))
  {
    hide Residue, JacDouble, AffAdd, ToAffine, Prime;
    r := Double(f, a);
    DoubleAgrees(f.M(), Decode(f, a));
  }

  method AddStands(f: Modulus, a: Point, b: Point) returns (r: Point)
    requires f.Valid() && Prime(f.M()) && InRange(f, a) && InRange(f, b)
    ensures InRange(f, r) && Stands(f, r) == AffAdd(f.M(), Stands(f, a), Stands(f, b))
  {
    hide Residue, JacAdd, AffAdd, ToAffine, Prime;
    r := AddPoints(f, a, b);
    AddAgrees(f.M(), Decode(f, a), Decode(f, b));
  }

  /** One step: double, then add what the two bits select. */
  method LadderStep(f: Modulus, ghost b: int, g: Point, q: Point, gq: Point, acc: Point, b1: nat, b2: nat,
                    ghost i: nat, ghost j: nat) returns (r: Point)
    requires f.Valid() && GroupLaw(f.M(), b) && InRange(f, g) && InRange(f, q) && InRange(f, gq) && InRange(f, acc)
    requires OnCurve(f.M(), b, Stands(f, g)) && OnCurve(f.M(), b, Stands(f, q))
    requires Stands(f, gq) == AffAdd(f.M(), Stands(f, g), Stands(f, q)) && b1 <= 1 && b2 <= 1
    requires Stands(f, acc) == Combination(f.M(), i, Stands(f, g), j, Stands(f, q))
    ensures InRange(f, r) && Stands(f, r) == Combination(f.M(), 2 * i + b1, Stands(f, g), 2 * j + b2, Stands(f, q))
  {
    hide Modulus.Valid, Stands, AffAdd, Combination, OnCurve, InRange, Addend, Prime, Value;
    ghost var p, g', q' := f.M(), Stands(f, g), Stands(f, q);
    r := DoubleStands(f, acc);
    CombinationDouble(p, b, i, g', j, q');
    CombinationStep(p, b, 2 * i, b1, g', 2 * j, b2, q');
    BitsOfAddend(p, b1, g', b2, q');
    if b1 != 0 && b2 != 0 {
      r := AddStands(f, r, gq);
    } else if b1 != 0 {
      r := AddStands(f, r, g);
    } else if b2 != 0 {
      r := AddStands(f, r, q);
    } else {
      AddInfinity(p, Stands(f, r));
    }
  }

  /** The ladder computes u1 times G plus u2 times Q, for all scalars. */
  method Ladder(f: Modulus, ghost b: int, g: Point, q: Point, u1: Number, u2: Number) returns (acc: Point)
    requires f.Valid() && GroupLaw(f.M(), b) && InRange(f, g) && InRange(f, q)
    requires OnCurve(f.M(), b, Stands(f, g)) && OnCurve(f.M(), b, Stands(f, q))
    ensures InRange(f, acc)
    ensures Stands(f, acc) == Combination(f.M(), Val(u1), Stands(f, g), Val(u2), Stands(f, q))
  {
    hide Modulus.Valid, Stands, AffAdd, Combination, OnCurve, InRange, Bit, Prime, Value;
    var gq := AddStands(f, g, q);
    acc := INFINITY;
    StandsForInfinity(f);
    NoMultiples(f.M(), Stands(f, g), Stands(f, q));
    var bit := BITS;
    while bit > 0
      invariant 0 <= bit <= BITS && InRange(f, acc)
      invariant Stands(f, acc) == Combination(f.M(), High(u1, bit), Stands(f, g), High(u2, bit), Stands(f, q))
    {
      bit := bit - 1;
      acc := LadderStep(f, b, g, q, gq, acc, Bit(u1, bit), Bit(u2, bit), High(u1, bit + 1), High(u2, bit + 1));
    }
    HighIsVal(u1);
    HighIsVal(u2);
  }
}
