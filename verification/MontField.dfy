/**
 Arithmetic modulo m on Montgomery representatives (mcuboot-image/src/p256.rs:151-228): what each
 operation of `Modulus` does to the residues that its arguments stand for.
 */
module MontField {
  import opened Arithmetic
  import opened ModArith
  import opened Limbs
  import opened Bits
  import opened Montgomery

  const ONE: Number := [1, 0, 0, 0, 0, 0, 0, 0]

  lemma OneIsOne()
    ensures Val(ONE) == 1
  {}

  /** A reduced number: the representatives the code works with. */
  predicate Reduced(mod: Modulus, a: Number) {
    Val(a) < mod.M()
  }

  // ----- Addition and subtraction

  method AddMod(mod: Modulus, a: Number, b: Number) returns (r: Number)
    requires mod.Valid() && Reduced(mod, a) && Reduced(mod, b)
    ensures Val(r) == Add(mod.M(), Val(a), Val(b))
  {
    var sum := new u32[8](i requires 0 <= i < 8 => a[i]);
    assert sum[..] == a;
    var carried := AddInPlace(sum, b);
    var below := Less(sum[..], mod.m);
    ghost var s := Val(a) + Val(b);
    ValBound(sum[..]);
    ValBound(mod.m);
    if carried || !below {
      ghost var partial := sum[..];
      var borrowed := SubInPlace(sum, mod.m);
      ValBound(sum[..]);
      assert Val(sum[..]) == s - mod.M();
      DivModUnique(s, mod.M(), 1, s - mod.M());
    } else {
      DivModUnique(s, mod.M(), 0, s);
    }
    r := sum[..];
  }

  method SubMod(mod: Modulus, a: Number, b: Number) returns (r: Number)
    requires mod.Valid() && Reduced(mod, a) && Reduced(mod, b)
    ensures Val(r) == Sub(mod.M(), Val(a), Val(b))
  {
    var difference := new u32[8](i requires 0 <= i < 8 => a[i]);
    assert difference[..] == a;
    var borrowed := SubInPlace(difference, b);
    ghost var s := Val(a) - Val(b);
    ValBound(difference[..]);
    ValBound(mod.m);
    if borrowed {
      var carried := AddInPlace(difference, mod.m);
      ValBound(difference[..]);
      assert Val(difference[..]) == s + mod.M();
      DivModUnique(s, mod.M(), -1, s + mod.M());
    } else {
      DivModUnique(s, mod.M(), 0, s);
    }
    r := difference[..];
  }

  // ----- What a representative stands for

  /** From the constant `mInv`: BASE has an inverse modulo m. */
  lemma BaseInvertible(mod: Modulus) returns (t: nat)
    requires mod.Valid()
    ensures Cong(mod.M(), BASE * t, 1)
  {
    hide Cong;
    FromIsValue(mod.m, 0);
    var m0: int, f: int, v: int := mod.m[0], From(mod.m, 1), mod.mInv;
    assert mod.M() == m0 + BASE * f;
    var c := (m0 * v + 1) / BASE;
    assert m0 * v + 1 == BASE * c;
    t := c + f * v;
    InverseOfBase(mod.M(), m0, f, v, c);
    CongBy(mod.M(), BASE * t, 1, v);
  }

  lemma InverseOfBase(m: int, m0: int, f: int, v: int, c: int)
    requires m == m0 + BASE * f && m0 * v + 1 == BASE * c
    ensures BASE * (c + f * v) - 1 == v * m
  {
    assert v * m == m0 * v + BASE * (f * v);
  }

  lemma {:induction false} WeightInvertible(m: nat, t: nat, n: nat)
    requires m > 0 && Cong(m, BASE * t, 1)
    ensures Cong(m, Weight(n) * Power(t, n), 1)
  {
    hide Cong;
    if n == 0 {
      CongRefl(m, 1);
    } else {
      WeightInvertible(m, t, n - 1);
      var w, p := Weight(n - 1), Power(t, n - 1);
      CongMul(m, BASE * t, 1, w * p, 1);
      assert (BASE * t) * (w * p) == (BASE * w) * (t * p);
    }
  }

  ghost predicate InverseOfRadix(mod: Modulus, i: nat)
    requires mod.M() > 0
  {
    i < mod.M() && Cong(mod.M(), R * i, 1)
  }

  lemma RadixInvertible(mod: Modulus)
    requires mod.Valid()
    ensures exists i: nat :: InverseOfRadix(mod, i)
  {
    hide Cong, Value, Weight, Power;
    var m := mod.M();
    var t := BaseInvertible(mod);
    WeightInvertible(m, t, LIMBS);
    RadixIsWeight();
    var p := Power(t, LIMBS);
    CongMod(m, p);
    CongRefl(m, R);
    CongMul(m, R, R, p % m, p);
    CongTrans(m, R * (p % m), R * p, 1);
    assert InverseOfRadix(mod, p % m);
  }

  /** The inverse of R. */
  ghost function Rho(mod: Modulus): (i: nat)
    requires mod.Valid()
    ensures i < mod.M() && Cong(mod.M(), R * i, 1)
  {
    RadixInvertible(mod);
    var i: nat :| InverseOfRadix(mod, i);
    i
  }

  /** The residue that the representative `x` stands for: x divided by R. */
  ghost function Dec(mod: Modulus, x: nat): (r: nat)
    requires mod.Valid()
    ensures r < mod.M()
  {
    (x * Rho(mod)) % mod.M()
  }

  lemma DecCong(mod: Modulus, x: nat)
    requires mod.Valid()
    ensures Cong(mod.M(), Dec(mod, x), x * Rho(mod))
  {
    CongMod(mod.M(), x * Rho(mod));
  }

  /** Multiplying by a unit and then by its inverse changes nothing. */
  lemma UnitCancels(m: nat, q: int, i: int, x: int)
    requires m > 0 && Cong(m, q * i, 1)
    ensures Cong(m, x * q * i, x)
  {
    hide Cong;
    CongRefl(m, x);
    CongMul(m, x, x, q * i, 1);
    assert x * (q * i) == x * q * i && x * 1 == x;
  }

  /** Dividing both sides of r * q = a * b by the unit q. */
  lemma DivideByUnit(m: nat, q: int, i: int, r: int, a: int, b: int)
    requires m > 0 && Cong(m, q * i, 1) && Cong(m, r * q, a * b)
    ensures Cong(m, r, a * (b * i))
  {
    hide Cong;
    CongRefl(m, i);
    CongMul(m, r * q, a * b, i, i);
    UnitCancels(m, q, i, r);
    CongSym(m, r * q * i, r);
    CongTrans(m, r, r * q * i, a * b * i);
    assert a * (b * i) == a * b * i;
  }

  /** What r * R congruent to a * b says about residues. */
  lemma DecMul(mod: Modulus, a: nat, b: nat, r: nat)
    requires mod.Valid() && Cong(mod.M(), r * R, a * b)
    ensures Dec(mod, r) == Mul(mod.M(), Dec(mod, a), Dec(mod, b))
    ensures Cong(mod.M(), r, a * Dec(mod, b))
  {
    hide Cong, Dec;
    var m, i := mod.M(), Rho(mod);
    DivideByUnit(m, R, i, r, a, b);
    DecCong(mod, b);
    CongSym(m, Dec(mod, b), b * i);
    CongRefl(m, a);
    CongMul(m, a, a, b * i, Dec(mod, b));
    CongTrans(m, r, a * (b * i), a * Dec(mod, b));
    DecTimes(mod, a, Dec(mod, b), r);
  }

  lemma DecTimes(mod: Modulus, a: nat, d: nat, r: nat)
    requires mod.Valid() && Cong(mod.M(), r, a * d)
    ensures Dec(mod, r) == Mul(mod.M(), Dec(mod, a), d)
  {
    hide Cong, Dec;
    var m, i := mod.M(), Rho(mod);
    DecCong(mod, a);
    DecCong(mod, r);
    TimesUnit(m, i, r, a, d, Dec(mod, a));
    CongTrans(m, Dec(mod, r), r * i, Dec(mod, a) * d);
    CongMod(m, Dec(mod, a) * d);
    CongTrans(m, Dec(mod, r), Dec(mod, a) * d, Mul(m, Dec(mod, a), d));
    CongResidues(m, Dec(mod, r), Mul(m, Dec(mod, a), d));
  }

  lemma TimesUnit(m: nat, i: int, r: int, a: int, d: int, x: int)
    requires m > 0 && Cong(m, r, a * d) && Cong(m, x, a * i)
    ensures Cong(m, r * i, x * d)
  {
    hide Cong;
    CongRefl(m, i);
    CongMul(m, r, a * d, i, i);
    CongSym(m, x, a * i);
    CongRefl(m, d);
    CongMul(m, a * i, x, d, d);
    assert a * d * i == a * i * d;
    CongTrans(m, r * i, a * d * i, x * d);
  }

  lemma DecSum(mod: Modulus, a: nat, b: nat)
    requires mod.Valid()
    ensures Dec(mod, Add(mod.M(), a, b)) == Add(mod.M(), Dec(mod, a), Dec(mod, b))
    ensures Dec(mod, Sub(mod.M(), a, b)) == Sub(mod.M(), Dec(mod, a), Dec(mod, b))
  {
    hide Cong, Dec;
    var m, i := mod.M(), Rho(mod);
    DecCong(mod, a);
    DecCong(mod, b);
    CongAdd(m, Dec(mod, a), a * i, Dec(mod, b), b * i);
    Distribute(a, b, i);
    DecOf(mod, a + b, Dec(mod, a) + Dec(mod, b));
    DecOf(mod, a - b, Dec(mod, a) - Dec(mod, b));
  }

  lemma Distribute(a: int, b: int, i: int)
    ensures a * i + b * i == (a + b) * i && a * i - b * i == (a - b) * i
  {}

  lemma DecOf(mod: Modulus, x: int, y: int)
    requires mod.Valid() && Cong(mod.M(), y, x * Rho(mod))
    ensures Dec(mod, x % mod.M()) == y % mod.M()
  {
    hide Cong, Dec;
    var m, i := mod.M(), Rho(mod);
    CongMod(m, x);
    CongRefl(m, i);
    CongMul(m, x % m, x, i, i);
    DecCong(mod, x % m);
    CongTrans(m, Dec(mod, x % m), (x % m) * i, x * i);
    CongSym(m, y, x * i);
    CongTrans(m, Dec(mod, x % m), x * i, y);
    CongMod(m, y);
    CongTrans(m, Dec(mod, x % m), y, y % m);
    CongResidues(m, Dec(mod, x % m), y % m);
  }

  lemma ZeroTimesUnit(m: nat, q: int, i: int, x: int)
    requires m > 0 && Cong(m, q * i, 1) && Cong(m, 0, x * i)
    ensures Cong(m, x, 0)
  {
    hide Cong;
    CongSym(m, 0, x * i);
    CongRefl(m, q);
    CongMul(m, x * i, 0, q, q);
    assert x * i * q == x * q * i && 0 * q == 0;
    UnitCancels(m, q, i, x);
    CongSym(m, x * q * i, x);
    CongTrans(m, x, x * q * i, 0);
  }

  /** Only zero stands for zero. */
  lemma DecZero(mod: Modulus, x: nat)
    requires mod.Valid() && x < mod.M()
    ensures Dec(mod, x) == 0 <==> x == 0
  {
    hide Cong;
    var m, i := mod.M(), Rho(mod);
    if x == 0 {
      DivModUnique(0, m, 0, 0);
    } else if Dec(mod, x) == 0 {
      DecCong(mod, x);
      ZeroTimesUnit(m, R, i, x);
      CongResidues(m, x, 0);
    }
  }

  // ----- The operations

  /** `mul`, on residues. */
  method MulMod(mod: Modulus, a: Number, b: Number) returns (r: Number)
    requires mod.Valid() && Reduced(mod, a) && Reduced(mod, b)
    ensures Reduced(mod, r) && Dec(mod, Val(r)) == Mul(mod.M(), Dec(mod, Val(a)), Dec(mod, Val(b)))
  {
    r := MulMont(mod, a, b);
    DecMul(mod, Val(a), Val(b), Val(r));
  }

  /** `mul` of a plain number by a representative is the plain product of the residues. */
  method MulPlain(mod: Modulus, a: Number, b: Number) returns (r: Number)
    requires mod.Valid() && Reduced(mod, a) && Reduced(mod, b)
    ensures Val(r) == Mul(mod.M(), Val(a), Dec(mod, Val(b)))
  {
    hide Cong;
    r := MulMont(mod, a, b);
    DecMul(mod, Val(a), Val(b), Val(r));
    CongToMod(mod.M(), Val(r), Val(a) * Dec(mod, Val(b)));
  }

  lemma CongToMod(m: nat, r: nat, x: int)
    requires r < m && Cong(m, r, x)
    ensures r == x % m
  {
    CongMod(m, x);
    CongTrans(m, r, x, x % m);
    CongResidues(m, r, x % m);
  }

  /** `enter_mont`: the representative of a plain residue. */
  method EnterMont(mod: Modulus, a: Number) returns (r: Number)
    requires mod.Valid() && Reduced(mod, a)
    ensures Reduced(mod, r) && Dec(mod, Val(r)) == Val(a)
  {
    r := MulMont(mod, a, mod.r2);
    EnterDecodes(mod, Val(a), Val(r));
  }

  lemma EnterDecodes(mod: Modulus, a: nat, r: nat)
    requires mod.Valid() && a < mod.M() && Cong(mod.M(), r * R, a * Val(mod.r2))
    ensures Dec(mod, r) == a
  {
    hide Cong, Dec;
    var m, i := mod.M(), Rho(mod);
    R2Decodes(mod);
    EnterArith(m, R, i, a, r, Val(mod.r2));
    DecCong(mod, r);
    CongTrans(m, Dec(mod, r), r * i, a);
    CongResidues(m, Dec(mod, r), a);
  }

  lemma R2Decodes(mod: Modulus)
    requires mod.Valid()
    ensures Cong(mod.M(), Val(mod.r2), R * R)
  {}

  lemma EnterArith(m: nat, q: int, i: int, a: int, r: int, r2: int)
    requires m > 0 && Cong(m, q * i, 1) && Cong(m, r * q, a * r2) && Cong(m, r2, q * q)
    ensures Cong(m, r * i, a)
  {
    hide Cong;
    // r = a (r2 i) = a q; r i = a q i = a
    DivideByUnit(m, q, i, r, a, r2);
    CongRefl(m, i);
    CongMul(m, r2, q * q, i, i);
    UnitCancels(m, q, i, q);
    CongTrans(m, r2 * i, q * q * i, q);
    CongRefl(m, a);
    CongMul(m, a, a, r2 * i, q);
    CongTrans(m, r, a * (r2 * i), a * q);
    CongMul(m, r, a * q, i, i);
    UnitCancels(m, q, i, a);
    CongTrans(m, r * i, a * q * i, a);
  }

  /** `leave_mont`: the plain residue of a representative. */
  method LeaveMont(mod: Modulus, a: Number) returns (r: Number)
    requires mod.Valid() && Reduced(mod, a)
    ensures Val(r) == Dec(mod, Val(a))
  {
    hide Cong;
    r := MulMont(mod, a, ONE);
    OneIsOne();
    DecMul(mod, 1, Val(a), Val(r));
    CongToMod(mod.M(), Val(r), 1 * Dec(mod, Val(a)));
    DivModUnique(Dec(mod, Val(a)), mod.M(), 0, Dec(mod, Val(a)));
  }
}
