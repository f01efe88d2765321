/**
 Inversion by Fermat exponentiation (mcuboot-image/src/p256.rs:213-227): the square-and-multiply loop
 raises to the power m - 2, and for a prime m that is the inverse.
 */
module MontInverse {
  import opened Arithmetic
  import opened ModArith
  import opened Limbs
  import opened Bits
  import opened Montgomery
  import opened MontField
  import opened Fermat

  /** The inverse of d modulo p as the code computes it; zero for zero. */
  function Inverse(p: nat, d: int): (r: int)
    requires p > 2
    ensures 0 <= r < p
  {
    Power(d, p - 2) % p
  }

  lemma InverseIsInverse(p: nat, d: int)
    requires Prime(p) && p > 2 && !Cong(p, d, 0)
    ensures Cong(p, d * Inverse(p, d), 1)
  {
    hide Cong, Prime;
    InverseByPower(d, p);
    CongMod(p, Power(d, p - 2));
    CongRefl(p, d);
    CongMul(p, d, d, Inverse(p, d), Power(d, p - 2));
    CongTrans(p, d * Inverse(p, d), d * Power(d, p - 2), 1);
  }

  lemma {:induction false} LowLimbLess(s: Number, t: Number, n: nat)
    requires 0 < n <= LIMBS && t[0] as int + 2 == s[0] as int && forall i :: 1 <= i < LIMBS ==> t[i] == s[i]
    ensures Value(t, n) == Value(s, n) - 2
  {
    if n > 1 { LowLimbLess(s, t, n - 1); } else { assert Weight(0) == 1; }
  }

  lemma PowerDoubles(m: nat, d: int, h: nat)
    requires m > 0
    ensures Mul(m, Power(d, h) % m, Power(d, h) % m) == Power(d, 2 * h) % m
    ensures Mul(m, Power(d, 2 * h) % m, d) == Power(d, 2 * h + 1) % m
  {
    hide Cong, Power;
    var p, p2 := Power(d, h), Power(d, 2 * h);
    PowerAdd(d, h, h);
    CongMod(m, p);
    CongMul(m, p % m, p, p % m, p);
    CongIsModEq(m, (p % m) * (p % m), p2);
    CongMod(m, p2);
    CongRefl(m, d);
    CongMul(m, p2 % m, p2, d, d);
    PowerNext(d, 2 * h);
    CongIsModEq(m, (p2 % m) * d, Power(d, 2 * h + 1));
  }

  lemma PowerNext(d: int, n: nat)
    ensures Power(d, n + 1) == Power(d, n) * d
  {}

  /** `invert`: the representative of the residue's power m - 2. */
  method Invert(mod: Modulus, a: Number) returns (r: Number)
    requires mod.Valid() && Reduced(mod, a)
    ensures Reduced(mod, r) && Dec(mod, Val(r)) == Inverse(mod.M(), Dec(mod, Val(a)))
  {
    hide Cong, Value, Power, Dec;
    var low: u32 := mod.m[0] - 2;
    var exponent: Number := mod.m[0 := low];
    LowLimbLess(mod.m, exponent, LIMBS);
    ghost var m, d := mod.M(), Dec(mod, Val(a));
    OneIsOne();
    r := EnterMont(mod, ONE);
    PowerZero(m, d);
    var bit := BITS;
    while bit > 0
      invariant 0 <= bit <= BITS && Reduced(mod, r)
      invariant Dec(mod, Val(r)) == Power(d, High(exponent, bit)) % m
    {
      bit := bit - 1;
      ghost var h := High(exponent, bit + 1);
      PowerDoubles(m, d, h);
      r := MulMod(mod, r, r);
      if Bit(exponent, bit) != 0 {
        r := MulMod(mod, r, a);
      }
    }
    HighIsVal(exponent);
  }

  lemma PowerZero(m: nat, d: int)
    requires m > 1
    ensures 1 == Power(d, 0) % m
  {
    DivModUnique(1, m, 0, 1);
  }
}
