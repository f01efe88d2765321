/** The bits of a 256-bit number, read from the top as the exponentiation and the ladder read them. */
module Bits {
  import opened Arithmetic
  import opened Limbs

  const BITS: nat := 256

  function Pow2(n: nat): (r: nat)
    ensures r > 0
  {
    if n == 0 then 1 else 2 * Pow2(n - 1)
  }

  /** `(e[bit / 32] >> (bit % 32)) & 1`. */
  function Bit(e: Number, bit: nat): (r: nat)
    requires bit < BITS
    ensures r <= 1
  {
    e[bit / 32] / Pow2(bit % 32) % 2
  }

  /** The number made of the bits from `bit` up. */
  function High(e: Number, bit: nat): nat
    requires bit <= BITS
    decreases BITS - bit, |e|
  {
    if bit == BITS then 0 else 2 * High(e, bit + 1) + Bit(e, bit)
  }

  /** The number made of the limbs from `i` up. */
  function From(e: Number, i: nat): nat
    requires i <= LIMBS
    decreases LIMBS - i, |e|
  {
    if i == LIMBS then 0 else e[i] + BASE * From(e, i + 1)
  }

  lemma {:induction false} FromIsValue(e: Number, i: nat)
    requires i <= LIMBS
    ensures Value(e, i) + Weight(i) * From(e, i) == Val(e)
    decreases LIMBS - i
  {
    if i < LIMBS {
      FromIsValue(e, i + 1);
      TakeLimb(Weight(i), e[i], From(e, i + 1));
    }
  }

  lemma TakeLimb(w: int, x: int, f: int)
    ensures w * (x + BASE * f) == x * w + (BASE * w) * f
  {}

  lemma HalfOfQuotient(x: nat, d: nat)
    requires d > 0
    ensures x / d == 2 * (x / (2 * d)) + x / d % 2
  {
    var q := x / d;
    var r := x % d;
    assert x == q * d + r;
    var q', b := q / 2, q % 2;
    assert q * d == q' * (2 * d) + b * d;
    assert b * d + r < 2 * d;
    DivModUnique(x, 2 * d, q', b * d + r);
  }

  lemma Pow2Is32()
    ensures Pow2(32) == BASE
  {
    assert Pow2(8) == 0x100;
    assert Pow2(16) == 0x1_0000;
    assert Pow2(24) == 0x100_0000;
  }

  lemma BitOfLimb(e: Number, i: nat, j: nat)
    requires i < LIMBS && j < 32
    ensures Bit(e, 32 * i + j) == e[i] / Pow2(j) % 2
  {
    DivModUnique(32 * i + j, 32, i, j);
  }

  lemma HighStep(f: nat, x: nat, j: nat, high: nat, bit: nat)
    requires j < 32 && high == f * Pow2(31 - j) + x / Pow2(j + 1) && bit == x / Pow2(j) % 2
    ensures 2 * high + bit == f * Pow2(32 - j) + x / Pow2(j)
  {
    HalfOfQuotient(x, Pow2(j));
    var p := Pow2(31 - j);
    assert Pow2(32 - j) == 2 * p;
    assert 2 * (f * p) == f * (2 * p);
  }

  lemma {:induction false} HighOfLimb(e: Number, i: nat, j: nat)
    requires i < LIMBS && j <= 32
    ensures High(e, 32 * i + j) == From(e, i + 1) * Pow2(32 - j) + e[i] / Pow2(j)
    decreases LIMBS - i, 32 - j
  {
    hide Bit, Pow2;
    if j < 32 {
      HighOfLimb(e, i, j + 1);
      BitOfLimb(e, i, j);
      HighStep(From(e, i + 1), e[i], j, High(e, 32 * i + j + 1), Bit(e, 32 * i + j));
    } else {
      TopOfLimb(e[i]);
      if i + 1 < LIMBS { HighOfLimb(e, i + 1, 0); }
    }
  }

  lemma TopOfLimb(x: u32)
    ensures x / Pow2(32) == 0 && Pow2(0) == 1 && Pow2(32) == BASE
    ensures x / Pow2(0) == x
  {
    Pow2Is32();
    DivModUnique(x, BASE, 0, x);
  }

  /** All the bits together are the number. */
  lemma HighIsVal(e: Number)
    ensures High(e, 0) == Val(e)
  {
    HighOfLimb(e, 0, 0);
    Pow2Is32();
    FromIsValue(e, 0);
  }
}
