/** Division, rounding and alignment facts that the solver needs to be led through. */
module Arithmetic {

  lemma MulMonotone(a: int, b: int, c: int)
    requires a <= b && 0 <= c
    ensures a * c <= b * c
  {}

  /** Quotient and remainder are the only ones. */
  lemma DivModUnique(x: int, unit: int, q: int, r: int)
    requires unit > 0 && x == q * unit + r && 0 <= r < unit
    ensures x / unit == q && x % unit == r
  {
    var q', r' := x / unit, x % unit;
    assert x == q' * unit + r';
    if q < q' {
      MulMonotone(q + 1, q', unit);
      assert false;
    }
    if q' < q {
      MulMonotone(q' + 1, q, unit);
      assert false;
    }
  }

  lemma MultipleMod(k: int, unit: int)
    requires unit > 0
    ensures (k * unit) % unit == 0 && (k * unit) / unit == k
  {
    DivModUnique(k * unit, unit, k, 0);
  }

  // ----- Alignment

  predicate Aligned(x: nat, unit: nat) {
    unit > 0 && x % unit == 0
  }

  /** `len.div_ceil(unit) * unit`. */
  function RoundUp(len: nat, unit: nat): nat
    requires unit > 0
  {
    (len + unit - 1) / unit * unit
  }

  lemma AlignedAdd(x: nat, y: nat, unit: nat)
    requires Aligned(x, unit) && Aligned(y, unit)
    ensures Aligned(x + y, unit)
    ensures x >= y ==> Aligned(x - y, unit)
  {
    var a, b := x / unit, y / unit;
    assert x == a * unit && y == b * unit;
    assert x + y == (a + b) * unit && x - y == (a - b) * unit;
    MultipleMod(a + b, unit);
    MultipleMod(a - b, unit);
  }

  lemma AlignedTrans(x: nat, big: nat, small: nat)
    requires Aligned(x, big) && Aligned(big, small)
    ensures Aligned(x, small)
  {
    var a, b := x / big, big / small;
    assert x == a * big && big == b * small;
    assert x == (a * b) * small;
    MultipleMod(a * b, small);
  }

  /** Rounding up stays below every aligned bound. */
  lemma RoundUpFits(len: nat, unit: nat, bound: nat)
    requires len <= bound && Aligned(bound, unit)
    ensures len <= RoundUp(len, unit) <= bound && Aligned(RoundUp(len, unit), unit)
  {
    var q, r, b := (len + unit - 1) / unit, (len + unit - 1) % unit, bound / unit;
    assert bound == b * unit;
    assert len + unit - 1 == q * unit + r;
    MultipleMod(q, unit);
    if q > b {
      MulMonotone(b + 1, q, unit);
      assert false;
    }
    MulMonotone(q, b, unit);
  }
}
