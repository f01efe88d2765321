/**
 The Montgomery multiplier of mcuboot-image/src/p256.rs:151-228, for any modulus that fits: the CIOS
 loop never overflows its words, stays below twice the modulus and computes the product divided by R.
 */
module Montgomery {
  import opened Arithmetic
  import opened ModArith
  import opened Limbs

  datatype Modulus = Modulus(m: Number, mInv: u32, r2: Number) {
    function M(): nat {
      Val(m)
    }

    /** What the constants of a modulus must satisfy: `mInv` is -1/m modulo BASE, `r2` is R squared
        modulo m, and the low limb is large enough to subtract two. */
    ghost predicate Valid() {
      && M() > 2
      && (m[0] * mInv + 1) % BASE == 0
      && Val(r2) < M() && Cong(M(), Val(r2), R * R)
      && 2 <= m[0]
    }
  }

  // ----- One round of the multiplier

  lemma ProductFits(t: u32, a: u32, word: u32, carry: u32)
    ensures 0 <= t + a * word + carry < BASE * BASE
  {
    MulMonotone(a, BASE - 1, word);
    MulMonotone(word, BASE - 1, BASE - 1);
    assert (BASE - 1) * (BASE - 1) == BASE * BASE - 2 * BASE + 1;
  }

  lemma RowStep(lo: int, w: int, t: int, a: int, word: int, carry: int, keep: int, carry': int, vt: int, va: int)
    requires lo + carry * w == vt + va * word
    requires t + a * word + carry == keep + carry' * BASE
    ensures lo + keep * w + carry' * (BASE * w) == (vt + t * w) + (va + a * w) * word
  {
    assert (keep + carry' * BASE) * w == keep * w + carry' * (BASE * w);
    assert (t + a * word + carry) * w == t * w + (a * w) * word + carry * w;
    assert (va + a * w) * word == va * word + (a * w) * word;
  }

  /** Words below `index` have had their part of `a * word` added; `carry` is still to be added. */
  ghost predicate Added(t: seq<u32>, was: seq<u32>, a: Number, word: nat, index: nat, carry: nat)
    requires |t| == |was| == 10 && index <= LIMBS
  {
    && (forall i :: index <= i < 10 ==> t[i] == was[i])
    && Value(t, index) + carry * Weight(index) == Value(was, index) + Value(a, index) * word
  }

  lemma AddStep(t: seq<u32>, was: seq<u32>, a: Number, word: nat, index: nat, carry: nat, keep: u32, carry': nat)
    requires |t| == |was| == 10 && index < LIMBS && Added(t, was, a, word, index, carry)
    requires t[index] + a[index] * word + carry == keep + carry' * BASE
    ensures Added(t[index := keep], was, a, word, index + 1, carry')
  {
    ValueSame(t, t[index := keep], index);
    RowStep(Value(t, index), Weight(index), was[index], a[index], word, carry, keep, carry',
            Value(was, index), Value(a, index));
  }

  lemma AddEnds(t: seq<u32>, was: seq<u32>, a: Number, word: nat, carry: nat, t8: u32, t9: u32)
    requires |t| == |was| == 10 && Added(t, was, a, word, LIMBS, carry) && t[8] + carry == t8 + t9 * BASE
    ensures var mid: seq<u32> := t[8 := t8]; Value(mid[9 := t9], 10) == Value(was, 9) + Val(a) * word
  {
    var mid: seq<u32> := t[8 := t8];
    var end: seq<u32> := mid[9 := t9];
    ValueSame(t, end, 8);
    TwoMore(end);
    TopWords(t8, t9, was[8], carry);
  }

  /** The first inner loop and the two stores after it: add `a * word` to the nine running words. */
  method AddRow(t: array<u32>, a: Number, word: u32)
    requires t.Length == 10
    modifies t
    ensures Value(t[..], 10) == Value(old(t[..]), 9) + Val(a) * word
  {
    hide Added, Value, Weight;
    ghost var was := t[..];
    var carry: u64 := 0;
    var index := 0;
    AddStarts(was, a, word);
    while index < LIMBS
      invariant index <= LIMBS && carry < BASE
      invariant Added(t[..], was, a, word, index, carry)
    {
      ProductFits(t[index], a[index], word, carry);
      var x: u64 := t[index] + a[index] * word + carry;
      var keep: u32 := x % BASE;
      AddStep(t[..], was, a, word, index, carry, keep, x / BASE);
      ghost var before := t[..];
      t[index] := keep;
      assert t[..] == before[index := keep];
      carry := x / BASE;
      index := index + 1;
    }
    var x: u64 := t[8] + carry;
    var t8: u32, t9: u32 := x % BASE, x / BASE;
    AddEnds(t[..], was, a, word, carry, t8, t9);
    ghost var before: seq<u32> := t[..];
    ghost var mid: seq<u32> := before[8 := t8];
    t[8] := t8;
    t[9] := t9;
    assert t[..] == mid[9 := t9];
  }

  lemma AddStarts(was: seq<u32>, a: Number, word: nat)
    requires |was| == 10
    ensures Added(was, was, a, word, 0, 0)
  {}

  lemma TopWords(t8: int, t9: int, old8: int, carry: int)
    requires t8 + t9 * BASE == old8 + carry
    ensures t8 * Weight(8) + t9 * Weight(9) == old8 * Weight(8) + carry * Weight(8)
  {
    var w := Weight(8);
    assert Weight(9) == BASE * w;
    assert (t8 + t9 * BASE) * w == t8 * w + t9 * (BASE * w);
    assert (old8 + carry) * w == old8 * w + carry * w;
  }

  /** The factor `q` clears the low word. */
  lemma LowWordClears(t0: u32, mInv: u32, m0: u32)
    requires (m0 * mInv + 1) % BASE == 0
    ensures (t0 + (t0 * mInv) % BASE * m0) % BASE == 0
  {
    var k, j := (m0 * mInv + 1) / BASE, (t0 * mInv) / BASE;
    var q := (t0 * mInv) % BASE;
    assert m0 * mInv + 1 == k * BASE && t0 * mInv == j * BASE + q;
    assert q * m0 == t0 * (m0 * mInv) - j * BASE * m0;
    assert t0 * (m0 * mInv) == t0 * (k * BASE) - t0;
    assert t0 + q * m0 == (t0 * k - j * m0) * BASE;
    MultipleMod(t0 * k - j * m0, BASE);
  }

  lemma TopFits(s: nat, rest: nat, total: nat, m: nat)
    requires rest + s * Weight(9) == total && total < 2 * BASE * m && m < R
    ensures s <= 1
  {
    RadixIsWeight();
    assert Weight(9) == BASE * R;
    AtMostOne(s, rest, total, m, Weight(9), R);
  }

  lemma AtMostOne(s: nat, rest: nat, total: nat, m: nat, w: nat, r: nat)
    requires rest + s * w == total && total < 2 * BASE * m && m < r && w == BASE * r
    ensures s <= 1
  {
    if s >= 2 { MulMonotone(2, s, w); }
  }

  lemma LastWords(v7: int, carry: int, low8: int, qm: int, t7: int, hi: int, old8: int, old9: int)
    requires BASE * v7 + carry * Weight(8) == low8 + qm
    requires t7 + hi * BASE == old8 + carry
    ensures BASE * (v7 + t7 * Weight(7)) + (old9 + hi) * Weight(9) == low8 + old8 * Weight(8) + old9 * Weight(9) + qm
  {
    var w := Weight(8);
    assert Weight(9) == BASE * w && w == BASE * Weight(7);
    assert (t7 + hi * BASE) * w == t7 * w + hi * (BASE * w);
    assert (old8 + carry) * w == old8 * w + carry * w;
    assert BASE * (t7 * Weight(7)) == t7 * w;
    assert (old9 + hi) * Weight(9) == old9 * Weight(9) + hi * (BASE * w);
  }

  /** Words below `index` have been shifted down; `carry` is still to be added. */
  ghost predicate Shifted(t: seq<u32>, was: seq<u32>, m: Number, f: nat, index: nat, carry: nat)
    requires |t| == |was| == 10 && 1 <= index <= LIMBS
  {
    && (forall i :: index <= i < 10 ==> t[i] == was[i])
    && BASE * Value(t, index - 1) + carry * Weight(index) == Value(was, index) + Value(m, index) * f
  }

  lemma ShiftStarts(was: seq<u32>, m: Number, f: nat, carry: nat)
    requires |was| == 10 && was[0] + f * m[0] == carry * BASE
    ensures Shifted(was, was, m, f, 1, carry)
  {
    assert Weight(0) == 1 && Value(was, 0) == 0 && Value(m, 0) == 0;
    assert Weight(1) == BASE && Value(was, 1) == was[0] && Value(m, 1) == m[0];
  }

  lemma ShiftStep(t: seq<u32>, was: seq<u32>, m: Number, f: nat, index: nat, carry: nat, word: u32, carry': nat)
    requires |t| == |was| == 10 && 1 <= index < LIMBS && Shifted(t, was, m, f, index, carry)
    requires t[index] + f * m[index] + carry == word + carry' * BASE
    ensures Shifted(t[index - 1 := word], was, m, f, index + 1, carry')
  {
    var t' := t[index - 1 := word];
    ValueSame(t, t', index - 1);
    RowStep(BASE * Value(t, index - 1), Weight(index), was[index], m[index], f, carry, word, carry',
            Value(was, index), Value(m, index));
    assert BASE * (word * Weight(index - 1)) == word * Weight(index);
  }

  /** The second inner loop: add `f` times the modulus and shift the low eight words down by one. */
  method ShiftDown(t: array<u32>, m: Number, f: u32) returns (carry: u64)
    requires t.Length == 10 && (t[0] + f * m[0]) % BASE == 0
    modifies t
    ensures carry < BASE && Shifted(t[..], old(t[..]), m, f, LIMBS, carry)
  {
    hide Shifted;
    ghost var was := t[..];
    ProductFits(t[0], f, m[0], 0);
    var x: u64 := t[0] + f * m[0];
    carry := x / BASE;
    var index := 1;
    ShiftStarts(was, m, f, carry);
    while index < LIMBS
      invariant 1 <= index <= LIMBS && carry < BASE
      invariant Shifted(t[..], was, m, f, index, carry)
    {
      ProductFits(t[index], f, m[index], carry);
      x := t[index] + f * m[index] + carry;
      var word: u32 := x % BASE;
      ShiftStep(t[..], was, m, f, index, carry, word, x / BASE);
      ghost var before := t[..];
      t[index - 1] := word;
      assert t[..] == before[index - 1 := word];
      carry := x / BASE;
      index := index + 1;
    }
  }

  lemma StoredValue(t: seq<u32>, word: u32, top: u32)
    requires |t| == 10
    ensures var low: seq<u32> := t[7 := word];
            BASE * Value(low[8 := top], 9) == BASE * (Value(t, 7) + word * Weight(7)) + top * Weight(9)
  {
    var low: seq<u32> := t[7 := word];
    var end: seq<u32> := low[8 := top];
    ValueSame(t, end, 7);
    assert Value(end, 8) == Value(t, 7) + word * Weight(7);
    assert Value(end, 9) == Value(end, 8) + top * Weight(8);
    assert Weight(9) == BASE * Weight(8);
    ScaledSum(BASE, Value(end, 8), top, Weight(8));
  }

  lemma ScaledSum(b: int, x: int, y: int, w: int)
    ensures b * (x + y * w) == b * x + y * (b * w)
  {}

  /** The two stores after the second inner loop complete the shift... */
  lemma TopStores(t: seq<u32>, was: seq<u32>, m: Number, f: u32, carry: nat, word: u32, hi: nat)
    requires |t| == |was| == 10 && Shifted(t, was, m, f, LIMBS, carry) && t[8] + carry == word + hi * BASE
    ensures BASE * (Value(t, 7) + word * Weight(7)) + (t[9] + hi) * Weight(9) == Value(was, 10) + Val(m) * f
  {
    hide Value, Weight;
    LastWords(Value(t, 7), carry, Value(was, 8), Val(m) * f, word, hi, was[8], was[9]);
    TwoMore(was);
  }

  /** ... and the top word fits. */
  lemma TopWordFits(s: nat, rest: nat, v: nat, m: Number, f: u32)
    requires rest + s * Weight(9) == v + Val(m) * f && v < (BASE + 1) * Val(m)
    ensures s <= 1
  {
    hide Value, Weight;
    ShiftedBound(v, f, Val(m));
    ValBound(m);
    TopFits(s, rest, v + Val(m) * f, Val(m));
  }

  lemma TwoMore(was: seq<u32>)
    requires |was| == 10
    ensures Value(was, 10) == Value(was, 8) + was[8] * Weight(8) + was[9] * Weight(9)
  {}

  /** The second half of a round: clear the low word with a multiple of the modulus and shift it out. */
  method Reduce(t: array<u32>, mod: Modulus) returns (ghost q: nat)
    requires t.Length == 10 && (mod.m[0] * mod.mInv + 1) % BASE == 0
    requires Value(t[..], 10) < (BASE + 1) * mod.M()
    modifies t
    ensures q < BASE && BASE * Value(t[..], 9) == Value(old(t[..]), 10) + q * mod.M()
  {
    hide Shifted, Value, Weight;
    ghost var was := t[..];
    var f: u32 := (t[0] * mod.mInv) % BASE;
    q := f;
    LowWordClears(t[0], mod.mInv, mod.m[0]);
    var carry := ShiftDown(t, mod.m, f);
    var x: u64 := t[8] + carry;
    var word: u32 := x % BASE;
    TopStores(t[..], was, mod.m, f, carry, word, x / BASE);
    TopWordFits(t[9] + x / BASE, BASE * (Value(t[..], 7) + word * Weight(7)), Value(was, 10), mod.m, f);
    ghost var before: seq<u32> := t[..];
    ghost var low: seq<u32> := before[7 := word];
    var top: u32 := t[9] + x / BASE;
    StoredValue(before, word, top);
    t[7] := word;
    t[8] := top;
    assert t[..] == low[8 := top];
  }

  lemma ShiftedBound(v: nat, q: nat, m: nat)
    requires v < (BASE + 1) * m && q < BASE
    ensures v + q * m < 2 * BASE * m
  {
    MulMonotone(q, BASE - 1, m);
    assert (BASE + 1) * m + (BASE - 1) * m == 2 * BASE * m;
  }

  // ----- The product

  /** Below 2m before a round, below 2m after it. */
  lemma RoundBound(v: nat, a: nat, word: nat, m: nat)
    requires v < 2 * m && a < m && word < BASE
    ensures v + a * word < (BASE + 1) * m
  {
    if word > 0 { MulMonotone(a, m, word); }
    MulMonotone(word, BASE - 1, m);
    assert (BASE - 1) * m + 2 * m == (BASE + 1) * m;
  }

  lemma RoundCongruence(v: int, v': int, w: int, a: int, vb: int, word: int, k: int, q: int, m: int)
    requires v * w == a * vb + k * m
    requires BASE * v' == v + a * word + q * m
    ensures v' * (BASE * w) == a * (vb + word * w) + (k + q * w) * m
  {
    assert v' * (BASE * w) == (BASE * v') * w;
    assert (v + a * word + q * m) * w == v * w + (a * word) * w + (q * m) * w;
    assert a * (vb + word * w) == a * vb + (a * word) * w;
    assert (k + q * w) * m == k * m + (q * m) * w;
  }

  /** One round of the outer loop. */
  method Round(t: array<u32>, mod: Modulus, a: Number, word: u32) returns (ghost q: nat)
    requires t.Length == 10 && (mod.m[0] * mod.mInv + 1) % BASE == 0
    requires Value(t[..], 9) < 2 * mod.M() && Val(a) < mod.M()
    modifies t
    ensures Value(t[..], 9) < 2 * mod.M()
    ensures BASE * Value(t[..], 9) == Value(old(t[..]), 9) + Val(a) * word + q * mod.M()
  {
    ghost var v := Value(t[..], 9);
    RoundBound(v, Val(a), word, mod.M());
    AddRow(t, a, word);
    q := Reduce(t, mod);
    ShiftedBound(v + Val(a) * word, q, mod.M());
  }

  /** After `j` rounds the running value times BASE^j is the product so far, up to multiples of m. */
  ghost predicate Running(v: nat, m: nat, a: Number, b: Number, j: nat)
    requires j <= LIMBS
  {
    exists k: int :: v * Weight(j) == Val(a) * Value(b, j) + k * m
  }

  lemma RunningStarts(m: nat, a: Number, b: Number)
    ensures Running(0, m, a, b, 0)
  {
    assert 0 * Weight(0) == Val(a) * Value(b, 0) + 0 * m;
  }

  lemma RunningStep(v: nat, v': nat, m: nat, a: Number, b: Number, j: nat, q: nat)
    requires j < LIMBS && Running(v, m, a, b, j) && BASE * v' == v + Val(a) * b[j] + q * m
    ensures Running(v', m, a, b, j + 1)
  {
    var k :| v * Weight(j) == Val(a) * Value(b, j) + k * m;
    RoundCongruence(v, v', Weight(j), Val(a), Value(b, j), b[j], k, q, m);
    assert v' * Weight(j + 1) == Val(a) * Value(b, j + 1) + (k + q * Weight(j)) * m;
  }

  lemma RunningEnds(v: nat, r: nat, m: nat, a: Number, b: Number)
    requires m > 0 && Running(v, m, a, b, LIMBS) && Cong(m, v, r)
    ensures Cong(m, r * R, Val(a) * Val(b))
  {
    RadixIsWeight();
    var k :| v * Weight(LIMBS) == Val(a) * Value(b, LIMBS) + k * m;
    ProductCong(m, v, r, Val(a) * Val(b), k);
  }

  /** `mul`: for `a` below the modulus and any `b`, the residue r with r * R congruent to a * b. */
  method MulMont(mod: Modulus, a: Number, b: Number) returns (r: Number)
    requires mod.Valid() && Val(a) < mod.M()
    ensures Val(r) < mod.M() && Cong(mod.M(), Val(r) * R, Val(a) * Val(b))
  {
    hide Cong, Running, Value;
    var t := new u32[10](_ => 0);
    ZeroValue(t[..], 9);
    RunningStarts(mod.M(), a, b);
    var j := 0;
    while j < LIMBS
      invariant j <= LIMBS
      invariant Value(t[..], 9) < 2 * mod.M()
      invariant Running(Value(t[..], 9), mod.M(), a, b, j)
    {
      ghost var v := Value(t[..], 9);
      ghost var q := Round(t, mod, a, b[j]);
      RunningStep(v, Value(t[..], 9), mod.M(), a, b, j, q);
      j := j + 1;
    }
    r := FinalSubtract(mod, t);
    RunningEnds(Value(t[..], 9), Val(r), mod.M(), a, b);
  }

  lemma ProductCong(m: nat, v: int, r: int, ab: int, k: int)
    requires m > 0 && v * R == ab + k * m && Cong(m, v, r)
    ensures Cong(m, r * R, ab)
  {
    CongBy(m, v * R, ab, k);
    CongSym(m, v, r);
    CongRefl(m, R);
    CongMul(m, r, v, R, R);
    CongTrans(m, r * R, v * R, ab);
  }

  lemma {:induction false} ZeroValue(s: seq<u32>, n: nat)
    requires n <= |s| && forall i :: 0 <= i < n ==> s[i] == 0
    ensures Value(s, n) == 0
  {
    if n > 0 { ZeroValue(s, n - 1); }
  }

  lemma SubtractedOnce(v: nat, low: nat, top: nat, q: nat, m: nat, r: nat, borrowed: bool)
    requires v == low + top * q && low < q && m < q && v < 2 * m && (top != 0 || low >= m)
    requires r < q && r == low - m + (if borrowed then q else 0)
    ensures r == v - m
  {
    if top >= 1 { MulMonotone(1, top, q); }
    if top >= 2 { MulMonotone(2, top, q); }
  }

  /** The conditional subtraction at the end. */
  method FinalSubtract(mod: Modulus, t: array<u32>) returns (r: Number)
    requires t.Length == 10 && mod.Valid() && Value(t[..], 9) < 2 * mod.M()
    ensures Val(r) < mod.M() && Cong(mod.M(), Value(t[..], 9), Val(r))
  {
    hide Cong;
    ghost var v, low := Value(t[..], 9), t[..8];
    ValueSame(t[..], low, 8);
    RadixIsWeight();
    assert v == Val(low) + t[8] * R;
    hide Value, Weight;
    ValBound(mod.m);
    ValBound(low);
    r := t[..8];
    var below := Less(r, mod.m);
    if t[8] != 0 || !below {
      var result := new u32[8](i requires 0 <= i < 8 reads t => t[i]);
      assert result[..] == low;
      var borrowed := SubInPlace(result, mod.m);
      r := result[..];
      ValBound(r);
      SubtractedOnce(v, Val(low), t[8], R, mod.M(), Val(r), borrowed);
      CongBy(mod.M(), v, Val(r), 1);
    } else {
      CongRefl(mod.M(), v);
    }
  }
}
