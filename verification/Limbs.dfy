/**
 256-bit numbers as eight little-endian 32-bit limbs (mcuboot-image/src/p256.rs:12-149): what the
 carry and borrow loops compute. Every intermediate is held in a 64-bit word, which proves that
 none overflows.
 */
module Limbs {
  import opened Bytes
  import opened Arithmetic

  const BASE: nat := 0x1_0000_0000
  const LIMBS: nat := 8

  type u32 = x: int | 0 <= x < BASE
  type u64 = x: int | 0 <= x < 0x1_0000_0000_0000_0000

  /** `base` to the power `n`. Nothing depends on `format`: because of it, a power with a literal exponent
      stays a symbol for the verifier instead of becoming a numeral of hundreds of digits. */
  function Grow(base: nat, n: nat, ghost format: nat): (r: nat)
    requires base > 0
    ensures r > 0
    decreases n, base, format
  {
    if n == 0 then 1 else base * Grow(base, n - 1, format)
  }

  ghost const FORMAT: nat := var k: nat :| k > 0; k

  /** `BASE` to the power `n`. */
  function Weight(n: nat): (r: nat)
    ensures r > 0
  {
    Grow(BASE, n, FORMAT)
  }

  /** 2 to the 256: the Montgomery radix. */
  const R: nat := Weight(LIMBS)

  /** The number in the first `n` limbs. */
  function Value(s: seq<u32>, n: nat): (r: nat)
    requires n <= |s|
    decreases n, |s|
  {
    if n == 0 then 0 else Value(s, n - 1) + s[n - 1] * Weight(n - 1)
  }

  type Number = s: seq<u32> | |s| == LIMBS witness [0, 0, 0, 0, 0, 0, 0, 0]

  function Val(s: Number): nat {
    Value(s, LIMBS)
  }

  lemma RadixIsWeight()
    ensures Weight(LIMBS) == R
  {}

  lemma {:induction false} ValueBound(s: seq<u32>, n: nat)
    requires n <= |s|
    ensures Value(s, n) < Weight(n)
  {
    if n > 0 {
      ValueBound(s, n - 1);
      var w := Weight(n - 1);
      MulMonotone(s[n - 1], BASE - 1, w);
      assert (BASE - 1) * w == BASE * w - w;
    }
  }

  lemma ValBound(s: Number)
    ensures Val(s) < R
  {
    ValueBound(s, LIMBS);
    RadixIsWeight();
  }

  lemma {:induction false} ValueSame(s: seq<u32>, t: seq<u32>, n: nat)
    requires n <= |s| && n <= |t| && forall i :: 0 <= i < n ==> s[i] == t[i]
    ensures Value(s, n) == Value(t, n)
  {
    if n > 0 { ValueSame(s, t, n - 1); }
  }

  /** The highest differing limb decides. */
  lemma {:induction false} HighestDecides(s: seq<u32>, t: seq<u32>, k: nat, n: nat)
    requires k < n <= |s| && n <= |t| && s[k] < t[k] && forall i :: k < i < n ==> s[i] == t[i]
    ensures Value(s, n) < Value(t, n)
  {
    if k < n - 1 {
      HighestDecides(s, t, k, n - 1);
    } else {
      ValueBound(s, k);
      var w := Weight(k);
      MulMonotone(s[k] + 1, t[k], w);
      assert (s[k] + 1) * w == s[k] * w + w;
    }
  }

  lemma {:induction false} ValueZero(s: seq<u32>, n: nat)
    requires n <= |s|
    ensures Value(s, n) == 0 <==> forall i :: 0 <= i < n ==> s[i] == 0
  {
    if n > 0 {
      ValueZero(s, n - 1);
      if s[n - 1] > 0 { MulMonotone(1, s[n - 1], Weight(n - 1)); }
    }
  }

  /** A number has one representation. */
  lemma ValInjective(s: Number, t: Number)
    requires Val(s) == Val(t)
    ensures s == t
  {
    if s != t {
      var k := LIMBS - 1;
      while s[k] == t[k]
        invariant s != t && 0 <= k < LIMBS && forall i :: k < i < LIMBS ==> s[i] == t[i]
        decreases k
      {
        assert k > 0;
        k := k - 1;
      }
      if s[k] < t[k] { HighestDecides(s, t, k, LIMBS); } else { HighestDecides(t, s, k, LIMBS); }
    }
  }

  // ----- Comparisons

  method IsZero(a: Number) returns (zero: bool)
    ensures zero <==> Val(a) == 0
  {
    ValueZero(a, LIMBS);
    for i := 0 to LIMBS
      invariant forall j :: 0 <= j < i ==> a[j] == 0
    {
      if a[i] != 0 {
        return false;
      }
    }
    return true;
  }

  method Less(a: Number, b: Number) returns (less: bool)
    ensures less <==> Val(a) < Val(b)
  {
    var index := LIMBS;
    while index > 0
      invariant 0 <= index <= LIMBS && forall i :: index <= i < LIMBS ==> a[i] == b[i]
    {
      index := index - 1;
      if a[index] != b[index] {
        if a[index] < b[index] { HighestDecides(a, b, index, LIMBS); } else { HighestDecides(b, a, index, LIMBS); }
        return a[index] < b[index];
      }
    }
    assert a == b;
    return false;
  }

  // ----- Addition and subtraction in place

  lemma BorrowStep(lo: int, w: int, a: int, b: int, borrow: int, word: int, borrow': int, va: int, vb: int)
    requires lo == va - vb + borrow * w
    requires word == a - b - borrow + borrow' * BASE
    ensures lo + word * w == (va + a * w) - (vb + b * w) + borrow' * (BASE * w)
  {
    assert word * w == a * w - b * w - borrow * w + borrow' * BASE * w;
  }

  function WrappingSub(x: u64, y: u64): u64 {
    (x - y) % 0x1_0000_0000_0000_0000
  }

  /** A difference of limbs that wraps has its top bit set, and its low word is the limb to keep. */
  lemma BorrowIsTopBit(a: u32, b: u32, borrow: u64)
    requires borrow <= 1
    ensures var d := WrappingSub(WrappingSub(a, b), borrow);
            var borrow' := d / 0x8000_0000_0000_0000 % 2;
            0 <= borrow' <= 1 && d % BASE == a - b - borrow + borrow' * BASE
  {
    var d := WrappingSub(WrappingSub(a, b), borrow);
    assert d == if a - b - borrow < 0 then a - b - borrow + 0x1_0000_0000_0000_0000 else a - b - borrow;
  }

  /** `a -= b`, returning the borrow. */
  method SubInPlace(a: array<u32>, b: Number) returns (borrowed: bool)
    requires a.Length == LIMBS
    modifies a
    ensures Val(a[..]) == Val(old(a[..])) - Val(b) + (if borrowed then R else 0)
  {
    ghost var was := a[..];
    var borrow: u64 := 0;
    var index := 0;
    while index < LIMBS
      invariant index <= LIMBS && 0 <= borrow <= 1
      invariant forall i :: index <= i < LIMBS ==> a[i] == was[i]
      invariant Value(a[..], index) == Value(was, index) - Value(b, index) + borrow * Weight(index)
    {
      var difference: u64 := WrappingSub(WrappingSub(a[index], b[index]), borrow);
      BorrowIsTopBit(a[index], b[index], borrow);
      ghost var before, lent := a[..], borrow;
      a[index] := difference % BASE;
      borrow := (difference / 0x8000_0000_0000_0000) % 2;
      ValueSame(before, a[..], index);
      BorrowStep(Value(before, index), Weight(index), was[index], b[index], lent, a[index], borrow,
                 Value(was, index), Value(b, index));
      index := index + 1;
    }
    RadixIsWeight();
    return borrow != 0;
  }

  lemma CarryStep(lo: int, w: int, a: int, b: int, carry: int, word: int, carry': int, va: int, vb: int)
    requires lo + carry * w == va + vb
    requires a + b + carry == word + carry' * BASE
    ensures lo + word * w + carry' * (BASE * w) == (va + a * w) + (vb + b * w)
  {
    assert (word + carry' * BASE) * w == word * w + carry' * (BASE * w);
    assert (a + b + carry) * w == a * w + b * w + carry * w;
  }

  /** `a += b`, returning the carry. */
  method AddInPlace(a: array<u32>, b: Number) returns (carried: bool)
    requires a.Length == LIMBS
    modifies a
    ensures Val(a[..]) + (if carried then R else 0) == Val(old(a[..])) + Val(b)
  {
    ghost var was := a[..];
    var carry: u64 := 0;
    var index := 0;
    while index < LIMBS
      invariant index <= LIMBS && 0 <= carry <= 1
      invariant forall i :: index <= i < LIMBS ==> a[i] == was[i]
      invariant Value(a[..], index) + carry * Weight(index) == Value(was, index) + Value(b, index)
    {
      var sum: u64 := a[index] + b[index] + carry;
      ghost var before, brought := a[..], carry;
      a[index] := sum % BASE;
      carry := sum / BASE;
      ValueSame(before, a[..], index);
      CarryStep(Value(before, index), Weight(index), was[index], b[index], brought, a[index], carry,
                Value(was, index), Value(b, index));
      index := index + 1;
    }
    RadixIsWeight();
    return carry != 0;
  }

  // ----- Big-endian bytes

  function Pow256(n: nat): (r: nat)
    ensures r > 0
  {
    Grow(256, n, FORMAT)
  }

  /** The number a big-endian byte string spells. */
  function BigEndian(s: seq<byte>): nat {
    if s == [] then 0 else BigEndian(s[..|s| - 1]) * 256 + s[|s| - 1]
  }

  lemma {:induction false} BigEndianConcat(s: seq<byte>, t: seq<byte>)
    ensures BigEndian(s + t) == BigEndian(s) * Pow256(|t|) + BigEndian(t)
  {
    if t == [] {
      assert s + t == s;
    } else {
      var u := t[..|t| - 1];
      assert (s + t)[..|s + t| - 1] == s + u;
      BigEndianConcat(s, u);
      ShiftByte(BigEndian(s), Pow256(|u|), BigEndian(u));
    }
  }

  lemma ShiftByte(x: int, p: int, u: int)
    ensures (x * p + u) * 256 == x * (256 * p) + u * 256
  {}

  lemma {:induction false} WeightIsBytes(n: nat)
    ensures Pow256(4 * n) == Weight(n)
  {
    if n > 0 {
      WeightIsBytes(n - 1);
      var k := 4 * (n - 1);
      assert Pow256(k + 1) == 256 * Pow256(k);
      assert Pow256(k + 2) == 256 * Pow256(k + 1);
      assert Pow256(k + 3) == 256 * Pow256(k + 2);
      assert Pow256(k + 4) == 256 * Pow256(k + 3);
    }
  }

  function FromBe4(a: byte, b: byte, c: byte, d: byte): u32 {
    0x100_0000 * a + 0x1_0000 * b + 0x100 * c + d
  }

  lemma BigEndian4(s: seq<byte>)
    requires |s| == 4
    ensures BigEndian(s) == FromBe4(s[0], s[1], s[2], s[3])
  {
    assert s[..3][..2] == s[..2] && s[..2][..1] == s[..1] && s[..1][..0] == [];
    var a: int, b: int, c: int := s[0], s[1], s[2];
    assert BigEndian(s[..1]) == a;
    assert BigEndian(s[..2]) == a * 256 + b;
    assert BigEndian(s[..3]) == (a * 256 + b) * 256 + c;
  }

  /** `from_be`. */
  method FromBe(bytes: seq<byte>) returns (r: Number)
    requires |bytes| == 32
    ensures Val(r) == BigEndian(bytes)
  {
    var limbs: seq<u32> := [];
    var index := 0;
    while index < LIMBS
      invariant index <= LIMBS && |limbs| == index
      invariant Value(limbs, index) == BigEndian(bytes[32 - 4 * index..])
    {
      var at := 28 - 4 * index;
      var limb := FromBe4(bytes[at], bytes[at + 1], bytes[at + 2], bytes[at + 3]);
      ghost var four, low := bytes[at..at + 4], bytes[at + 4..];
      assert bytes[at..] == four + low;
      BigEndianConcat(four, low);
      BigEndian4(four);
      WeightIsBytes(index);
      ValueSame(limbs, limbs + [limb], index);
      limbs := limbs + [limb];
      index := index + 1;
    }
    assert bytes[0..] == bytes;
    r := limbs;
  }
}
