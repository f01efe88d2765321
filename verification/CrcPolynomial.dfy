/**
 The checksum of mcuboot-image/src/loader_info.rs:94-112 as what a CRC is by definition: the remainder of the
 message, as a polynomial over the field of two elements, modulo the CRC-32 generator.
 */
module CrcPolynomial {
  import opened Crc
  import opened LoaderRecord

  /** A polynomial is the set of its exponents. */
  type Poly = set<nat>

  function Sum(p: Poly, q: Poly): (r: Poly)
    ensures forall e :: e in r <==> ((e in p) != (e in q))
  {
    (p - q) + (q - p)
  }

  /** Multiplication by x to the n. */
  function Up(p: Poly, n: nat): (r: Poly)
    ensures forall e :: e in r <==> e >= n && e - n in p
  {
    set e | e in p :: e + n
  }

  predicate Coefficient(bits: seq<bool>, e: nat) {
    e < |bits| && bits[|bits| - 1 - e]
  }

  /** The bits of a word or of a message are coefficients, the highest first. */
  function Of(bits: seq<bool>): (r: Poly)
    ensures forall e: nat :: e in r <==> Coefficient(bits, e)
  {
    set e: nat | e < |bits| && Coefficient(bits, e)
  }

  /** The multiple of g by the polynomial with the coefficients `digits`, by Horner's rule. */
  function Multiple(g: Poly, digits: seq<bool>): Poly {
    if digits == [] then {}
    else Sum(Up(Multiple(g, digits[..|digits| - 1]), 1), if digits[|digits| - 1] then g else {})
  }

  /** The generator of a register: its word, and the term of degree 32 that the register does not hold. */
  function Generator(g: Word): Poly {
    Of([true] + g)
  }

  // ----- Rules

  lemma UpSum(p: Poly, q: Poly, n: nat)
    ensures Up(Sum(p, q), n) == Sum(Up(p, n), Up(q, n))
  {}

  lemma UpUp(p: Poly, m: nat, n: nat)
    ensures Up(Up(p, m), n) == Up(p, m + n)
  {}

  lemma UpNone(p: Poly)
    ensures Up(p, 0) == p
  {}

  lemma OfXor(v: Word, w: Word)
    ensures Of(Xor(v, w)) == Sum(Of(v), Of(w))
  {}

  lemma OfConcat(a: seq<bool>, b: seq<bool>)
    ensures Of(a + b) == Sum(Up(Of(a), |b|), Of(b))
  {
    forall e: nat ensures e in Of(a + b) <==> e in Sum(Up(Of(a), |b|), Of(b)) {
      if e < |a + b| {
        assert (a + b)[|a + b| - 1 - e] == if e < |b| then b[|b| - 1 - e] else a[|a| - 1 - (e - |b|)];
      }
    }
  }

  lemma OfLow(b: Byte)
    ensures Of(Low(b)) == Up(Of(b), 24)
  {
    OfConcat(b, Zeros(24));
    assert Of(Zeros(24)) == {};
  }

  /** Multiplying by two numbers written one after the other. */
  lemma {:induction false} MultipleConcat(g: Poly, a: seq<bool>, b: seq<bool>)
    ensures Multiple(g, a + b) == Sum(Up(Multiple(g, a), |b|), Multiple(g, b))
  {
    hide Sum, Up;
    if b == [] {
      assert a + b == a;
      UpNone(Multiple(g, a));
      SumNone(Multiple(g, a));
    } else {
      var n := |b| - 1;
      assert (a + b)[..|a + b| - 1] == a + b[..n];
      MultipleConcat(g, a, b[..n]);
      UpSum(Up(Multiple(g, a), n), Multiple(g, b[..n]), 1);
      UpUp(Multiple(g, a), n, 1);
      SumAssoc(Up(Multiple(g, a), n + 1), Up(Multiple(g, b[..n]), 1), if b[n] then g else {});
    }
  }

  lemma SumNone(p: Poly)
    ensures Sum(p, {}) == p
  {}

  lemma SumAssoc(p: Poly, q: Poly, r: Poly)
    ensures Sum(Sum(p, q), r) == Sum(p, Sum(q, r))
  {}

  // ----- The register

  /** One step multiplies by x and takes off the generator if the degree reached 32. */
  lemma StepMultiplies(g: Word, c: Word)
    ensures Of(BitStep(g, c)) == Sum(Up(Of(c), 1), if c[0] then Generator(g) else {})
  {
    hide Sum, Up, Of;
    var shifted := ShiftDown(c);
    ShiftedOf(c);
    if c[0] {
      OfXor(shifted, g);
      GeneratorTop(g);
      assert Sum(Sum(Of(shifted), {32}), Sum({32}, Of(g))) == Sum(Of(shifted), Of(g)) by {
        Cancels(Of(shifted), {32}, Of(g));
      }
    } else {
      SumNone(Of(shifted));
    }
  }

  lemma ShiftedOf(c: Word)
    ensures Up(Of(c), 1) == Sum(Of(ShiftDown(c)), if c[0] then {32} else {})
  {
    forall e: nat ensures e in Up(Of(c), 1) <==> e in Sum(Of(ShiftDown(c)), if c[0] then {32} else {}) {
      if 0 < e < 32 { assert ShiftDown(c)[31 - e] == c[32 - e]; }
      if e == 0 { assert !ShiftDown(c)[31]; }
    }
  }

  lemma GeneratorTop(g: Word)
    ensures Generator(g) == Sum({32}, Of(g))
  {
    OfConcat([true], g);
    assert Of([true]) == {0};
    assert Up({0}, 32) == {32};
  }

  lemma Cancels(p: Poly, q: Poly, r: Poly)
    ensures Sum(Sum(p, q), Sum(q, r)) == Sum(p, r)
  {}

  lemma {:induction false} StepsMultiply(g: Word, c: Word, n: nat) returns (digits: seq<bool>)
    ensures |digits| == n && Up(Of(c), n) == Sum(Of(Steps(g, c, n)), Multiple(Generator(g), digits))
  {
    hide Sum, Up, Of, Generator, BitStep, Multiple;
    if n == 0 {
      digits := [];
      MultipleNone(Generator(g));
      UpNone(Of(c));
      SumNone(Of(c));
    } else {
      var before := StepsMultiply(g, c, n - 1);
      var s, m := Steps(g, c, n - 1), Multiple(Generator(g), before);
      var top := if s[0] then Generator(g) else {};
      digits := before + [s[0]];
      MultipleNext(Generator(g), before, s[0]);
      UpUp(Of(c), n - 1, 1);
      UpSum(Of(s), m, 1);
      StepMultiplies(g, s);
      TakeOff(Up(Of(s), 1), Up(m, 1), top);
    }
  }

  lemma MultipleNext(g: Poly, digits: seq<bool>, d: bool)
    ensures Multiple(g, digits + [d]) == Sum(Up(Multiple(g, digits), 1), if d then g else {})
  {
    assert (digits + [d])[..|digits|] == digits;
  }

  lemma MultipleNone(g: Poly)
    ensures Multiple(g, []) == {}
  {}

  lemma TakeOff(p: Poly, q: Poly, r: Poly)
    ensures Sum(p, q) == Sum(Sum(p, r), Sum(q, r))
  {}

  // ----- Messages

  /** The message as one string of bits. */
  function Bits(s: seq<Byte>): (r: seq<bool>)
    ensures |r| == 8 * |s|
  {
    if s == [] then [] else Bits(s[..|s| - 1]) + s[|s| - 1]
  }

  /** What a CRC divides: the message followed by 32 zeros, with the initial register above its first 32 bits. */
  function Dividend(from: Word, s: seq<Byte>): Poly {
    Sum(Up(Of(from), 8 * |s|), Up(Of(Bits(s)), 32))
  }

  /** The register is the remainder: it differs from the dividend by a multiple of the generator, and its degree is
      below 32. */
  lemma {:induction false} RegisterIsRemainder(g: Word, from: Word, s: seq<Byte>) returns (digits: seq<bool>)
    ensures Dividend(from, s) == Sum(Of(Register(g, from, s)), Multiple(Generator(g), digits))
    ensures forall e :: e in Of(Register(g, from, s)) ==> e < 32
  {
    hide Sum, Up, Of, Generator, Steps, Low, Xor;
    DegreeBelow(Register(g, from, s));
    if s == [] {
      digits := [];
      NoMessage(from);
    } else {
      var n := |s| - 1;
      var t, b := s[..n], s[n];
      var first := RegisterIsRemainder(g, from, t);
      var c := Xor(Register(g, from, t), Low(b));
      var rest := StepsMultiply(g, c, 8);
      digits := first + rest;
      MultipleConcat(Generator(g), first, rest);
      OfXor(Register(g, from, t), Low(b));
      OfLow(b);
      OfConcat(Bits(t), b);
      DividendNext(Of(from), Of(Bits(t)), Of(b), Of(Register(g, from, t)), Multiple(Generator(g), first), n);
      Collect(Up(Sum(Of(Register(g, from, t)), Up(Of(b), 24)), 8), Up(Multiple(Generator(g), first), 8),
              Of(Register(g, from, s)), Multiple(Generator(g), rest));
    }
  }

  lemma DegreeBelow(w: Word)
    ensures forall e :: e in Of(w) ==> e < 32
  {}

  lemma NoMessage(from: Word)
    ensures Dividend(from, []) == Sum(Of(from), {})
  {}

  /** Another byte: the dividend so far, and the byte that was added, are moved up by eight. */
  lemma DividendNext(from: Poly, bits: Poly, b: Poly, register: Poly, multiple: Poly, n: nat)
    requires Sum(Up(from, 8 * n), Up(bits, 32)) == Sum(register, multiple)
    ensures Sum(Up(from, 8 * (n + 1)), Up(Sum(Up(bits, 8), b), 32))
            == Sum(Up(Sum(register, Up(b, 24)), 8), Up(multiple, 8))
  {
    hide Sum, Up;
    UpSum(Up(from, 8 * n), Up(bits, 32), 8);
    UpSum(register, multiple, 8);
    UpUp(from, 8 * n, 8);
    UpUp(bits, 32, 8);
    UpUp(bits, 8, 32);
    UpSum(Up(bits, 8), b, 32);
    UpSum(register, Up(b, 24), 8);
    UpUp(b, 24, 8);
    Rearranged(Up(from, 8 * (n + 1)), Up(bits, 40), Up(b, 32), Up(register, 8), Up(multiple, 8));
  }

  lemma Rearranged(a: Poly, b: Poly, c: Poly, r: Poly, m: Poly)
    requires Sum(a, b) == Sum(r, m)
    ensures Sum(a, Sum(b, c)) == Sum(Sum(r, c), m)
  {
    forall e ensures e in Sum(a, Sum(b, c)) <==> e in Sum(Sum(r, c), m) {
      assert e in Sum(a, b) <==> e in Sum(r, m);
    }
  }

  lemma Collect(p: Poly, m: Poly, r: Poly, k: Poly)
    requires p == Sum(r, k)
    ensures Sum(p, m) == Sum(r, Sum(m, k))
  {}

  // ----- CRC-32

  /** The CRC-32 generator:
      x^32 + x^26 + x^23 + x^22 + x^16 + x^12 + x^11 + x^10 + x^8 + x^7 + x^5 + x^4 + x^2 + x + 1. */
  const CRC32: Poly := {32, 26, 23, 22, 16, 12, 11, 10, 8, 7, 5, 4, 2, 1, 0}

  lemma BitIs(e: nat)
    requires e < 32
    ensures POLYNOMIAL[31 - e] <==> e in CRC32
  {}

  lemma Crc32Degree()
    ensures 32 in CRC32 && forall e :: e in CRC32 ==> e <= 32
  {}

  lemma GeneratorIsCrc32()
    ensures Generator(POLYNOMIAL) == CRC32
  {
    hide Generator, POLYNOMIAL, CRC32;
    GeneratorTop(POLYNOMIAL);
    Crc32Degree();
    forall e: nat ensures e in Sum({32}, Of(POLYNOMIAL)) <==> e in CRC32 {
      if e < 32 { BitIs(e); }
    }
  }

  /** The stored checksum, with all bits turned, is the remainder modulo the CRC-32 generator of the message, moved up
      by 32, with ones above its first 32 bits. */
  lemma ChecksumIsCrc32(s: seq<Byte>) returns (digits: seq<bool>)
    ensures Dividend(Ones(), s) == Sum(Of(Not(Checksum(POLYNOMIAL, s))), Multiple(CRC32, digits))
  {
    hide Sum, Up, Of, Multiple, Generator, Register;
    GeneratorIsCrc32();
    digits := RegisterIsRemainder(POLYNOMIAL, Ones(), s);
    NotNot(Register(POLYNOMIAL, Ones(), s));
  }

  lemma NotNot(w: Word)
    ensures Not(Not(w)) == w
  {}
}
