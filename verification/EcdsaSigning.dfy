/**
 What verification is for (mcuboot-image/src/p256.rs:339-389): a signature is accepted exactly when it could have
 been made with the private key. Section 4.1.3 of SEC 1 version 2.0 makes one from a private key d and a nonce k:
 r is the abscissa of k G modulo n, and s satisfies k s = e + r d modulo n.
 */
module EcdsaSigning {
  import opened ModArith
  import opened MontInverse
  import opened Curve
  import opened CurveGroup
  import opened Ecdsa

  // ----- Multiples of one point

  lemma {:induction false} TimesAdd(p: nat, b: int, i: nat, j: nat, a: Affine)
    requires GroupLaw(p, b) && OnCurve(p, b, a)
    ensures AffAdd(p, Times(p, i, a), Times(p, j, a)) == Times(p, i + j, a)
  {
    hide AffAdd, OnCurve, Prime;
    if j == 0 {
      AddInfinity(p, Times(p, i, a));
    } else {
      TimesAdd(p, b, i, j - 1, a);
      TimesOnCurve(p, b, i, a);
      TimesOnCurve(p, b, j - 1, a);
      Associates(p, b, Times(p, i, a), Times(p, j - 1, a), a);
    }
  }

  lemma {:induction false} TimesTimes(p: nat, b: int, i: nat, j: nat, a: Affine)
    requires GroupLaw(p, b) && OnCurve(p, b, a)
    ensures Times(p, i, Times(p, j, a)) == Times(p, i * j, a)
  {
    hide AffAdd, OnCurve, GroupLaw;
    if i > 0 {
      TimesTimes(p, b, i - 1, j, a);
      TimesAdd(p, b, (i - 1) * j, j, a);
      assert i * j == (i - 1) * j + j;
    }
  }

  lemma {:induction false} TimesInfinity(p: nat, i: nat)
    requires p > 2
    ensures Times(p, i, Infinity) == Infinity
  {
    if i > 0 { TimesInfinity(p, i - 1); }
  }

  /** Multiples of a point whose n-fold is infinity depend on the multiplier modulo n only. */
  lemma TimesMod(p: nat, b: int, n: nat, k: nat, a: Affine)
    requires GroupLaw(p, b) && OnCurve(p, b, a) && n > 0 && Times(p, n, a) == Infinity
    ensures Times(p, k, a) == Times(p, k % n, a)
  {
    hide AffAdd, OnCurve, Times, Prime;
    var q := k / n;
    assert k == q * n + k % n;
    TimesTimes(p, b, q, n, a);
    TimesInfinity(p, q);
    TimesAdd(p, b, q * n, k % n, a);
    AddInfinity(p, Times(p, k % n, a));
  }

  lemma SameMultiple(p: nat, b: int, n: nat, k: nat, j: nat, a: Affine)
    requires GroupLaw(p, b) && OnCurve(p, b, a) && n > 0 && Times(p, n, a) == Infinity && Cong(n, k, j)
    ensures Times(p, k, a) == Times(p, j, a)
  {
    hide OnCurve, Times, GroupLaw, Cong;
    CongIsModEq(n, k, j);
    TimesMod(p, b, n, k, a);
    TimesMod(p, b, n, j, a);
  }

  // ----- What is accepted

  /** (e w) + (r w) d is k when w is the inverse of s. */
  lemma NonceBack(n: nat, d: nat, k: nat, e: nat, r: nat, s: nat, w: nat)
    requires n > 0 && Mul(n, s, w) == 1 % n && Cong(n, k * s, e + r * d)
    ensures Cong(n, Mul(n, e, w) + Mul(n, r, w) * d, k)
  {
    hide Cong, Mul;
    MulCong(n, e, w);
    MulCong(n, r, w);
    CongRefl(n, d);
    CongMul(n, Mul(n, r, w), r * w, d, d);
    CongAdd(n, Mul(n, e, w), e * w, Mul(n, r, w) * d, r * w * d);
    // e w + r w d = (e + r d) w = k (s w) = k
    CongRefl(n, w);
    CongSym(n, k * s, e + r * d);
    CongMul(n, e + r * d, k * s, w, w);
    assert e * w + r * w * d == (e + r * d) * w && (k * s) * w == k * (s * w);
    InverseCong(n, s, w);
    CongRefl(n, k);
    CongMul(n, k, k, s * w, 1);
    CongTrans(n, Mul(n, e, w) + Mul(n, r, w) * d, e * w + r * w * d, k * (s * w));
    CongTrans(n, Mul(n, e, w) + Mul(n, r, w) * d, k * (s * w), k);
  }

  lemma MulCong(n: nat, a: int, b: int)
    requires n > 0
    ensures Cong(n, Mul(n, a, b), a * b)
  {
    CongMod(n, a * b);
  }

  lemma InverseCong(n: nat, s: int, w: int)
    requires n > 0 && Mul(n, s, w) == 1 % n
    ensures Cong(n, s * w, 1)
  {
    CongIsModEq(n, s * w, 1);
  }

  /** u1 G + u2 Q is a multiple of G, as Q is. */
  lemma CombinationIsMultiple(p: nat, b: int, i: nat, j: nat, d: nat, g: Affine)
    requires GroupLaw(p, b) && OnCurve(p, b, g)
    ensures Combination(p, i, g, j, Times(p, d, g)) == Times(p, i + j * d, g)
  {
    hide AffAdd, OnCurve, Times, GroupLaw;
    TimesTimes(p, b, j, d, g);
    TimesAdd(p, b, i, j * d, g);
  }

  /** The hypotheses: a group, a base point of prime order n. */
  ghost predicate BasePoint(p: nat, b: int, n: nat, g: Affine) {
    p > 2 && GroupLaw(p, b) && Prime(n) && n > 2 && OnCurve(p, b, g) && Times(p, n, g) == Infinity
  }

  /** The abscissa of k G modulo n is r. */
  predicate HasAbscissa(p: nat, n: nat, g: Affine, k: nat, r: nat)
    requires p > 2 && n > 0
  {
    var point := Times(p, k, g);
    point.Aff? && point.x % n == r
  }

  /** What verification computes is k G. */
  lemma LadderFindsNonce(p: nat, b: int, n: nat, g: Affine, d: nat, k: nat, e: nat, r: nat, s: nat, w: nat)
    requires BasePoint(p, b, n, g) && Mul(n, s, w) == 1 && Cong(n, k * s, e + r * d)
    ensures Combination(p, Mul(n, e, w), g, Mul(n, r, w), Times(p, d, g)) == Times(p, k, g)
  {
    hide OnCurve, Times, GroupLaw, Prime, Cong, Mul, Combination;
    OneModulo(n);
    NonceBack(n, d, k, e, r, s, w);
    MultipleIs(p, b, n, g, d, k, Mul(n, e, w), Mul(n, r, w));
  }

  lemma OneModulo(n: nat)
    requires n > 1
    ensures 1 % n == 1
  {}

  lemma MultipleIs(p: nat, b: int, n: nat, g: Affine, d: nat, k: nat, i: nat, j: nat)
    requires BasePoint(p, b, n, g) && Cong(n, i + j * d, k)
    ensures Combination(p, i, g, j, Times(p, d, g)) == Times(p, k, g)
  {
    hide OnCurve, Times, GroupLaw, Prime, Cong, Combination;
    CombinationIsMultiple(p, b, i, j, d, g);
    SameMultiple(p, b, n, i + j * d, k, g);
  }

  lemma MatchesIsAbscissa(p: nat, b: int, n: nat, g: Affine, d: nat, k: nat, e: nat, r: nat, s: nat, w: nat)
    requires BasePoint(p, b, n, g) && Mul(n, s, w) == 1 && Cong(n, k * s, e + r * d)
    ensures PointMatches(p, n, g, Times(p, d, g), e, r, w) <==> HasAbscissa(p, n, g, k, r)
  {
    hide OnCurve, Times, GroupLaw, Prime, Cong, Mul, Combination;
    LadderFindsNonce(p, b, n, g, d, k, e, r, s, w);
  }

  /** For the key d G, a signature (r, s) of e is accepted exactly when r is the abscissa of k G for the nonce k
      that s stands for, k = (e + r d) / s. */
  lemma AcceptsExactly(p: nat, b: int, n: nat, g: Affine, d: nat, k: nat, e: nat, r: nat, s: nat)
    requires BasePoint(p, b, n, g) && 1 <= r < n && 1 <= s < n && Cong(n, k * s, e + r * d)
    ensures SecAccepts(p, n, g, Times(p, d, g), e, r, s) <==> HasAbscissa(p, n, g, k, r)
  {
    hide OnCurve, Times, Prime, Cong, Mul, PointMatches, HasAbscissa, Inverse;
    OneInverse(n, s);
    AcceptsByInverse(p, n, g, Times(p, d, g), e, r, s);
    MatchesIsAbscissa(p, b, n, g, d, k, e, r, s, Inverse(n, s));
  }

  /** Division by s. */
  lemma Quotient(n: nat, m: int, s: nat) returns (k: nat)
    requires Prime(n) && n > 2 && 1 <= s < n
    ensures k < n && Cong(n, k * s, m)
  {
    hide Prime, Cong, Mul, Inverse;
    var w := Inverse(n, s);
    k := Mul(n, m, w);
    OneInverse(n, s);
    InverseCong(n, s, w);
    MulCong(n, m, w);
    MultiplyBack(n, m, w, s, k);
  }

  lemma MultiplyBack(n: int, m: int, w: int, s: int, k: int)
    requires n > 0 && Cong(n, s * w, 1) && Cong(n, k, m * w)
    ensures Cong(n, k * s, m)
  {
    hide Cong;
    CongRefl(n, s);
    CongMul(n, k, m * w, s, s);
    Regroup(m, w, s);
    CongRefl(n, m);
    CongMul(n, m, m, s * w, 1);
    assert m * 1 == m;
    CongTrans(n, k * s, m * (s * w), m);
  }

  lemma Regroup(m: int, w: int, s: int)
    ensures m * w * s == m * (s * w)
  {}

  /** What section 4.1.3 produces from a private key and a nonce. */
  ghost predicate Signs(p: nat, n: nat, g: Affine, d: nat, k: nat, e: nat, r: nat, s: nat)
    requires p > 2 && n > 0
  {
    1 <= r < n && 1 <= s < n && HasAbscissa(p, n, g, k, r) && Cong(n, k * s, e + r * d)
  }

  ghost predicate CanSign(p: nat, n: nat, g: Affine, d: nat, e: nat, r: nat, s: nat)
    requires p > 2 && n > 0
  {
    exists k: nat :: k < n && Signs(p, n, g, d, k, e, r, s)
  }

  /** Verification accepts exactly what can be signed with the private key of the public key. */
  lemma AcceptsWhatIsSigned(p: nat, b: int, n: nat, g: Affine, d: nat, e: nat, r: nat, s: nat)
    requires BasePoint(p, b, n, g)
    ensures SecAccepts(p, n, g, Times(p, d, g), e, r, s) <==> CanSign(p, n, g, d, e, r, s)
  {
    hide OnCurve, Times, Prime, Cong, PointMatches, HasAbscissa;
    if 1 <= r < n && 1 <= s < n {
      var k := Quotient(n, e + r * d, s);
      AcceptsExactly(p, b, n, g, d, k, e, r, s);
      if HasAbscissa(p, n, g, k, r) { assert Signs(p, n, g, d, k, e, r, s); }
      if j: nat :| j < n && Signs(p, n, g, d, j, e, r, s) { AcceptsExactly(p, b, n, g, d, j, e, r, s); }
    }
  }
}
