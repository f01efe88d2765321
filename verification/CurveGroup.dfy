/**
 Multiples of points. Addition on the curve is closed and commutative (proved); that it is associative
 is the one fact about the group taken as a hypothesis. From it follows what one step of the
 double-scalar ladder of mcuboot-image/src/p256.rs:367-379 does.
 */
module CurveGroup {
  import opened ModArith
  import opened Fermat
  import opened MontInverse
  import opened Curve
  import opened CurveAgreement
  import opened CurveClosure

  // ----- Commutativity

  lemma SameSlope(p: nat, d: int, e: int, s: int, s': int)
    requires Prime(p) && !Cong(p, d, 0) && Cong(p, s * d, e) && Cong(p, s' * (-d), -e)
    ensures Cong(p, s, s')
  {
    hide Prime, Cong;
    PrimeIsPositive(p);
    Scale(p, -1, s' * (-d), -e);
    assert -1 * (s' * (-d)) == s' * d && -1 * (-e) == e;
    CongSym(p, s' * d, e);
    CongTrans(p, s * d, e, s' * d);
    assert s * d == d * s && s' * d == d * s';
    Cancel(p, d, s, s');
  }

  lemma ThirdFromEither(p: nat, x1: int, y1: int, x2: int, y2: int, s: int, s': int)
    requires p > 0 && Cong(p, s, s') && Cong(p, s * (x2 - x1), y2 - y1)
    ensures Third(p, x1, y1, x2, s) == Third(p, x2, y2, x1, s')
  {
    hide Cong, Third;
    var t, t' := Third(p, x1, y1, x2, s), Third(p, x2, y2, x1, s');
    ThirdCong(p, x1, y1, x2, s);
    ThirdCong(p, x2, y2, x1, s');
    CongMul(p, s, s', s, s');
    CongRefl(p, x1 + x2);
    CongAdd(p, s * s, s' * s', x1 + x2, x1 + x2);
    CongTrans(p, t.x, s * s - x1 - x2, s' * s' - x2 - x1);
    CongSym(p, t'.x, s' * s' - x2 - x1);
    CongTrans(p, t.x, s' * s' - x2 - x1, t'.x);
    CongResidues(p, t.x, t'.x);
    // s (x1 - x) - y1 = s (x2 - x) - y2
    var x := t.x;
    assert s * (x2 - x) == s * (x1 - x) + s * (x2 - x1);
    CongRefl(p, s * (x1 - x) - y2);
    CongAdd(p, s * (x1 - x) - y2, s * (x1 - x) - y2, s * (x2 - x1), y2 - y1);
    CongSym(p, s * (x2 - x) - y2, s * (x1 - x) - y1);
    CongTrans(p, t.y, s * (x1 - x) - y1, s * (x2 - x) - y2);
    Scale(p, x2 - x, s, s');
    CongRefl(p, y2);
    CongAdd(p, s * (x2 - x), s' * (x2 - x), y2, y2);
    CongTrans(p, t.y, s * (x2 - x) - y2, s' * (x2 - x) - y2);
    CongSym(p, t'.y, s' * (x2 - x) - y2);
    CongTrans(p, t.y, s' * (x2 - x) - y2, t'.y);
    CongResidues(p, t.y, t'.y);
  }

  /** The order of the summands does not matter. */
  lemma AddCommutes(p: nat, b: int, a: Affine, c: Affine)
    requires Prime(p) && p > 2 && OnCurve(p, b, a) && OnCurve(p, b, c)
    ensures AffAdd(p, a, c) == AffAdd(p, c, a)
  {
    hide Prime, Cong, Inverse, Third;
    if a.Aff? && c.Aff? && a.x != c.x {
      var x1: int, y1: int, x2: int, y2: int := a.x, a.y, c.x, c.y;
      var d, e := x2 - x1, y2 - y1;
      DifferenceNotZero(p, a.x, c.x);
      DifferenceNotZero(p, c.x, a.x);
      ChordSlope(p, d, e);
      ChordSlope(p, -d, -e);
      SameSlope(p, d, e, e * Inverse(p, d), -e * Inverse(p, -d));
      ThirdFromEither(p, x1, y1, x2, y2, e * Inverse(p, d), -e * Inverse(p, -d));
      assert x1 - x2 == -d && y1 - y2 == -e;
    }
  }

  // ----- Multiples

  ghost predicate AssociatesAt(p: nat, b: int, a: Affine, c: Affine, d: Affine)
    requires p > 2
  {
    OnCurve(p, b, a) && OnCurve(p, b, c) && OnCurve(p, b, d) ==>
      AffAdd(p, AffAdd(p, a, c), d) == AffAdd(p, a, AffAdd(p, c, d))
  }

  /** The hypothesis: addition on the curve is associative, over a prime field. */
  ghost predicate GroupLaw(p: nat, b: int) {
    Prime(p) && p > 2 && forall a, c, d :: AssociatesAt(p, b, a, c, d)
  }

  function Times(p: nat, k: nat, a: Affine): Affine
    requires p > 2
  {
    if k == 0 then Infinity else AffAdd(p, Times(p, k - 1, a), a)
  }

  lemma {:induction false} TimesOnCurve(p: nat, b: int, k: nat, a: Affine)
    requires GroupLaw(p, b) && OnCurve(p, b, a)
    ensures OnCurve(p, b, Times(p, k, a))
  {
    hide AffAdd, OnCurve;
    if k == 0 {
      InfinityOnCurve(p, b);
    } else {
      TimesOnCurve(p, b, k - 1, a);
      AddCloses(p, b, Times(p, k - 1, a), a);
    }
  }

  lemma InfinityOnCurve(p: nat, b: int)
    requires p > 0
    ensures OnCurve(p, b, Infinity)
  {}

  lemma AddInfinity(p: nat, a: Affine)
    requires p > 2
    ensures AffAdd(p, Infinity, a) == a && AffAdd(p, a, Infinity) == a
  {}

  lemma Associates(p: nat, b: int, a: Affine, c: Affine, d: Affine)
    requires GroupLaw(p, b) && OnCurve(p, b, a) && OnCurve(p, b, c) && OnCurve(p, b, d)
    ensures AffAdd(p, AffAdd(p, a, c), d) == AffAdd(p, a, AffAdd(p, c, d))
  {
    assert AssociatesAt(p, b, a, c, d);
  }

  /** (a + c) + (d + e) = (a + d) + (c + e). */
  lemma Exchange(p: nat, b: int, a: Affine, c: Affine, d: Affine, e: Affine)
    requires GroupLaw(p, b) && OnCurve(p, b, a) && OnCurve(p, b, c) && OnCurve(p, b, d) && OnCurve(p, b, e)
    ensures AffAdd(p, AffAdd(p, a, c), AffAdd(p, d, e)) == AffAdd(p, AffAdd(p, a, d), AffAdd(p, c, e))
  {
    hide AffAdd, OnCurve, Prime;
    AddCloses(p, b, d, e);
    AddCloses(p, b, c, e);
    Associates(p, b, a, c, AffAdd(p, d, e));
    Associates(p, b, c, d, e);
    AddCommutes(p, b, c, d);
    Associates(p, b, d, c, e);
    Associates(p, b, a, d, AffAdd(p, c, e));
  }

  lemma {:induction false} TimesDouble(p: nat, b: int, k: nat, a: Affine)
    requires GroupLaw(p, b) && OnCurve(p, b, a)
    ensures AffAdd(p, Times(p, k, a), Times(p, k, a)) == Times(p, 2 * k, a)
  {
    hide AffAdd, OnCurve;
    if k == 0 {
      AddInfinity(p, Infinity);
    } else {
      TimesDouble(p, b, k - 1, a);
      TimesOnCurve(p, b, k - 1, a);
      var t := Times(p, k - 1, a);
      Exchange(p, b, t, a, t, a);
      TimesOnCurve(p, b, 2 * (k - 1), a);
      Associates(p, b, Times(p, 2 * (k - 1), a), a, a);
      assert Times(p, 2 * k - 1, a) == AffAdd(p, Times(p, 2 * (k - 1), a), a);
    }
  }

  /** i times g plus j times q. */
  function Combination(p: nat, i: nat, g: Affine, j: nat, q: Affine): Affine
    requires p > 2
  {
    AffAdd(p, Times(p, i, g), Times(p, j, q))
  }

  lemma CombinationDouble(p: nat, b: int, i: nat, g: Affine, j: nat, q: Affine)
    requires GroupLaw(p, b) && OnCurve(p, b, g) && OnCurve(p, b, q)
    ensures AffAdd(p, Combination(p, i, g, j, q), Combination(p, i, g, j, q)) == Combination(p, 2 * i, g, 2 * j, q)
  {
    hide AffAdd, OnCurve, Times;
    TimesOnCurve(p, b, i, g);
    TimesOnCurve(p, b, j, q);
    Exchange(p, b, Times(p, i, g), Times(p, j, q), Times(p, i, g), Times(p, j, q));
    TimesDouble(p, b, i, g);
    TimesDouble(p, b, j, q);
  }

  /** What the ladder adds for a pair of bits. */
  function Addend(p: nat, b1: nat, g: Affine, b2: nat, q: Affine): Affine
    requires p > 2
  {
    AffAdd(p, if b1 != 0 then g else Infinity, if b2 != 0 then q else Infinity)
  }

  lemma TimesBit(p: nat, i: nat, bit: nat, a: Affine)
    requires p > 2 && bit <= 1
    ensures AffAdd(p, Times(p, i, a), if bit != 0 then a else Infinity) == Times(p, i + bit, a)
  {
    hide AffAdd;
    AddInfinity(p, Times(p, i, a));
  }

  lemma CombinationStep(p: nat, b: int, i: nat, b1: nat, g: Affine, j: nat, b2: nat, q: Affine)
    requires GroupLaw(p, b) && OnCurve(p, b, g) && OnCurve(p, b, q) && b1 <= 1 && b2 <= 1
    ensures AffAdd(p, Combination(p, i, g, j, q), Addend(p, b1, g, b2, q)) == Combination(p, i + b1, g, j + b2, q)
  {
    hide AffAdd, OnCurve, Times;
    InfinityOnCurve(p, b);
    TimesOnCurve(p, b, i, g);
    TimesOnCurve(p, b, j, q);
    var g', q' := if b1 != 0 then g else Infinity, if b2 != 0 then q else Infinity;
    Exchange(p, b, Times(p, i, g), Times(p, j, q), g', q');
    TimesBit(p, i, b1, g);
    TimesBit(p, j, b2, q);
  }
}
