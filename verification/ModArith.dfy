/** Arithmetic modulo a number: congruence as a ring, powers, and primes. */
module ModArith {
  import opened Arithmetic

  // ----- Congruence

  ghost predicate Cong(m: int, x: int, y: int)
    requires m > 0
  {
    (x - y) % m == 0
  }

  lemma CongBy(m: int, x: int, y: int, k: int)
    requires m > 0 && x - y == k * m
    ensures Cong(m, x, y)
  {
    MultipleMod(k, m);
  }

  lemma CongRefl(m: int, x: int)
    requires m > 0
    ensures Cong(m, x, x)
  {}

  lemma CongSym(m: int, x: int, y: int)
    requires m > 0 && Cong(m, x, y)
    ensures Cong(m, y, x)
  {
    var k := (x - y) / m;
    assert y - x == (-k) * m;
    CongBy(m, y, x, -k);
  }

  lemma CongTrans(m: int, x: int, y: int, z: int)
    requires m > 0 && Cong(m, x, y) && Cong(m, y, z)
    ensures Cong(m, x, z)
  {
    var k, j := (x - y) / m, (y - z) / m;
    assert x - z == (k + j) * m;
    CongBy(m, x, z, k + j);
  }

  lemma CongAdd(m: int, x: int, y: int, u: int, v: int)
    requires m > 0 && Cong(m, x, y) && Cong(m, u, v)
    ensures Cong(m, x + u, y + v) && Cong(m, x - u, y - v)
  {
    var k, j := (x - y) / m, (u - v) / m;
    assert (x + u) - (y + v) == (k + j) * m && (x - u) - (y - v) == (k - j) * m;
    CongBy(m, x + u, y + v, k + j);
    CongBy(m, x - u, y - v, k - j);
  }

  lemma CongMul(m: int, x: int, y: int, u: int, v: int)
    requires m > 0 && Cong(m, x, y) && Cong(m, u, v)
    ensures Cong(m, x * u, y * v)
  {
    var k, j := (x - y) / m, (u - v) / m;
    assert x == y + k * m && u == v + j * m;
    assert x * u - y * v == (y * j + k * v + k * j * m) * m;
    CongBy(m, x * u, y * v, y * j + k * v + k * j * m);
  }

  lemma CongMod(m: int, x: int)
    requires m > 0
    ensures Cong(m, x % m, x) && Cong(m, x, x % m) && 0 <= x % m < m
  {
    var q := x / m;
    assert x == q * m + x % m;
    CongBy(m, x, x % m, q);
    CongSym(m, x, x % m);
  }

  /** Congruence is equality of residues. */
  lemma CongIsModEq(m: int, x: int, y: int)
    requires m > 0
    ensures Cong(m, x, y) <==> x % m == y % m
  {
    CongMod(m, x);
    CongMod(m, y);
    if Cong(m, x, y) {
      CongTrans(m, x % m, x, y);
      CongTrans(m, x % m, y, y % m);
      CongResidues(m, x % m, y % m);
    } else if x % m == y % m {
      CongTrans(m, x, x % m, y);
    }
  }

  lemma CongResidues(m: int, x: int, y: int)
    requires m > 0 && 0 <= x < m && 0 <= y < m && Cong(m, x, y)
    ensures x == y
  {
    var k := (x - y) / m;
    if k >= 1 { MulMonotone(1, k, m); }
    if k <= -1 { MulMonotone(k, -1, m); }
  }

  // ----- Field operations on residues

  function Add(m: nat, a: int, b: int): (r: nat)
    requires m > 0
    ensures r < m
  {
    (a + b) % m
  }

  function Sub(m: nat, a: int, b: int): (r: nat)
    requires m > 0
    ensures r < m
  {
    (a - b) % m
  }

  function Mul(m: nat, a: int, b: int): (r: nat)
    requires m > 0
    ensures r < m
  {
    (a * b) % m
  }

  // ----- Powers

  function Power(a: int, n: nat): int {
    if n == 0 then 1 else a * Power(a, n - 1)
  }

  lemma {:induction false} PowerAdd(a: int, m: nat, n: nat)
    ensures Power(a, m + n) == Power(a, m) * Power(a, n)
  {
    if m > 0 {
      PowerAdd(a, m - 1, n);
      assert a * (Power(a, m - 1) * Power(a, n)) == (a * Power(a, m - 1)) * Power(a, n);
    }
  }

  // ----- Primes

  ghost predicate DividesOneOf(p: nat, a: int, b: int)
    requires p > 0
  {
    (a * b) % p == 0 ==> a % p == 0 || b % p == 0
  }

  /** Primality in Euclid's form: a prime that divides a product divides a factor. */
  ghost predicate Prime(p: nat) {
    p > 1 && forall a: int, b: int :: DividesOneOf(p, a, b)
  }

  lemma PrimeDivides(p: nat, a: int, b: int)
    requires Prime(p) && Cong(p, a * b, 0)
    ensures Cong(p, a, 0) || Cong(p, b, 0)
  {
    assert DividesOneOf(p, a, b);
  }

  /** A factor that is not zero can be cancelled. */
  lemma Cancel(p: nat, a: int, x: int, y: int)
    requires Prime(p) && !Cong(p, a, 0) && Cong(p, a * x, a * y)
    ensures Cong(p, x, y)
  {
    var k := (a * x - a * y) / p;
    assert a * (x - y) - 0 == k * p;
    CongBy(p, a * (x - y), 0, k);
    PrimeDivides(p, a, x - y);
  }
}
