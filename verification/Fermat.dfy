/** Fermat's little theorem, from the primality of the modulus alone. */
module Fermat {
  import opened Arithmetic
  import opened ModArith

  function Product(s: seq<int>): int {
    if s == [] then 1 else s[0] * Product(s[1..])
  }

  lemma {:induction false} ProductWithout(s: seq<int>, i: nat)
    requires i < |s|
    ensures Product(s) == s[i] * Product(s[..i] + s[i + 1..])
  {
    if i == 0 {
      assert s[..0] + s[1..] == s[1..];
    } else {
      var t := s[1..];
      ProductWithout(t, i - 1);
      var rest := s[..i] + s[i + 1..];
      assert rest[1..] == t[..i - 1] + t[i..];
      assert s[0] * (s[i] * Product(rest[1..])) == s[i] * (s[0] * Product(rest[1..]));
    }
  }

  /** The order of the factors does not matter. */
  lemma {:induction false} ProductPermutes(s: seq<int>, t: seq<int>)
    requires multiset(s) == multiset(t)
    ensures Product(s) == Product(t)
    decreases |s|
  {
    assert |s| == |multiset(s)| && |t| == |multiset(t)|;
    if s != [] {
      var x := s[0];
      assert x in multiset(s);
      var i :| 0 <= i < |t| && t[i] == x;
      var rest := t[..i] + t[i + 1..];
      assert t == t[..i] + [x] + t[i + 1..];
      assert s == [x] + s[1..];
      assert multiset(rest) == multiset(t) - multiset{x};
      assert multiset(s[1..]) == multiset(s) - multiset{x};
      ProductWithout(t, i);
      ProductPermutes(s[1..], rest);
    }
  }

  // ----- A set of residues, permuted

  ghost predicate Distinct(s: seq<int>) {
    forall i, j :: 0 <= i < j < |s| ==> s[i] != s[j]
  }

  ghost predicate Within(s: seq<int>, t: seq<int>) {
    forall x :: x in s ==> x in t
  }

  ghost function Elements(s: seq<int>): set<int> {
    set x | x in s
  }

  lemma {:induction false} DistinctIsSet(s: seq<int>)
    requires Distinct(s)
    ensures multiset(s) == multiset(Elements(s)) && |Elements(s)| == |s|
  {
    if s != [] {
      var t, x := s[..|s| - 1], s[|s| - 1];
      DistinctIsSet(t);
      assert s == t + [x];
      assert x !in t;
      assert Elements(s) == Elements(t) + {x};
    }
  }

  lemma SubsetOfSameSize(a: set<int>, b: set<int>)
    requires a <= b && |a| == |b|
    ensures a == b
  {
    assert b == a + (b - a);
    assert |b| == |a| + |b - a|;
    assert b - a == {};
  }

  lemma Permutation(s: seq<int>, t: seq<int>)
    requires Distinct(s) && Distinct(t) && |s| == |t| && Within(s, t)
    ensures multiset(s) == multiset(t)
  {
    DistinctIsSet(s);
    DistinctIsSet(t);
    SubsetOfSameSize(Elements(s), Elements(t));
  }

  // ----- The theorem

  /** 1, 2, ..., n. */
  function UpTo(n: nat): (r: seq<int>)
    ensures |r| == n && forall i :: 0 <= i < n ==> r[i] == i + 1
  {
    seq(n, i => i + 1)
  }

  /** a, 2a, ..., na modulo p. */
  function Multiples(a: int, n: nat, p: nat): (r: seq<int>)
    requires p > 0
    ensures |r| == n && forall i :: 0 <= i < n ==> r[i] == (a * (i + 1)) % p
  {
    seq(n, i => (a * (i + 1)) % p)
  }

  lemma MultiplesDistinct(a: int, p: nat)
    requires Prime(p) && !Cong(p, a, 0)
    ensures Distinct(Multiples(a, p - 1, p))
  {
    hide Prime, Cong, Multiples;
    PrimeIsPositive(p);
    var s := Multiples(a, p - 1, p);
    forall i, j | 0 <= i < j < |s| ensures s[i] != s[j] {
      if s[i] == s[j] { SameMultiple(a, i + 1, j + 1, p); }
    }
  }

  lemma MultiplesInRange(a: int, p: nat)
    requires Prime(p) && !Cong(p, a, 0)
    ensures Within(Multiples(a, p - 1, p), UpTo(p - 1))
  {
    hide Prime, Cong, Multiples;
    PrimeIsPositive(p);
    var s, t := Multiples(a, p - 1, p), UpTo(p - 1);
    forall x | x in s ensures x in t {
      var i :| 0 <= i < |s| && s[i] == x;
      MultipleNotZero(a, i + 1, p);
      assert t[x - 1] == x;
    }
  }

  lemma MultiplesArePermuted(a: int, p: nat)
    requires Prime(p) && !Cong(p, a, 0)
    ensures multiset(Multiples(a, p - 1, p)) == multiset(UpTo(p - 1))
  {
    hide Prime, Cong, Multiples;
    PrimeIsPositive(p);
    MultiplesDistinct(a, p);
    MultiplesInRange(a, p);
    Permutation(Multiples(a, p - 1, p), UpTo(p - 1));
  }

  lemma SameMultiple(a: int, x: nat, y: nat, p: nat)
    requires Prime(p) && !Cong(p, a, 0) && x < p && y < p && (a * x) % p == (a * y) % p
    ensures x == y
  {
    hide Prime, Cong;
    PrimeIsPositive(p);
    CongIsModEq(p, a * x, a * y);
    Cancel(p, a, x, y);
    CongResidues(p, x, y);
  }

  lemma PrimeIsPositive(p: nat)
    requires Prime(p)
    ensures p > 1
  {}

  lemma MultipleNotZero(a: int, x: nat, p: nat)
    requires Prime(p) && !Cong(p, a, 0) && 0 < x < p
    ensures 0 < (a * x) % p < p
  {
    if (a * x) % p == 0 {
      assert a * 0 == 0;
      DivModUnique(0, p, 0, 0);
      SameMultiple(a, x, 0, p);
    }
  }

  /** The product of the multiples is a^n n!, up to congruence. */
  lemma {:induction false} ProductOfMultiples(a: int, n: nat, p: nat)
    requires p > 0
    ensures Cong(p, Product(Multiples(a, n, p)), Power(a, n) * Product(UpTo(n)))
  {
    hide Cong;
    var s, t := Multiples(a, n, p), UpTo(n);
    if n == 0 {
      CongRefl(p, 1);
    } else {
      ProductOfMultiples(a, n - 1, p);
      ProductWithout(s, n - 1);
      ProductWithout(t, n - 1);
      assert s[..n - 1] + s[n..] == Multiples(a, n - 1, p);
      assert t[..n - 1] + t[n..] == UpTo(n - 1);
      CongMod(p, a * n);
      CongMul(p, (a * n) % p, a * n, Product(Multiples(a, n - 1, p)), Power(a, n - 1) * Product(UpTo(n - 1)));
      Regroup(a, n, Power(a, n - 1), Product(UpTo(n - 1)));
    }
  }

  lemma Regroup(a: int, n: int, pw: int, f: int)
    ensures (a * n) * (pw * f) == (a * pw) * (n * f)
  {}

  lemma {:induction false} FactorialNotZero(n: nat, p: nat)
    requires Prime(p) && n < p
    ensures !Cong(p, Product(UpTo(n)), 0)
  {
    hide Prime, Cong;
    PrimeIsPositive(p);
    if n == 0 {
      if Cong(p, 1, 0) { CongResidues(p, 1, 0); }
    } else {
      FactorialNotZero(n - 1, p);
      var t := UpTo(n);
      ProductWithout(t, n - 1);
      assert t[..n - 1] + t[n..] == UpTo(n - 1);
      if Cong(p, n * Product(UpTo(n - 1)), 0) {
        PrimeDivides(p, n, Product(UpTo(n - 1)));
        if Cong(p, n, 0) { CongResidues(p, n, 0); }
      }
    }
  }

  /** For a prime p and a that p does not divide, a^(p-1) is 1 modulo p. */
  lemma LittleTheorem(a: int, p: nat)
    requires Prime(p) && !Cong(p, a, 0)
    ensures Cong(p, Power(a, p - 1), 1)
  {
    hide Prime, Cong;
    PrimeIsPositive(p);
    var f, pw := Product(UpTo(p - 1)), Power(a, p - 1);
    MultiplesArePermuted(a, p);
    ProductPermutes(Multiples(a, p - 1, p), UpTo(p - 1));
    ProductOfMultiples(a, p - 1, p);
    CongSym(p, f, pw * f);
    FactorialNotZero(p - 1, p);
    assert pw * f == f * pw && f == f * 1;
    Cancel(p, f, pw, 1);
  }

  /** The inverse the code computes: a^(p-2) times a is 1 modulo p. */
  lemma InverseByPower(a: int, p: nat)
    requires Prime(p) && p > 2 && !Cong(p, a, 0)
    ensures Cong(p, a * Power(a, p - 2), 1)
  {
    LittleTheorem(a, p);
  }
}
