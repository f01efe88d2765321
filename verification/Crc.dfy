/**
 The bitwise reflected CRC of mcuboot-image/src/loader_info.rs:95-112, for any generator.
 Machine words are bit sequences, least significant bit first, so a little-endian word is
 the concatenation of its bytes and a right shift drops the first bit.
 */
module Crc {

  type Byte = b: seq<bool> | |b| == 8 witness seq(8, _ => false)
  type Word = w: seq<bool> | |w| == 32 witness seq(32, _ => false)

  // ----- Words

  function Zeros(n: nat): (r: seq<bool>)
    ensures |r| == n && forall i :: 0 <= i < n ==> !r[i]
  {
    seq(n, _ => false)
  }

  function Ones(): (r: Word)
    ensures forall i :: 0 <= i < 32 ==> r[i]
  {
    seq(32, _ => true)
  }

  function Xor(v: Word, w: Word): (r: Word)
    ensures forall i :: 0 <= i < 32 ==> r[i] == (v[i] != w[i])
  {
    seq(32, i requires 0 <= i < 32 => v[i] != w[i])
  }

  function Not(w: Word): (r: Word)
    ensures forall i :: 0 <= i < 32 ==> r[i] == !w[i]
  {
    seq(32, i requires 0 <= i < 32 => !w[i])
  }

  function ShiftDown(w: Word): Word {
    w[1..] + [false]
  }

  function Low(b: Byte): Word {
    b + Zeros(24)
  }

  function Concat(a: seq<bool>, b: seq<bool>): seq<bool> {
    a + b
  }

  /** The word spelled by four bytes, least significant first. */
  function Join(w: seq<Byte>): Word
    requires |w| == 4
  {
    Concat(Concat(w[0], w[1]), Concat(w[2], w[3]))
  }

  function Split(w: Word): (r: seq<Byte>)
    ensures |r| == 4 && Join(r) == w
  {
    [w[..8], w[8..16], w[16..24], w[24..]]
  }

  // ----- The register

  function BitStep(g: Word, crc: Word): Word {
    if crc[0] then Xor(ShiftDown(crc), g) else ShiftDown(crc)
  }

  function Steps(g: Word, crc: Word, n: nat): Word {
    if n == 0 then crc else BitStep(g, Steps(g, crc, n - 1))
  }

  /** The register after absorbing `s` from the state `from`. */
  function Register(g: Word, from: Word, s: seq<Byte>): Word {
    if s == [] then from else Steps(g, Xor(Register(g, from, s[..|s| - 1]), Low(s[|s| - 1])), 8)
  }

  function Checksum(g: Word, s: seq<Byte>): Word {
    Not(Register(g, Ones(), s))
  }

  method Crc32(g: Word, bytes: seq<Byte>, len: nat) returns (r: Word)
    requires len <= |bytes|
    ensures r == Checksum(g, bytes[..len])
  {
    var crc := Ones();
    var index := 0;
    while index < len
      invariant index <= len
      invariant crc == Register(g, Ones(), bytes[..index])
    {
      crc := Xor(crc, Low(bytes[index]));
      ghost var mixed := crc;
      var bit := 0;
      while bit < 8
        invariant bit <= 8
        invariant crc == Steps(g, mixed, bit)
      {
        crc := if crc[0] then Xor(ShiftDown(crc), g) else ShiftDown(crc);
        bit := bit + 1;
      }
      RegisterSnoc(g, Ones(), bytes, index);
      index := index + 1;
    }
    r := Not(crc);
  }

  // ----- Nothing absorbed is ever forgotten

  lemma XorInjective(s: Word, x: Word, y: Word)
    requires Xor(s, x) == Xor(s, y)
    ensures x == y
  {
    forall i | 0 <= i < 32 ensures x[i] == y[i] {
      assert Xor(s, x)[i] == Xor(s, y)[i];
    }
  }

  lemma XorCommutes(x: Word, y: Word)
    ensures Xor(x, y) == Xor(y, x)
  {}

  lemma ShiftDownInjective(x: Word, y: Word)
    requires ShiftDown(x) == ShiftDown(y) && x[0] == y[0]
    ensures x == y
  {
    assert x == [x[0]] + ShiftDown(x)[..31];
    assert y == [y[0]] + ShiftDown(y)[..31];
  }

  /** A step loses nothing: the generator's top bit tells which branch was taken. */
  lemma BitStepInjective(g: Word, x: Word, y: Word)
    requires g[31] && BitStep(g, x) == BitStep(g, y)
    ensures x == y
  {
    assert BitStep(g, x)[31] == x[0] && BitStep(g, y)[31] == y[0];
    if x[0] {
      XorCommutes(g, ShiftDown(x));
      XorCommutes(g, ShiftDown(y));
      XorInjective(g, ShiftDown(x), ShiftDown(y));
    }
    ShiftDownInjective(x, y);
  }

  lemma {:induction false} StepsInjective(g: Word, x: Word, y: Word, n: nat)
    requires g[31] && Steps(g, x, n) == Steps(g, y, n)
    ensures x == y
  {
    if n > 0 {
      BitStepInjective(g, Steps(g, x, n - 1), Steps(g, y, n - 1));
      StepsInjective(g, x, y, n - 1);
    }
  }

  lemma {:induction false} StepsAdd(g: Word, x: Word, m: nat, n: nat)
    ensures Steps(g, Steps(g, x, m), n) == Steps(g, x, m + n)
  {
    if n > 0 { StepsAdd(g, x, m, n - 1); }
  }

  /** Exclusive-or with a word whose first bit is clear commutes with a step. */
  lemma EvenPassesThrough(g: Word, x: Word, y: Word)
    requires !y[0]
    ensures BitStep(g, Xor(x, y)) == Xor(BitStep(g, x), ShiftDown(y))
  {
    assert Xor(x, y)[0] == x[0];
    assert ShiftDown(Xor(x, y)) == Xor(ShiftDown(x), ShiftDown(y));
  }

  /** Bits that start at place `n` or above are only moved down by `n` steps. */
  lemma {:induction false} HighBitsMoveDown(g: Word, x: Word, y: Word, n: nat)
    requires n <= 32 && forall i :: 0 <= i < n ==> !y[i]
    ensures Steps(g, Xor(x, y), n) == Xor(Steps(g, x, n), y[n..] + Zeros(n))
  {
    if n == 0 {
      assert y[0..] + Zeros(0) == y;
    } else {
      HighBitsMoveDown(g, x, y, n - 1);
      var z: Word := y[n - 1..] + Zeros(n - 1);
      EvenPassesThrough(g, Steps(g, x, n - 1), z);
      assert ShiftDown(z) == y[n..] + Zeros(n);
    }
  }

  /** Absorbing the lowest byte of a word now and the rest later is eight steps on the word. */
  lemma AbsorbLowest(g: Word, s: Word, a: Byte, rest: seq<bool>)
    requires |rest| == 24
    ensures Xor(Steps(g, Xor(s, Low(a)), 8), rest + Zeros(8)) == Steps(g, Xor(s, a + rest), 8)
  {
    var y: Word := Zeros(8) + rest;
    assert Xor(s, a + rest) == Xor(Xor(s, Low(a)), y);
    HighBitsMoveDown(g, Xor(s, Low(a)), y, 8);
    assert y[8..] + Zeros(8) == rest + Zeros(8);
  }

  lemma RegisterSnoc(g: Word, from: Word, s: seq<Byte>, k: nat)
    requires k < |s|
    ensures Register(g, from, s[..k + 1]) == Steps(g, Xor(Register(g, from, s[..k]), Low(s[k])), 8)
  {
    assert s[..k + 1][..k] == s[..k];
  }

  /** What is left of the word `w` after its first one, two and three bytes, padded with zeros. */
  ghost function Rest(w: seq<Byte>, k: nat): (r: seq<bool>)
    requires |w| == 4 && 1 <= k <= 3
    ensures |r| == 24
  {
    if k == 1 then Concat(w[1], Concat(w[2], w[3]))
    else if k == 2 then Concat(w[2], Concat(w[3], Zeros(8)))
    else Concat(w[3], Zeros(16))
  }

  lemma RestShifts(w: seq<Byte>)
    requires |w| == 4
    ensures w[0] + Rest(w, 1) == Join(w)
    ensures Rest(w, 1) + Zeros(8) == w[1] + Rest(w, 2)
    ensures Rest(w, 2) + Zeros(8) == w[2] + Rest(w, 3)
    ensures Rest(w, 3) + Zeros(8) == Low(w[3])
  {}

  /** Four bytes absorbed one at a time are thirty-two steps on the word they spell. */
  lemma FourBytes(g: Word, s: Word, w: seq<Byte>)
    requires |w| == 4
    ensures Register(g, s, w) == Steps(g, Xor(s, Join(w)), 32)
  {
    RestShifts(w);
    var u := Xor(s, Join(w));
    var s1, s2, s3 := Register(g, s, w[..1]), Register(g, s, w[..2]), Register(g, s, w[..3]);
    assert Xor(s1, w[1] + Rest(w, 2)) == Steps(g, u, 8) by {
      RegisterSnoc(g, s, w, 0);
      assert w[..0] == [];
      AbsorbLowest(g, s, w[0], Rest(w, 1));
    }
    assert Xor(s2, w[2] + Rest(w, 3)) == Steps(g, u, 16) by {
      RegisterSnoc(g, s, w, 1);
      AbsorbLowest(g, s1, w[1], Rest(w, 2));
      StepsAdd(g, u, 8, 8);
    }
    assert Xor(s3, Low(w[3])) == Steps(g, u, 24) by {
      RegisterSnoc(g, s, w, 2);
      AbsorbLowest(g, s2, w[2], Rest(w, 3));
      StepsAdd(g, u, 16, 8);
    }
    RegisterSnoc(g, s, w, 3);
    assert w[..4] == w;
    StepsAdd(g, u, 24, 8);
  }

  lemma {:induction false} RegisterAppend(g: Word, s: Word, a: seq<Byte>, b: seq<Byte>)
    ensures Register(g, s, a + b) == Register(g, Register(g, s, a), b)
  {
    if b == [] {
      assert a + b == a;
    } else {
      assert (a + b)[..|a + b| - 1] == a + b[..|b| - 1];
      RegisterAppend(g, s, a, b[..|b| - 1]);
    }
  }

  /** Whatever is absorbed, different starting states stay different. */
  lemma {:induction false} RegisterInjective(g: Word, x: Word, y: Word, s: seq<Byte>)
    requires g[31] && Register(g, x, s) == Register(g, y, s)
    ensures x == y
  {
    if s != [] {
      var t, b := s[..|s| - 1], Low(s[|s| - 1]);
      var u, v := Register(g, x, t), Register(g, y, t);
      StepsInjective(g, Xor(u, b), Xor(v, b), 8);
      XorCommutes(b, u);
      XorCommutes(b, v);
      XorInjective(b, u, v);
      RegisterInjective(g, x, y, t);
    }
  }

  lemma JoinInjective(v: seq<Byte>, w: seq<Byte>)
    requires |v| == |w| == 4 && Join(v) == Join(w)
    ensures v == w
  {
    assert v[0] == Join(v)[..8] && v[1] == Join(v)[8..16] && v[2] == Join(v)[16..24] && v[3] == Join(v)[24..];
    assert w[0] == Join(w)[..8] && w[1] == Join(w)[8..16] && w[2] == Join(w)[16..24] && w[3] == Join(w)[24..];
  }

  /** From one state, four different bytes never lead to the same state. */
  lemma FourBytesInjective(g: Word, s: Word, v: seq<Byte>, w: seq<Byte>)
    requires g[31] && |v| == |w| == 4 && Register(g, s, v) == Register(g, s, w)
    ensures v == w
  {
    FourBytes(g, s, v);
    FourBytes(g, s, w);
    StepsInjective(g, Xor(s, Join(v)), Xor(s, Join(w)), 32);
    XorInjective(s, Join(v), Join(w));
    JoinInjective(v, w);
  }

  /** A message followed by its own checksum drives the register to one constant, and only then. */
  lemma ChecksumIsResidue(g: Word, message: seq<Byte>, stored: seq<Byte>)
    requires g[31] && |stored| == 4
    ensures Join(stored) == Checksum(g, message)
            <==> Register(g, Ones(), message + stored) == Steps(g, Ones(), 32)
  {
    var s, word := Register(g, Ones(), message), Join(stored);
    RegisterAppend(g, Ones(), message, stored);
    FourBytes(g, s, stored);
    if word == Not(s) {
      assert Xor(s, word) == Ones();
    }
    if Steps(g, Xor(s, word), 32) == Steps(g, Ones(), 32) {
      StepsInjective(g, Xor(s, word), Ones(), 32);
      forall i | 0 <= i < 32 ensures word[i] == Not(s)[i] {
        assert Xor(s, word)[i];
      }
    }
  }

  /** Two messages that differ only inside one window of four bytes leave different registers. */
  lemma BurstShows(g: Word, s: Word, head: seq<Byte>, v: seq<Byte>, w: seq<Byte>, tail: seq<Byte>)
    requires g[31] && |v| == |w| == 4
    requires Register(g, s, head + v + tail) == Register(g, s, head + w + tail)
    ensures v == w
  {
    RegisterAppend(g, s, head + v, tail);
    RegisterAppend(g, s, head + w, tail);
    RegisterInjective(g, Register(g, s, head + v), Register(g, s, head + w), tail);
    RegisterAppend(g, s, head, v);
    RegisterAppend(g, s, head, w);
    FourBytesInjective(g, Register(g, s, head), v, w);
  }
}
