/**
 The strict DER reader of ECDSA-Sig-Value in mcuboot-image/src/p256.rs:392-431 (section 2.2.3 of
 RFC 3279, encoded by sections 8.3 and 10.1 of ITU-T X.690), proved to be the exact inverse of
 the canonical encoding.
 */
module DerSignature {
  import opened Wrappers
  import opened Bytes

  const SCALAR: nat := 32

  // ----- The reader

  function ParseInteger(input: seq<byte>): (r: Option<(seq<byte>, seq<byte>)>)
    ensures r.Some? ==> |r.value.0| == SCALAR
  {
    if |input| < 2 then None
    else
      var length, rest := input[1], input[2..];
      if input[0] != 0x02 || length == 0 || length > 33 || |rest| < length then None
      else
        var value, rest := rest[..length], rest[length..];
        if value[0] >= 0x80 then None
        else if value[0] == 0 && length > 1 && value[1] < 0x80 then None
        else
          var value := if value[0] == 0 && length > 1 then value[1..] else value;
          if |value| > SCALAR then None else Some((Zeros(SCALAR - |value|) + value, rest))
  }

  function ParseSignature(der: seq<byte>): (r: Option<(seq<byte>, seq<byte>)>)
    ensures r.Some? ==> |r.value.0| == SCALAR && |r.value.1| == SCALAR
  {
    if |der| < 2 then None
    else
      var length, body := der[1], der[2..];
      if der[0] != 0x30 || length != |body| || length >= 0x80 then None
      else
        match ParseInteger(body)
        case None => None
        case Some((r, rest)) =>
          match ParseInteger(rest)
          case None => None
          case Some((s, rest)) => if rest == [] then Some((r, s)) else None
  }

  // ----- The canonical encoding

  function Zeros(n: nat): (r: seq<byte>)
    ensures |r| == n && forall i :: 0 <= i < n ==> r[i] == 0
  {
    seq(n, _ => 0)
  }

  /** Without leading zeros, but never empty. */
  function Strip(v: seq<byte>): (r: seq<byte>)
    requires |v| > 0
    ensures 0 < |r| <= |v|
  {
    if |v| > 1 && v[0] == 0 then Strip(v[1..]) else v
  }

  /** The shortest two's-complement content octets of a non-negative integer. */
  function Content(v: seq<byte>): seq<byte>
    requires |v| > 0
  {
    if Strip(v)[0] >= 0x80 then [0] + Strip(v) else Strip(v)
  }

  function EncodeInteger(v: seq<byte>): seq<byte>
    requires |v| == SCALAR
  {
    [0x02, |Content(v)|] + Content(v)
  }

  function EncodeSignature(r: seq<byte>, s: seq<byte>): (der: seq<byte>)
    requires |r| == |s| == SCALAR
    ensures |der| <= 72
  {
    var body := EncodeInteger(r) + EncodeInteger(s);
    [0x30, |body|] + body
  }

  // ----- Each undoes the other

  lemma {:induction false} StripPads(v: seq<byte>)
    requires |v| > 0
    ensures Zeros(|v| - |Strip(v)|) + Strip(v) == v
    ensures |Strip(v)| == 1 || Strip(v)[0] != 0
  {
    if |v| > 1 && v[0] == 0 {
      StripPads(v[1..]);
      var r := Strip(v);
      assert Zeros(|v| - |r|) == [0] + Zeros(|v| - 1 - |r|);
      assert v == [0] + v[1..];
      assert Zeros(|v| - |r|) + r == [0] + (Zeros(|v| - 1 - |r|) + r);
    } else {
      assert Zeros(0) + v == v;
    }
  }

  lemma {:induction false} StripOfPadded(n: nat, v: seq<byte>)
    requires |v| == 1 || (|v| > 0 && v[0] != 0)
    ensures Strip(Zeros(n) + v) == v
  {
    var s := Zeros(n) + v;
    if n == 0 {
      assert s == v;
    } else {
      assert s[1..] == Zeros(n - 1) + v;
      StripOfPadded(n - 1, v);
    }
  }

  lemma IntegerParses(v: seq<byte>, rest: seq<byte>)
    requires |v| == SCALAR
    ensures ParseInteger(EncodeInteger(v) + rest) == Some((v, rest))
  {
    var content, input := Content(v), EncodeInteger(v) + rest;
    StripPads(v);
    assert input[2..] == content + rest;
    assert input[2..][..|content|] == content && input[2..][|content|..] == rest;
    if Strip(v)[0] >= 0x80 {
      assert content[1..] == Strip(v);
    }
  }

  lemma IntegerUnique(input: seq<byte>)
    requires ParseInteger(input).Some?
    ensures input == EncodeInteger(ParseInteger(input).value.0) + ParseInteger(input).value.1
  {
    hide Strip;
    var length := input[1];
    var content, rest := input[2..][..length], input[2..][length..];
    var value := if content[0] == 0 && length > 1 then content[1..] else content;
    StripOfPadded(SCALAR - |value|, value);
    assert ParseInteger(input) == Some((Zeros(SCALAR - |value|) + value, rest));
    assert Content(Zeros(SCALAR - |value|) + value) == content;
    assert input == [0x02, length] + (content + rest);
  }

  /** Every pair of 32-byte scalars parses back from its canonical form. */
  lemma ParseOfEncode(r: seq<byte>, s: seq<byte>)
    requires |r| == |s| == SCALAR
    ensures ParseSignature(EncodeSignature(r, s)) == Some((r, s))
  {
    var body := EncodeInteger(r) + EncodeInteger(s);
    assert EncodeSignature(r, s)[2..] == body;
    IntegerParses(r, EncodeInteger(s));
    IntegerParses(s, []);
    assert EncodeInteger(s) + [] == EncodeInteger(s);
  }

  /** Every accepted byte string is the canonical form of what it parses to. */
  lemma EncodeOfParse(der: seq<byte>)
    requires ParseSignature(der).Some?
    ensures var (r, s) := ParseSignature(der).value; der == EncodeSignature(r, s)
  {
    hide ParseInteger, EncodeInteger;
    var body := der[2..];
    var (r, rest) := ParseInteger(body).value;
    IntegerUnique(body);
    IntegerUnique(rest);
    assert body == EncodeInteger(r) + EncodeInteger(ParseSignature(der).value.1);
    assert der == [der[0], der[1]] + body;
  }
}
