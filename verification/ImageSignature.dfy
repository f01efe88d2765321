/**
 Where the boot loader meets the curve (mcuboot-image/src/image.rs:225-239): the signature check that
 image validation leaves as a parameter, filled in with P-256.
 */
module ImageSignature {
  import opened Bytes
  import opened DerSignature
  import opened BootImage
  import opened Limbs
  import opened ModArith
  import opened Curve
  import opened CurveGroup
  import opened Ecdsa
  import opened P256
  import opened EcdsaSigning

  /** The point that 64 bytes of key material encode. */
  function KeyPoint(xy: seq<byte>): Affine
    requires |xy| == 64
  {
    Aff(BigEndian(xy[..32]), BigEndian(xy[32..]))
  }

  /** The key is a point of the curve, and section 4.1.4 of SEC 1 accepts the signature. */
  ghost predicate Accepts(xy: seq<byte>, digest: seq<byte>, r: seq<byte>, s: seq<byte>) {
    && |xy| == 64 && OnCurve(PRIME, B_VALUE, KeyPoint(xy))
    && SecAccepts(PRIME, ORDER, Aff(GX_VALUE, GY_VALUE), KeyPoint(xy), BigEndian(digest), BigEndian(r), BigEndian(s))
  }

  /** The trust of a loader built with the key `xy`. */
  ghost function P256Trust(sha256: seq<byte> -> seq<byte>, xy: seq<byte>): Trust {
    Trust(sha256, xy, (key, digest, r, s) => Accepts(key, digest, r, s))
  }

  /** The signature arm of `validate` computes `GoodSig` for that trust. */
  method CheckSignature(sha256: seq<byte> -> seq<byte>, xy: seq<byte>, digest: seq<byte>, der: seq<byte>)
    returns (ok: bool)
    requires GroupLaw(PRIME, B_VALUE) && Prime(ORDER) && |xy| == 64 && |digest| == 32
    ensures ok <==> GoodSig(Tlv(TLV_ECDSA_SIG, der), digest, P256Trust(sha256, xy))
  {
    hide Domain.Valid, OnCurve, SecAccepts, GroupLaw, Prime, BigEndian, ParseSignature, Value, Weight, Trust.KeyHash;
    DomainIsValid();
    var key := FromXY(SECP256R1, xy);
    if |der| > MAX_DER {
      return false;
    }
    var parsed := ParseSignature(der);
    if key.None? || parsed.None? {
      return false;
    }
    var (r, s) := parsed.value;
    ok := Verify(key.value, digest, r, s);
  }

  /** The base point, with the hypotheses about it: the curve is a group, and the order is prime and the order of the
      point. */
  ghost predicate OrderOfBase() {
    GroupLaw(PRIME, B_VALUE) && Prime(ORDER) && Times(PRIME, ORDER, Aff(GX_VALUE, GY_VALUE)) == Infinity
  }

  /** For a key with the private key d, exactly what section 4.1.3 of SEC 1 can sign with d is accepted. */
  lemma AcceptsWhatKeySigns(d: nat, xy: seq<byte>, digest: seq<byte>, r: seq<byte>, s: seq<byte>)
    requires OrderOfBase() && |xy| == 64 && KeyPoint(xy) == Times(PRIME, d, Aff(GX_VALUE, GY_VALUE))
    ensures Accepts(xy, digest, r, s) <==>
              CanSign(PRIME, ORDER, Aff(GX_VALUE, GY_VALUE), d, BigEndian(digest), BigEndian(r), BigEndian(s))
  {
    hide OnCurve, SecAccepts, GroupLaw, Prime, BigEndian, CanSign, Times, Value, Weight, Domain.Valid;
    BaseOnCurve();
    TimesOnCurve(PRIME, B_VALUE, d, Aff(GX_VALUE, GY_VALUE));
    AcceptsWhatIsSigned(PRIME, B_VALUE, ORDER, Aff(GX_VALUE, GY_VALUE), d, BigEndian(digest), BigEndian(r),
                        BigEndian(s));
  }

  /** The content of an encoded integer is what section 8.3 of ITU-T X.690 asks for: the number itself, not negative
      in two's complement, and without a byte more than that needs. */
  lemma ContentIsShortest(v: seq<byte>)
    requires |v| == SCALAR
    ensures var c := Content(v);
            && |c| > 0 && c[0] < 0x80 && !(|c| > 1 && c[0] == 0 && c[1] < 0x80) && BigEndian(c) == BigEndian(v)
  {
    hide BigEndian, Strip;
    var s := Strip(v);
    StripPads(v);
    BigEndianConcat(Zeros(SCALAR - |s|), s);
    ZerosAreZero(SCALAR - |s|);
    BigEndianConcat([0], s);
    ZerosAreZero(1);
    assert Zeros(1) == [0];
  }

  lemma {:induction false} ZerosAreZero(n: nat)
    ensures BigEndian(Zeros(n)) == 0
  {
    if n > 0 {
      assert Zeros(n)[..n - 1] == Zeros(n - 1);
      ZerosAreZero(n - 1);
    }
  }
}
