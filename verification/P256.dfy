/**
 The constants of P-256 (mcuboot-image/src/p256.rs:23-102) meet what the arithmetic asks of them, so
 that verification with them needs only the mathematical hypotheses: both moduli are prime and the
 curve is a group.
 */
module P256 {
  import opened Bytes
  import opened ModArith
  import opened Limbs
  import opened Bits
  import opened Montgomery
  import opened Curve
  import opened CurveGroup
  import opened Ecdsa

  const PM: Number := [0xFFFF_FFFF, 0xFFFF_FFFF, 0xFFFF_FFFF, 0x0000_0000,
                       0x0000_0000, 0x0000_0000, 0x0000_0001, 0xFFFF_FFFF]

  const PR2: Number := [0x0000_0003, 0x0000_0000, 0xFFFF_FFFF, 0xFFFF_FFFB,
                        0xFFFF_FFFE, 0xFFFF_FFFF, 0xFFFF_FFFD, 0x0000_0004]

  const NM: Number := [0xFC63_2551, 0xF3B9_CAC2, 0xA717_9E84, 0xBCE6_FAAD,
                       0xFFFF_FFFF, 0xFFFF_FFFF, 0x0000_0000, 0xFFFF_FFFF]

  const NR2: Number := [0xBE79_EEA2, 0x8324_4C95, 0x49BD_6FA6, 0x4699_799C,
                        0x2B6B_EC59, 0x2845_B239, 0xF3D9_5620, 0x66E1_2D94]

  const B: Number := [0x27D2_604B, 0x3BCE_3C3E, 0xCC53_B0F6, 0x651D_06B0,
                      0x7698_86BC, 0xB3EB_BD55, 0xAA3A_93E7, 0x5AC6_35D8]

  const GX: Number := [0xD898_C296, 0xF4A1_3945, 0x2DEB_33A0, 0x7703_7D81,
                       0x63A4_40F2, 0xF8BC_E6E5, 0xE12C_4247, 0x6B17_D1F2]

  const GY: Number := [0x37BF_51F5, 0xCBB6_4068, 0x6B31_5ECE, 0x2BCE_3357,
                       0x7C0F_9E16, 0x8EE7_EB4A, 0xFE1A_7F9B, 0x4FE3_42E2]

  const P: Modulus := Modulus(PM, 0x0000_0001, PR2)
  const N: Modulus := Modulus(NM, 0xEE00_BC4F, NR2)
  const SECP256R1: Domain := Domain(P, N, B, GX, GY)

  // The same constants as numbers.
  const PRIME: nat := 0xFFFFFFFF00000001_0000000000000000_00000000FFFFFFFF_FFFFFFFFFFFFFFFF
  const ORDER: nat := 0xFFFFFFFF00000000_FFFFFFFFFFFFFFFF_BCE6FAADA7179E84_F3B9CAC2FC632551
  const B_VALUE: nat := 0x5AC635D8AA3A93E7_B3EBBD55769886BC_651D06B0CC53B0F6_3BCE3C3E27D2604B
  const GX_VALUE: nat := 0x6B17D1F2E12C4247_F8BCE6E563A440F2_77037D812DEB33A0_F4A13945D898C296
  const GY_VALUE: nat := 0x4FE342E2FE1A7F9B_8EE7EB4A7C0F9E16_2BCE33576B315ECE_CBB6406837BF51F5

  function Sum8(a0: int, a1: int, a2: int, a3: int, a4: int, a5: int, a6: int, a7: int): int {
    a0 + BASE * (a1 + BASE * (a2 + BASE * (a3 + BASE * (a4 + BASE * (a5 + BASE * (a6 + BASE * a7))))))
  }

  lemma ValIsSum(s: Number)
    ensures Val(s) == Sum8(s[0], s[1], s[2], s[3], s[4], s[5], s[6], s[7])
  {
    FromIsValue(s, 0);
    assert From(s, 7) == s[7];
    assert From(s, 6) == s[6] + BASE * From(s, 7);
    assert From(s, 5) == s[5] + BASE * From(s, 6);
    assert From(s, 4) == s[4] + BASE * From(s, 5);
    assert From(s, 3) == s[3] + BASE * From(s, 4);
    assert From(s, 2) == s[2] + BASE * From(s, 3);
    assert From(s, 1) == s[1] + BASE * From(s, 2);
  }

  lemma Numbers()
    ensures Val(PM) == PRIME && Val(NM) == ORDER
    ensures Val(B) == B_VALUE && Val(GX) == GX_VALUE && Val(GY) == GY_VALUE
    ensures Val(PR2) == 0x00000004FFFFFFFD_FFFFFFFFFFFFFFFE_FFFFFFFBFFFFFFFF_0000000000000003
    ensures Val(NR2) == 0x66E12D94F3D95620_2845B2392B6BEC59_4699799C49BD6FA6_83244C95BE79EEA2
  {
    hide Value;
    ValIsSum(PM);
    ValIsSum(NM);
    ValIsSum(B);
    ValIsSum(GX);
    ValIsSum(GY);
    ValIsSum(PR2);
    ValIsSum(NR2);
  }

  const RADIX: nat := 0x1_0000000000000000_0000000000000000_0000000000000000_0000000000000000

  lemma RadixIsNumber()
    ensures R == RADIX
  {
    assert Weight(0) == 1;
    assert Weight(1) == BASE;
    assert Weight(2) == 0x1_0000000000000000;
    assert Weight(3) == 0x1_00000000_0000000000000000;
    assert Weight(4) == 0x1_0000000000000000_0000000000000000;
    assert Weight(5) == 0x1_00000000_0000000000000000_0000000000000000;
    assert Weight(6) == 0x1_0000000000000000_0000000000000000_0000000000000000;
    assert Weight(7) == 0x1_00000000_0000000000000000_0000000000000000_0000000000000000;
  }

  /** The constants of a modulus, from the quotient that witnesses the congruence. */
  lemma ModulusIsValid(mod: Modulus, m: int, r2: int, q: int, k: int)
    requires mod.M() == m && Val(mod.r2) == r2 && R == q
    requires m > 2 && 2 <= mod.m[0] && (mod.m[0] * mod.mInv + 1) % BASE == 0
    requires 0 <= r2 < m && r2 - q * q == k * m
    ensures mod.Valid()
  {
    hide Cong;
    CongBy(m, r2, q * q, k);
  }

  lemma FieldIsValid()
    ensures P.Valid()
  {
    hide Value, Weight, Modulus.Valid;
    Numbers();
    RadixIsNumber();
    ModulusIsValid(P, PRIME, 0x00000004FFFFFFFD_FFFFFFFFFFFFFFFE_FFFFFFFBFFFFFFFF_0000000000000003, RADIX,
                   -0x0000000000000001_00000000FFFFFFFF_FFFFFFFEFFFFFFFE_FFFFFFFEFFFFFFFF_0000000000000003);
  }

  lemma OrderIsValid()
    ensures N.Valid()
  {
    hide Value, Weight, Modulus.Valid;
    Numbers();
    RadixIsNumber();
    ModulusIsValid(N, ORDER, 0x66E12D94F3D95620_2845B2392B6BEC59_4699799C49BD6FA6_83244C95BE79EEA2, RADIX,
                   -0x0000000000000001_00000000FFFFFFFF_FFFFFFFEFFFFFFFF_43190552DF1A6C21_012FFD85EEDF9BFE);
  }

  lemma BaseOnCurve()
    ensures OnCurve(PRIME, B_VALUE, Aff(GX_VALUE, GY_VALUE))
  {
    hide Cong;
    var x: int, y: int := GX_VALUE, GY_VALUE;
    CongBy(PRIME, y * y, x * x * x - 3 * x + B_VALUE,
           -(0x12BDD1AD23DFC833_DCCF5F6141D6BB4A_1F365DC1430B0E60_0B52DD851938D2D6 * RADIX
             + 0x933106A72EFBF035_FDAF43963B37FD54_56E90C6581A8FB7A_0D8A46A3629F0458));
  }

  /** The constants are a valid domain: Montgomery constants, base point, and both reductions by one
      subtraction. */
  lemma DomainIsValid()
    ensures SECP256R1.Valid()
    ensures SECP256R1.f.M() == PRIME && SECP256R1.n.M() == ORDER && Val(SECP256R1.b) == B_VALUE
    ensures SECP256R1.Base() == Aff(GX_VALUE, GY_VALUE)
  {
    hide Value, Weight, Modulus.Valid, OnCurve;
    Numbers();
    RadixIsNumber();
    FieldIsValid();
    OrderIsValid();
    BaseOnCurve();
  }

  /** Verification on P-256, given that n is prime and the curve over the prime p is a group. */
  method Verify(key: VerifyingKey, digest: seq<byte>, r: seq<byte>, s: seq<byte>) returns (ok: bool)
    requires GroupLaw(PRIME, B_VALUE) && Prime(ORDER) && OnCurve(PRIME, B_VALUE, key.Public())
    requires |digest| == |r| == |s| == 32
    ensures ok <==> SecAccepts(PRIME, ORDER, Aff(GX_VALUE, GY_VALUE), key.Public(),
                               BigEndian(digest), BigEndian(r), BigEndian(s))
  {
    hide Value, Domain.Valid, OnCurve, SecAccepts, GroupLaw, Prime;
    DomainIsValid();
    ok := VerifyPrehash(SECP256R1, key, digest, r, s);
  }
}
