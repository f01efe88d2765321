/**
 The loader identity record of mcuboot-image/src/loader_info.rs: its 32-byte layout,
 the round trip, and the damage its CRC-32 is certain to notice.
 */
module LoaderRecord {
  import opened Wrappers
  import opened Crc

  type Half = h: seq<bool> | |h| == 16 witness seq(16, _ => false)
  type KeyId = k: seq<Byte> | |k| == 8 witness seq(8, _ => Zeros(8))

  datatype Info = Info(flags: Half, loaderVersion: Word, keyId: KeyId)

  const T := true
  const F := false
  const LENGTH: nat := 32
  const ERASED: Byte := [T, T, T, T, T, T, T, T]
  const FORMAT: Half := [T, F, F, F, F, F, F, F, F, F, F, F, F, F, F, F]

  /** The ASCII bytes of "ZRSBOOT1". */
  const MAGIC: seq<Byte> :=
    [[F, T, F, T, T, F, T, F],
     [F, T, F, F, T, F, T, F],
     [T, T, F, F, T, F, T, F],
     [F, T, F, F, F, F, T, F],
     [T, T, T, T, F, F, T, F],
     [T, T, T, T, F, F, T, F],
     [F, F, T, F, T, F, T, F],
     [T, F, F, F, T, T, F, F]]

  /** 0xEDB8_8320. */
  const POLYNOMIAL: Word :=
    [F, F, F, F, F, T, F, F,
     T, T, F, F, F, F, F, T,
     F, F, F, T, T, T, F, T,
     T, F, T, T, F, T, T, T]

  // ----- Encoding and decoding

  function Le16(w: Half): (r: seq<Byte>)
    ensures |r| == 2 && Concat(r[0], r[1]) == w
  {
    [w[..8], w[8..]]
  }

  function Fields(info: Info): (r: seq<Byte>)
    ensures |r| == 8
  {
    Le16(FORMAT) + Le16(info.flags) + Split(info.loaderVersion)
  }

  /** The 28 bytes that the checksum covers. */
  function Body(magic: seq<Byte>, info: Info): (r: seq<Byte>)
    requires |magic| == 8
    ensures |r| == 28
  {
    magic + Fields(info) + info.keyId + [ERASED, ERASED, ERASED, ERASED]
  }

  function RecordWith(g: Word, magic: seq<Byte>, info: Info): (r: seq<Byte>)
    requires |magic| == 8
    ensures |r| == LENGTH
  {
    Body(magic, info) + Split(Checksum(g, Body(magic, info)))
  }

  function DecodeWith(g: Word, magic: seq<Byte>, bytes: seq<Byte>): Option<Info>
    requires |bytes| == LENGTH
  {
    if bytes[..8] != magic
      || Concat(bytes[8], bytes[9]) != FORMAT
      || Join(bytes[28..]) != Checksum(g, bytes[..28])
    then None
    else Some(Info(Concat(bytes[10], bytes[11]), Join(bytes[12..16]), bytes[16..24]))
  }

  function Record(info: Info): (r: seq<Byte>)
    ensures |r| == LENGTH
  {
    RecordWith(POLYNOMIAL, MAGIC, info)
  }

  function Decode(bytes: seq<Byte>): Option<Info>
    requires |bytes| == LENGTH
  {
    DecodeWith(POLYNOMIAL, MAGIC, bytes)
  }

  lemma Pieces(s: seq<Byte>, a: seq<Byte>, b: seq<Byte>, c: seq<Byte>, d: seq<Byte>)
    requires |s| >= 28 && s[..8] == a && s[8..16] == b && s[16..24] == c && s[24..28] == d
    ensures s[..28] == a + b + c + d
  {
    assert s[..16] == a + b;
    assert s[..24] == s[..16] + c;
    assert s[..28] == s[..24] + d;
  }

  method EncodeWith(g: Word, magic: seq<Byte>, info: Info) returns (out: array<Byte>)
    requires |magic| == 8
    ensures fresh(out) && out[..] == RecordWith(g, magic, info)
  {
    out := new Byte[LENGTH](_ => ERASED);
    var index := 0;
    while index < 8
      invariant index <= 8
      invariant out[..index] == magic[..index] && out[16..16 + index] == info.keyId[..index]
      invariant out[24..] == [ERASED, ERASED, ERASED, ERASED, ERASED, ERASED, ERASED, ERASED]
    {
      out[index] := magic[index];
      out[16 + index] := info.keyId[index];
      index := index + 1;
    }
    assert out[..8] == magic && out[16..24] == info.keyId;
    ghost var upper := out[16..];
    assert upper[8..12] == [ERASED, ERASED, ERASED, ERASED] by {
      assert upper[8..12] == out[24..][..4];
    }
    PutFields(out, Fields(info));
    assert out[..][24..28] == upper[8..12] && out[..][16..24] == upper[..8];
    Pieces(out[..], magic, Fields(info), info.keyId, [ERASED, ERASED, ERASED, ERASED]);
    var crc := Crc32(g, out[..], 28);
    PutChecksum(out, Split(crc));
    assert out[..] == out[..28] + out[28..];
  }

  method PutFields(out: array<Byte>, w: seq<Byte>)
    requires out.Length == LENGTH && |w| == 8
    modifies out
    ensures out[..8] == old(out[..8]) && out[8..16] == w && out[16..] == old(out[16..])
  {
    out[8], out[9] := w[0], w[1];
    out[10], out[11] := w[2], w[3];
    out[12], out[13], out[14], out[15] := w[4], w[5], w[6], w[7];
  }

  method PutChecksum(out: array<Byte>, w: seq<Byte>)
    requires out.Length == LENGTH && |w| == 4
    modifies out
    ensures out[..28] == old(out[..28]) && out[28..] == w
  {
    out[28], out[29], out[30], out[31] := w[0], w[1], w[2], w[3];
  }

  method Encode(info: Info) returns (out: array<Byte>)
    ensures fresh(out) && out[..] == Record(info)
  {
    out := EncodeWith(POLYNOMIAL, MAGIC, info);
  }

  lemma RoundTripWith(g: Word, magic: seq<Byte>, info: Info)
    requires |magic| == 8
    ensures DecodeWith(g, magic, RecordWith(g, magic, info)) == Some(info)
  {
    var bytes, body := RecordWith(g, magic, info), Body(magic, info);
    assert bytes[..28] == body && bytes[28..] == Split(Checksum(g, body));
    assert bytes[..8] == magic && bytes[16..24] == info.keyId;
    assert bytes[8..16] == Fields(info);
    assert bytes[8] == Fields(info)[0] && bytes[9] == Fields(info)[1];
    assert bytes[10] == Fields(info)[2] && bytes[11] == Fields(info)[3];
    assert bytes[12..16] == Fields(info)[4..];
    assert Fields(info)[4..] == Split(info.loaderVersion);
  }

  /** Every record decodes to the value it was encoded from. */
  lemma RoundTrip(info: Info)
    ensures Decode(Record(info)) == Some(info)
  {
    RoundTripWith(POLYNOMIAL, MAGIC, info);
  }

  lemma SplitAround<A>(s: seq<A>, at: nat)
    requires at + 4 <= |s|
    ensures s == s[..at] + s[at..at + 4] + s[at + 4..]
  {}

  lemma BurstRejectedWith(g: Word, magic: seq<Byte>, good: seq<Byte>, bad: seq<Byte>, at: nat)
    requires g[31] && |good| == |bad| == LENGTH && at + 4 <= LENGTH
    requires DecodeWith(g, magic, good).Some? && DecodeWith(g, magic, bad).Some?
    requires bad[..at] == good[..at] && bad[at + 4..] == good[at + 4..]
    ensures bad == good
  {
    var head, tail := good[..at], good[at + 4..];
    var v, w := good[at..at + 4], bad[at..at + 4];
    SplitAround(good, at);
    SplitAround(bad, at);
    ChecksumIsResidue(g, good[..28], good[28..]);
    ChecksumIsResidue(g, bad[..28], bad[28..]);
    assert good == good[..28] + good[28..];
    assert bad == bad[..28] + bad[28..];
    BurstShows(g, Ones(), head, v, w, tail);
  }

  /** Damage confined to any four consecutive bytes of an accepted record is rejected, wherever
      the four bytes lie, the checksum field included. */
  lemma BurstRejected(good: seq<Byte>, bad: seq<Byte>, at: nat)
    requires |good| == |bad| == LENGTH && at + 4 <= LENGTH
    requires Decode(good).Some?
    requires bad != good && bad[..at] == good[..at] && bad[at + 4..] == good[at + 4..]
    ensures Decode(bad) == None
  {
    var g := POLYNOMIAL;
    assert g[31];
    if DecodeWith(g, MAGIC, bad).Some? {
      BurstRejectedWith(g, MAGIC, good, bad, at);
    }
  }

  /** Where everything is. */
  lemma RecordLayout(info: Info)
    ensures var r := Record(info);
            && r[0..8] == MAGIC && Concat(r[8], r[9]) == FORMAT && Concat(r[10], r[11]) == info.flags
            && Join(r[12..16]) == info.loaderVersion && r[16..24] == info.keyId
            && r[24..28] == [ERASED, ERASED, ERASED, ERASED] && Join(r[28..32]) == Checksum(POLYNOMIAL, r[0..28])
  {
    LayoutWith(POLYNOMIAL, MAGIC, info);
  }

  lemma LayoutWith(g: Word, magic: seq<Byte>, info: Info)
    requires |magic| == 8
    ensures var r := RecordWith(g, magic, info);
            && r[0..8] == magic && Concat(r[8], r[9]) == FORMAT && Concat(r[10], r[11]) == info.flags
            && Join(r[12..16]) == info.loaderVersion && r[16..24] == info.keyId
            && r[24..28] == [ERASED, ERASED, ERASED, ERASED] && Join(r[28..32]) == Checksum(g, r[0..28])
  {
    var r, body := RecordWith(g, magic, info), Body(magic, info);
    assert r[0..28] == body && r[28..32] == Split(Checksum(g, body));
    assert r[8..16] == Fields(info);
    assert r[8] == Fields(info)[0] && r[9] == Fields(info)[1];
    assert r[10] == Fields(info)[2] && r[11] == Fields(info)[3];
    assert r[12..16] == Fields(info)[4..] == Split(info.loaderVersion);
  }

  /** What decodes is a record, up to the reserved bytes, with a checksum over all before it; and nothing else does. */
  lemma DecodesRecords(bytes: seq<Byte>, info: Info)
    requires |bytes| == LENGTH
    ensures Decode(bytes) == Some(info) <==>
              bytes[..24] == Record(info)[..24] && Join(bytes[28..]) == Checksum(POLYNOMIAL, bytes[..28])
  {
    DecodesWith(POLYNOMIAL, MAGIC, bytes, info);
  }

  lemma DecodesWith(g: Word, magic: seq<Byte>, bytes: seq<Byte>, info: Info)
    requires |bytes| == LENGTH && |magic| == 8
    ensures DecodeWith(g, magic, bytes) == Some(info) <==>
              bytes[..24] == RecordWith(g, magic, info)[..24] && Join(bytes[28..]) == Checksum(g, bytes[..28])
  {
    hide Checksum;
    var r := RecordWith(g, magic, info);
    LayoutWith(g, magic, info);
    if bytes[..24] == r[..24] { SameFields(bytes, r); }
    if DecodeWith(g, magic, bytes) == Some(info) {
      FieldsBack(bytes, r);
    }
  }

  lemma SameFields(a: seq<Byte>, b: seq<Byte>)
    requires |a| == |b| == LENGTH && a[..24] == b[..24]
    ensures a[..8] == b[..8] && a[8..12] == b[8..12] && a[8] == b[8] && a[9] == b[9] && a[10] == b[10] && a[11] == b[11]
    ensures a[12..16] == b[12..16] && a[16..24] == b[16..24]
  {
    assert forall i :: 0 <= i < 24 ==> a[i] == a[..24][i] == b[i];
  }

  lemma FieldsBack(a: seq<Byte>, b: seq<Byte>)
    requires |a| == |b| == LENGTH && a[..8] == b[..8] && a[16..24] == b[16..24] && Join(a[12..16]) == Join(b[12..16])
    requires Concat(a[8], a[9]) == Concat(b[8], b[9]) && Concat(a[10], a[11]) == Concat(b[10], b[11])
    ensures a[..24] == b[..24]
  {
    JoinInjective(a[12..16], b[12..16]);
    HalvesBack(a[8], a[9], b[8], b[9]);
    HalvesBack(a[10], a[11], b[10], b[11]);
    assert a[..24] == a[..8] + [a[8], a[9], a[10], a[11]] + a[12..16] + a[16..24];
    assert b[..24] == b[..8] + [b[8], b[9], b[10], b[11]] + b[12..16] + b[16..24];
  }

  lemma HalvesBack(a: Byte, b: Byte, c: Byte, d: Byte)
    requires Concat(a, b) == Concat(c, d)
    ensures a == c && b == d
  {
    assert a == Concat(a, b)[..8] && b == Concat(a, b)[8..];
    assert c == Concat(c, d)[..8] && d == Concat(c, d)[8..];
  }
}
