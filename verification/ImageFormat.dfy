/**
 The image format from the writing side (mcuboot-image/src/image.rs:1-60, 91-112, 160-254): encodings of headers
 and TLV lists, images composed from their parts, and acceptance as a statement about the parts alone.
 */
module ImageFormat {
  import opened Wrappers
  import opened Bytes
  import opened BootImage

  // ----- Little-endian numbers

  function Le16(n: nat): (r: seq<byte>)
    requires n < 0x1_0000
    ensures |r| == 2 && U16(r[0], r[1]) == n
  {
    [n % 256, n / 256]
  }

  function Le32(n: nat): (r: seq<byte>)
    requires n <= U32_MAX
    ensures |r| == 4 && U32(r[0], r[1], r[2], r[3]) == n
  {
    Le16(n % 0x1_0000) + Le16(n / 0x1_0000)
  }

  lemma HalfBytes(a: byte, b: byte)
    ensures U16(a, b) % 256 == a && U16(a, b) / 256 == b
  {}

  lemma HalfBack(bytes: seq<byte>, at: nat)
    requires at + 2 <= |bytes|
    ensures Le16(HalfAt(bytes, at)) == bytes[at..at + 2]
  {
    hide U16;
    HalfBytes(bytes[at], bytes[at + 1]);
    assert bytes[at..at + 2] == [bytes[at], bytes[at + 1]];
  }

  lemma WordHalves(lo: nat, hi: nat)
    requires lo < 0x1_0000 && hi < 0x1_0000
    ensures (lo + 0x1_0000 * hi) % 0x1_0000 == lo && (lo + 0x1_0000 * hi) / 0x1_0000 == hi
  {}

  lemma WordBack(bytes: seq<byte>, at: nat)
    requires at + 4 <= |bytes|
    ensures Le32(WordAt(bytes, at)) == bytes[at..at + 4]
  {
    hide Le16;
    var lo, hi := HalfAt(bytes, at), HalfAt(bytes, at + 2);
    assert WordAt(bytes, at) == lo + 0x1_0000 * hi;
    WordHalves(lo, hi);
    HalfBack(bytes, at);
    HalfBack(bytes, at + 2);
    assert bytes[at..at + 4] == bytes[at..at + 2] + bytes[at + 2..at + 4];
  }

  // ----- Headers

  /** The bytes of a header that mean something. */
  const FIELDS_LEN: nat := 28

  predicate Encodable(h: Header) {
    && h.loadAddr <= U32_MAX && h.hdrSize < 0x1_0000 && h.protectSize < 0x1_0000
    && h.imgSize <= U32_MAX && h.flags <= U32_MAX && InRange(h.version) && h.version.build <= U32_MAX
  }

  function EncodeHeader(h: Header): (r: seq<byte>)
    requires Encodable(h)
    ensures |r| == FIELDS_LEN
  {
    Le32(IMAGE_MAGIC) + Le32(h.loadAddr) + Le16(h.hdrSize) + Le16(h.protectSize) + Le32(h.imgSize) + Le32(h.flags)
    + [h.version.major, h.version.minor] + Le16(h.version.revision) + Le32(h.version.build)
  }

  /** Every header reads back, whatever follows it. */
  lemma HeaderRoundTrip(h: Header, rest: seq<byte>)
    requires Encodable(h) && FIELDS_LEN + |rest| >= HEADER_LEN
    ensures ParseHeader(EncodeHeader(h) + rest) == Some(h)
  {
    hide Le16, Le32, U16, U32;
  }

  /** And what reads as a header is the encoding of it. */
  lemma HeaderOfParse(bytes: seq<byte>)
    requires |bytes| >= HEADER_LEN && ParseHeader(bytes).Some?
    ensures Encodable(ParseHeader(bytes).value) && EncodeHeader(ParseHeader(bytes).value) == bytes[..FIELDS_LEN]
  {
    hide Le16, Le32;
    WordBack(bytes, 0);
    WordBack(bytes, 4);
    HalfBack(bytes, 8);
    HalfBack(bytes, 10);
    WordBack(bytes, 12);
    WordBack(bytes, 16);
    HalfBack(bytes, 22);
    WordBack(bytes, 24);
    assert bytes[20..22] == [bytes[20], bytes[21]];
    Pieces(bytes);
  }

  lemma Pieces(bytes: seq<byte>)
    requires |bytes| >= FIELDS_LEN
    ensures bytes[0..4] + bytes[4..8] + bytes[8..10] + bytes[10..12] + bytes[12..16] + bytes[16..20] + bytes[20..22]
            + bytes[22..24] + bytes[24..28] == bytes[..FIELDS_LEN]
  {}

  // ----- TLV lists

  predicate EncodableTlv(x: Tlv) {
    x.kind < 0x1_0000 && |x.value| < 0x1_0000
  }

  predicate EncodableTlvs(ts: seq<Tlv>) {
    forall i :: 0 <= i < |ts| ==> EncodableTlv(ts[i])
  }

  function EncodeTlv(x: Tlv): (r: seq<byte>)
    requires EncodableTlv(x)
    ensures |r| == 4 + |x.value|
  {
    Le16(x.kind) + Le16(|x.value|) + x.value
  }

  function EncodeTlvs(ts: seq<Tlv>): seq<byte>
    requires EncodableTlvs(ts)
  {
    if ts == [] then [] else EncodeTlv(ts[0]) + EncodeTlvs(ts[1..])
  }

  /** Every TLV list reads back. */
  lemma {:induction false} TlvsRoundTrip(ts: seq<Tlv>)
    requires EncodableTlvs(ts)
    ensures ParseTlvs(EncodeTlvs(ts)) == Some(ts)
  {
    if ts != [] {
      TlvsRoundTrip(ts[1..]);
      TlvReadsBack(ts[0], EncodeTlvs(ts[1..]));
      assert [ts[0]] + ts[1..] == ts;
    }
  }

  lemma TlvReadsBack(x: Tlv, rest: seq<byte>)
    requires EncodableTlv(x) && ParseTlvs(rest).Some?
    ensures ParseTlvs(EncodeTlv(x) + rest) == Some([x] + ParseTlvs(rest).value)
  {
    var area, n := EncodeTlv(x) + rest, 4 + |x.value|;
    assert HalfAt(area, 0) == x.kind && HalfAt(area, 2) == |x.value|;
    assert area[4..n] == x.value;
    assert area[n..] == rest;
  }

  /** And what reads as a TLV list is the encoding of it. */
  lemma {:induction false} TlvsOfParse(area: seq<byte>)
    requires ParseTlvs(area).Some?
    ensures EncodableTlvs(ParseTlvs(area).value) && EncodeTlvs(ParseTlvs(area).value) == area
    decreases |area|
  {
    hide Le16, HalfAt, EncodeTlv;
    if area != [] {
      var next := 4 + HalfAt(area, 2);
      TlvsOfParse(area[next..]);
      FirstTlv(area, next);
      var x, rest := Tlv(HalfAt(area, 0), area[4..next]), ParseTlvs(area[next..]).value;
      assert area == area[..next] + area[next..];
      assert ([x] + rest)[1..] == rest;
    }
  }

  lemma FirstTlv(area: seq<byte>, next: nat)
    requires 4 <= |area| && next == 4 + HalfAt(area, 2) <= |area|
    ensures var x := Tlv(HalfAt(area, 0), area[4..next]); EncodableTlv(x) && EncodeTlv(x) == area[..next]
  {
    hide Le16;
    HalfBack(area, 0);
    HalfBack(area, 2);
    assert area[0..2] + area[2..4] + area[4..next] == area[..next];
  }

  // ----- Images

  /** The bytes of an image: header fields, padding, firmware, protected TLVs, TLV info, and TLVs. */
  datatype Parts = Parts(fields: seq<byte>, pad: seq<byte>, firmware: seq<byte>, protect: seq<byte>, info: seq<byte>,
                         area: seq<byte>)
  {
    /** The part that is hashed. */
    function Hashed(): seq<byte> {
      fields + pad + firmware + protect
    }

    function Image(): seq<byte> {
      Hashed() + info + area
    }

    /** Where the firmware begins. */
    function Start(): nat {
      |fields| + |pad|
    }
  }

  /** Parts of the sizes that the header tells: a header of any size from 32 bytes on. */
  predicate Sized(x: Parts, h: Header) {
    && |x.fields| == FIELDS_LEN && HEADER_LEN <= h.hdrSize == x.Start() && |x.firmware| == h.imgSize
    && |x.protect| == h.protectSize && |x.info| == 4
  }

  /** An info block: a magic, and the size of the area that it begins. */
  predicate Announces(info: seq<byte>, magic: nat, size: nat)
    requires magic < 0x1_0000
  {
    size < 0x1_0000 && info == Le16(magic) + Le16(size)
  }

  /** A protected TLV area, if there is one, announces itself. */
  predicate ProtectedArea(bytes: seq<byte>) {
    bytes != [] ==> 4 <= |bytes| && Announces(bytes[..4], TLV_PROTECTED_INFO_MAGIC, |bytes|)
  }

  /** The parts encode the header and the TLV list, and the header has no flags. */
  predicate Encodes(x: Parts, h: Header, ts: seq<Tlv>) {
    && Sized(x, h) && Encodable(h) && h.flags == 0 && x.fields == EncodeHeader(h) && ProtectedArea(x.protect)
    && Announces(x.info, TLV_INFO_MAGIC, 4 + |x.area|) && EncodableTlvs(ts) && x.area == EncodeTlvs(ts)
  }

  /** The TLV list carries the digest and a signature over it. */
  ghost predicate Endorses(ts: seq<Tlv>, digest: seq<byte>, t: Trust) {
    (forall e :: e in ts ==> !BadSha(e)) && HashOk(ts, digest) && Signed(ts, digest, t)
  }

  /** The slot contents begin with the image of `x`, of at most `maxLen` bytes, and `v` says what it is. */
  ghost predicate IsImage(img: seq<byte>, maxLen: nat, t: Trust, v: ValidImage, x: Parts, ts: seq<Tlv>) {
    && v.end == |x.Image()| <= maxLen <= |img| && img[..v.end] == x.Image() && |x.Hashed()| <= U32_MAX
    && Encodes(x, v.header, ts) && v.digest == t.sha256(x.Hashed()) && Endorses(ts, v.digest, t)
  }

  // ----- An image made of parts is accepted

  lemma FourPieces(a: seq<byte>, b: seq<byte>, c: seq<byte>, d: seq<byte>, i: nat, j: nat, n: nat)
    requires i == |a| + |b| && j == i + |c| && n == j + |d|
    ensures var all := a + b + c + d; all[..|a|] == a && all[|a|..i] == b && all[i..j] == c && all[j..n] == d
  {}

  lemma Within(all: seq<byte>, n: nat, i: nat, j: nat)
    requires i <= j <= n <= |all|
    ensures all[i..j] == all[..n][i..j] && all[..j] == all[..n][..j]
  {}

  /** The parts are found where the header says. */
  lemma PartsAt(img: seq<byte>, x: Parts, h: Header)
    requires Sized(x, h) && |x.Image()| <= |img| && img[..|x.Image()|] == x.Image()
    ensures var n, p := HashedLen(h), h.hdrSize + h.imgSize;
            && n + 4 <= |x.Image()| == n + 4 + |x.area|
            && img[..FIELDS_LEN] == x.fields && img[..n] == x.Hashed() && img[h.hdrSize..p] == x.firmware
            && img[p..n] == x.protect && img[n..n + 4] == x.info && img[n + 4..|x.Image()|] == x.area
  {
    var n, p, c := HashedLen(h), h.hdrSize + h.imgSize, |x.Image()|;
    FourPieces(x.fields, x.pad, x.firmware, x.protect, h.hdrSize, p, n);
    FourPieces(x.Hashed(), [], x.info, x.area, n, n + 4, c);
    assert x.Hashed() + [] == x.Hashed();
    Within(img, c, n, n);
    Within(img, c, n, n + 4);
    Within(img, c, n + 4, c);
    Within(img, n, h.hdrSize, FIELDS_LEN + |x.pad|);
    Within(img, n, h.hdrSize, p);
    Within(img, n, p, n);
    assert img[..FIELDS_LEN] == img[..n][..FIELDS_LEN];
  }

  lemma AnnouncedReads(img: seq<byte>, at: nat, magic: nat, size: nat)
    requires at + 4 <= |img| && magic < 0x1_0000 && Announces(img[at..at + 4], magic, size)
    ensures HalfAt(img, at) == magic && HalfAt(img, at + 2) == size
  {
    hide Le16, U16;
    var b := img[at..at + 4];
    assert b[0] == img[at] && b[1] == img[at + 1] && b[2] == img[at + 2] && b[3] == img[at + 3];
  }

  lemma AnnouncedBack(img: seq<byte>, at: nat)
    requires at + 4 <= |img|
    ensures Announces(img[at..at + 4], HalfAt(img, at), HalfAt(img, at + 2))
  {
    hide Le16;
    HalfBack(img, at);
    HalfBack(img, at + 2);
    assert img[at..at + 4] == img[at..at + 2] + img[at + 2..at + 4];
  }

  lemma ProtectedReads(img: seq<byte>, h: Header)
    requires HashedLen(h) + 4 <= |img| && ProtectedArea(img[h.hdrSize + h.imgSize..HashedLen(h)])
    ensures ProtectedOk(h, img)
  {
    hide Announces, HalfAt;
    var p := h.hdrSize + h.imgSize;
    if h.protectSize != 0 {
      assert img[p..HashedLen(h)][..4] == img[p..p + 4];
      AnnouncedReads(img, p, TLV_PROTECTED_INFO_MAGIC, h.protectSize);
    }
  }

  lemma ImageFrame(img: seq<byte>, maxLen: nat, h: Header, x: Parts, ts: seq<Tlv>)
    requires |img| >= HEADER_LEN && |x.Image()| <= maxLen <= |img| && img[..|x.Image()|] == x.Image()
    requires |x.Hashed()| <= U32_MAX && Encodes(x, h, ts)
    ensures Frame(img, maxLen) == Ok(Geometry(h, HashedLen(h), |x.Image()|))
  {
    hide ParseHeader, Encodable, EncodeHeader, EncodeTlvs, EncodableTlvs, Announces, HalfAt, ProtectedOk, ProtectedArea,
         Parts.Image, Parts.Hashed;
    PartsAt(img, x, h);
    assert img == x.fields + img[FIELDS_LEN..];
    HeaderRoundTrip(h, img[FIELDS_LEN..]);
    AnnouncedReads(img, HashedLen(h), TLV_INFO_MAGIC, 4 + |x.area|);
    ProtectedReads(img, h);
  }

  lemma ImageIsValid(img: seq<byte>, maxLen: nat, t: Trust, v: ValidImage, x: Parts, ts: seq<Tlv>)
    requires |img| >= HEADER_LEN && IsImage(img, maxLen, t, v, x, ts)
    ensures Validate(img, maxLen, t) == Ok(v)
  {
    hide Frame, ParseTlvs, HashOk, Signed, Encodes, Parts.Image, Parts.Hashed;
    ImageFrame(img, maxLen, v.header, x, ts);
    EncodesSized(x, v.header, ts);
    PartsAt(img, x, v.header);
  }

  lemma EncodesSized(x: Parts, h: Header, ts: seq<Tlv>)
    requires Encodes(x, h, ts)
    ensures Sized(x, h) && ParseTlvs(x.area) == Some(ts)
  {
    TlvsRoundTrip(ts);
  }

  // ----- And only such an image

  /** Fewer than four bytes of a protected area are too few: the TLV info that follows does not continue it. */
  lemma ProtectedBack(img: seq<byte>, h: Header)
    requires HashedLen(h) + 4 <= |img| && ProtectedOk(h, img) && HalfAt(img, HashedLen(h)) == TLV_INFO_MAGIC
    ensures ProtectedArea(img[h.hdrSize + h.imgSize..HashedLen(h)])
  {
    hide Announces;
    var p, bytes := h.hdrSize + h.imgSize, img[h.hdrSize + h.imgSize..HashedLen(h)];
    if h.protectSize != 0 {
      assert h.protectSize >= 4;
      AnnouncedBack(img, p);
      assert bytes[..4] == img[p..p + 4];
    }
  }

  /** The parts of what framing accepts. */
  function PartsOf(img: seq<byte>, h: Header, end: nat): Parts
    requires FIELDS_LEN <= h.hdrSize && HashedLen(h) + 4 <= end <= |img|
  {
    var a, b, n := h.hdrSize, h.hdrSize + h.imgSize, HashedLen(h);
    Parts(img[..FIELDS_LEN], img[FIELDS_LEN..a], img[a..b], img[b..n], img[n..n + 4], img[n + 4..end])
  }

  lemma PartsMakeUp(img: seq<byte>, h: Header, end: nat)
    requires HEADER_LEN <= h.hdrSize && HashedLen(h) + 4 <= end <= |img|
    ensures var x := PartsOf(img, h, end);
            Sized(x, h) && x.Hashed() == img[..HashedLen(h)] && x.Image() == img[..end]
  {
    var n := HashedLen(h);
    assert img[..end] == img[..n] + img[n..n + 4] + img[n + 4..end];
  }

  lemma FrameEncodes(img: seq<byte>, maxLen: nat, ts: seq<Tlv>)
    requires |img| >= HEADER_LEN && |img| >= maxLen && Frame(img, maxLen).Ok?
    requires var g := Frame(img, maxLen).value; ParseTlvs(img[g.hashed + 4..g.end]) == Some(ts)
    ensures var g := Frame(img, maxLen).value;
            FIELDS_LEN <= g.header.hdrSize && g.hashed == HashedLen(g.header) <= U32_MAX
            && Encodes(PartsOf(img, g.header, g.end), g.header, ts)
  {
    hide ParseHeader, Encodable, EncodeHeader, ParseTlvs, EncodeTlvs, EncodableTlvs, Announces, HalfAt, ProtectedOk,
         ProtectedArea, Parts.Image, Parts.Hashed;
    var g := Frame(img, maxLen).value;
    PartsMakeUp(img, g.header, g.end);
    HeaderOfParse(img);
    TlvsOfParse(img[g.hashed + 4..g.end]);
    ProtectedBack(img, g.header);
    AnnouncedBack(img, g.hashed);
  }

  lemma ValidIsImage(img: seq<byte>, maxLen: nat, t: Trust, v: ValidImage) returns (x: Parts, ts: seq<Tlv>)
    requires |img| >= HEADER_LEN && |img| >= maxLen && Validate(img, maxLen, t) == Ok(v)
    ensures IsImage(img, maxLen, t, v, x, ts)
  {
    hide Frame, ParseTlvs, HashOk, Signed, Encodes, Parts.Image, Parts.Hashed, PartsOf;
    var g := Frame(img, maxLen).value;
    ts := ParseTlvs(img[g.hashed + 4..g.end]).value;
    FrameEncodes(img, maxLen, ts);
    x := PartsOf(img, g.header, g.end);
    EncodesSized(x, g.header, ts);
    PartsMakeUp(img, g.header, g.end);
  }

  /** Acceptance, exactly: the slot begins with the encodings of a header without flags, of any size, and of a TLV
      list with the digest of all before it and a signature over that digest; with or without a protected area, which
      then announces its size. */
  lemma AcceptedExactly(img: seq<byte>, maxLen: nat, t: Trust, v: ValidImage)
    requires |img| >= HEADER_LEN && |img| >= maxLen
    ensures Validate(img, maxLen, t) == Ok(v) <==> exists x, ts :: IsImage(img, maxLen, t, v, x, ts)
  {
    hide Validate, IsImage;
    if Validate(img, maxLen, t) == Ok(v) { var x, ts := ValidIsImage(img, maxLen, t, v); }
    if x, ts :| IsImage(img, maxLen, t, v, x, ts) { ImageIsValid(img, maxLen, t, v, x, ts); }
  }

  // ----- Refusals

  lemma SameWord(a: byte, b: byte, c: byte, d: byte, a': byte, b': byte, c': byte, d': byte)
    requires U32(a, b, c, d) == U32(a', b', c', d')
    ensures a == a' && b == b' && c == c' && d == d'
  {
    WordHalves(U16(a, b), U16(c, d));
    WordHalves(U16(a', b'), U16(c', d'));
    SameHalf(a, b, a', b');
    SameHalf(c, d, c', d');
  }

  lemma SameHalf(a: byte, b: byte, a': byte, b': byte)
    requires U16(a, b) == U16(a', b')
    ensures a == a' && b == b'
  {
    HalfBytes(a, b);
    HalfBytes(a', b');
  }

  lemma WordIs(bytes: seq<byte>, at: nat, a: byte, b: byte, c: byte, d: byte)
    requires at + 4 <= |bytes|
    ensures WordAt(bytes, at) == U32(a, b, c, d) <==> bytes[at..at + 4] == [a, b, c, d]
  {
    var w := bytes[at..at + 4];
    hide U32;
    assert w == [bytes[at], bytes[at + 1], bytes[at + 2], bytes[at + 3]];
    if WordAt(bytes, at) == U32(a, b, c, d) { SameWord(w[0], w[1], w[2], w[3], a, b, c, d); }
  }

  /** The two refusals that look at the header alone: no magic, and flags. */
  lemma HeaderRefusals(img: seq<byte>, maxLen: nat, t: Trust)
    requires |img| >= HEADER_LEN && |img| >= maxLen
    ensures Validate(img, maxLen, t) == Err(NoImage) <==> img[0..4] != [0x3D, 0xB8, 0xF3, 0x96]
    ensures Validate(img, maxLen, t) == Err(Unsupported) <==>
              img[0..4] == [0x3D, 0xB8, 0xF3, 0x96] && img[16..20] != [0, 0, 0, 0]
  {
    hide HalfAt, WordAt, Validate, U32;
    WordIs(img, 0, 0x3D, 0xB8, 0xF3, 0x96);
    WordIs(img, 16, 0, 0, 0, 0);
    WordsAre();
    FieldRefusals(img, maxLen, t);
  }

  lemma WordsAre()
    ensures U32(0x3D, 0xB8, 0xF3, 0x96) == IMAGE_MAGIC && U32(0, 0, 0, 0) == 0
  {}

  lemma FieldRefusals(img: seq<byte>, maxLen: nat, t: Trust)
    requires |img| >= HEADER_LEN && |img| >= maxLen
    ensures Validate(img, maxLen, t) == Err(NoImage) <==> ParseHeader(img) == None
    ensures Validate(img, maxLen, t) == Err(Unsupported) <==>
              ParseHeader(img).Some? && ParseHeader(img).value.flags != 0
  {
    hide HalfAt, ParseHeader, ParseTlvs, HashOk, Signed, ProtectedOk;
  }

  /** And those that look at the TLV list of an image that is otherwise in order. */
  lemma TlvRefusals(img: seq<byte>, maxLen: nat, t: Trust, h: Header, x: Parts, ts: seq<Tlv>)
    requires |img| >= HEADER_LEN && |x.Image()| <= maxLen <= |img| && img[..|x.Image()|] == x.Image()
    requires |x.Hashed()| <= U32_MAX && Encodes(x, h, ts)
    ensures var v, digest := Validate(img, maxLen, t), t.sha256(x.Hashed());
            && (v == Err(Malformed) <==> exists e :: e in ts && BadSha(e))
            && (v == Err(HashMismatch) <==> (forall e :: e in ts ==> !BadSha(e)) && !HashOk(ts, digest))
            && (v == Err(BadSignature) <==>
                  (forall e :: e in ts ==> !BadSha(e)) && HashOk(ts, digest) && !Signed(ts, digest, t))
  {
    hide Frame, ParseTlvs, HashOk, Signed, Encodes, BadSha, Parts.Image, Parts.Hashed;
    ImageFrame(img, maxLen, h, x, ts);
    EncodesSized(x, h, ts);
    PartsAt(img, x, h);
  }
}
