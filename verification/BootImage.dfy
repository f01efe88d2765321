/**
 The MCUboot image format (mcuboot-image/src/image.rs, trailer.rs) and what a valid image is: a
 declarative reading of its header and its TLV list.
 */
module BootImage {
  import opened Wrappers
  import opened Bytes
  import opened DerSignature

  const IMAGE_MAGIC: nat := 0x96F3_B83D
  const HEADER_LEN: nat := 32
  const TLV_INFO_MAGIC: nat := 0x6907
  const TLV_PROTECTED_INFO_MAGIC: nat := 0x6908
  const TLV_KEYHASH: nat := 0x01
  const TLV_SHA256: nat := 0x10
  const TLV_ECDSA_SIG: nat := 0x22
  const MAX_DER: nat := 72
  const READ_CHUNK: nat := 128
  const U32_MAX: nat := 0xFFFF_FFFF

  const P256_SPKI_PREFIX: seq<byte> := [
    0x30, 0x59, 0x30, 0x13, 0x06, 0x07, 0x2A, 0x86, 0x48, 0xCE, 0x3D, 0x02, 0x01, 0x06, 0x08, 0x2A,
    0x86, 0x48, 0xCE, 0x3D, 0x03, 0x01, 0x07, 0x03, 0x42, 0x00, 0x04]

  const BOOT_MAGIC: seq<byte> := [
    0x77, 0xC2, 0x95, 0xF3, 0x60, 0xD2, 0xEF, 0x7F, 0x35, 0x52, 0x50, 0x0F, 0x2C, 0xB6, 0x79, 0x80]
  const BOOT_MAGIC_LEN: nat := 16

  datatype ImageError = Flash | NoImage | Malformed | Unsupported | HashMismatch | BadSignature

  datatype MagicState = Good | AllErased | Other

  /** `MagicState::classify`. */
  function Classify(bytes: seq<byte>): MagicState {
    if bytes == BOOT_MAGIC then Good
    else if forall b :: b in bytes ==> b == ERASED then AllErased
    else Other
  }

  // ----- Versions and headers

  datatype Version = Version(major: nat, minor: nat, revision: nat, build: nat)

  /** `cmp_release(..).is_lt()`: the build number is ignored. */
  predicate ReleaseBelow(a: Version, b: Version) {
    || a.major < b.major
    || (a.major == b.major && a.minor < b.minor)
    || (a.major == b.major && a.minor == b.minor && a.revision < b.revision)
  }

  /** The release as one number: what bytes 20 to 23 of a header hold, the most significant first. */
  function ReleaseNumber(v: Version): nat {
    v.major * 0x100_0000 + v.minor * 0x1_0000 + v.revision
  }

  predicate InRange(v: Version) {
    v.major < 0x100 && v.minor < 0x100 && v.revision < 0x1_0000
  }

  /** The order of releases is the order of these numbers. */
  lemma BelowIsNumber(a: Version, b: Version)
    requires InRange(a) && InRange(b)
    ensures ReleaseBelow(a, b) <==> ReleaseNumber(a) < ReleaseNumber(b)
  {}

  datatype Header = Header(loadAddr: nat, hdrSize: nat, protectSize: nat, imgSize: nat, flags: nat, version: Version)

  function HalfAt(bytes: seq<byte>, at: nat): (r: nat)
    requires at + 2 <= |bytes|
    ensures r < 0x1_0000
  {
    U16(bytes[at], bytes[at + 1])
  }

  function WordAt(bytes: seq<byte>, at: nat): (r: nat)
    requires at + 4 <= |bytes|
    ensures r <= U32_MAX
  {
    U32(bytes[at], bytes[at + 1], bytes[at + 2], bytes[at + 3])
  }

  /** `ImageHeader::parse`. */
  function ParseHeader(bytes: seq<byte>): Option<Header>
    requires |bytes| >= HEADER_LEN
  {
    if WordAt(bytes, 0) != IMAGE_MAGIC then None
    else Some(Header(WordAt(bytes, 4), HalfAt(bytes, 8), HalfAt(bytes, 10), WordAt(bytes, 12), WordAt(bytes, 16),
                     Version(bytes[20], bytes[21], HalfAt(bytes, 22), WordAt(bytes, 24))))
  }

  /** The release number in a header. */
  function ReleaseAt(header: seq<byte>): nat
    requires |header| >= HEADER_LEN
  {
    var a: nat, b: nat, c: nat, d: nat := header[20], header[21], header[23], header[22];
    a * 0x100_0000 + b * 0x1_0000 + c * 0x100 + d
  }

  lemma ParsedRelease(header: seq<byte>)
    requires |header| >= HEADER_LEN && ParseHeader(header).Some?
    ensures var v := ParseHeader(header).value.version; InRange(v) && ReleaseNumber(v) == ReleaseAt(header)
  {}

  // ----- What a valid image is

  /** The hash, the trusted key and the signature check, as far as validation can see them. */
  datatype Trust = Trust(
    sha256: seq<byte> -> seq<byte>,
    key: seq<byte>,
    verify: (seq<byte>, seq<byte>, seq<byte>, seq<byte>) -> bool)   // key, digest, r, s
  {
    /** `TrustedKey::key_hash`. */
    function KeyHash(): seq<byte> {
      sha256(P256_SPKI_PREFIX + key)
    }
  }

  datatype Tlv = Tlv(kind: nat, value: seq<byte>)

  /** The unprotected TLV area as a list of entries; none unless it ends exactly with its last entry. */
  function ParseTlvs(area: seq<byte>): Option<seq<Tlv>>
    decreases |area|
  {
    if area == [] then Some([])
    else if |area| < 4 || 4 + HalfAt(area, 2) > |area| then None
    else
      var next := 4 + HalfAt(area, 2);
      match ParseTlvs(area[next..])
      case None => None
      case Some(rest) => Some([Tlv(HalfAt(area, 0), area[4..next])] + rest)
  }

  predicate BadSha(x: Tlv) {
    x.kind == TLV_SHA256 && |x.value| != 32
  }

  /** The last SHA-256 entry is the digest. */
  ghost predicate HashOk(ts: seq<Tlv>, digest: seq<byte>) {
    exists i :: 0 <= i < |ts| && ts[i].kind == TLV_SHA256 && ts[i].value == digest
                && forall j :: i < j < |ts| ==> ts[j].kind != TLV_SHA256
  }

  predicate NamesKey(x: Tlv, keyHash: seq<byte>) {
    x.kind == TLV_KEYHASH && |x.value| == 32 && x.value == keyHash
  }

  predicate KeyOrSig(x: Tlv) {
    x.kind == TLV_KEYHASH || x.kind == TLV_ECDSA_SIG
  }

  predicate GoodSig(x: Tlv, digest: seq<byte>, t: Trust) {
    && x.kind == TLV_ECDSA_SIG && |x.value| <= MAX_DER
    && match ParseSignature(x.value)
       case None => false
       case Some((r, s)) => t.verify(t.key, digest, r, s)
  }

  /** Some KEYHASH entry names the trusted key and nothing after it replaces or consumes it. */
  ghost predicate Selected(ts: seq<Tlv>, keyHash: seq<byte>) {
    exists i :: 0 <= i < |ts| && NamesKey(ts[i], keyHash) && forall j :: i < j < |ts| ==> !KeyOrSig(ts[j])
  }

  /** Some signature verifies, and the nearest key or signature entry before it names the trusted key. */
  ghost predicate Signed(ts: seq<Tlv>, digest: seq<byte>, t: Trust) {
    exists i :: 0 <= i < |ts| && GoodSig(ts[i], digest, t) && Selected(ts[..i], t.KeyHash())
  }

  datatype Geometry = Geometry(header: Header, hashed: nat, end: nat)

  /** The part of the image that the digest covers: header, firmware and protected TLVs. */
  function HashedLen(h: Header): nat {
    h.hdrSize + h.imgSize + h.protectSize
  }

  /** The protected TLV area, if there is one, announces itself and its size. */
  predicate ProtectedOk(h: Header, img: seq<byte>)
    requires HashedLen(h) + 4 <= |img|
  {
    h.protectSize != 0 ==>
      && HalfAt(img, h.hdrSize + h.imgSize) == TLV_PROTECTED_INFO_MAGIC
      && HalfAt(img, h.hdrSize + h.imgSize + 2) == h.protectSize
  }

  /** The TLV framing under the header `h`. */
  function FrameOf(h: Header, img: seq<byte>, maxLen: nat): (r: Result<Geometry, ImageError>)
    requires |img| >= maxLen
    ensures r.Ok? ==> r.value.header == h && r.value.hashed == HashedLen(h)
    ensures r.Ok? ==> HEADER_LEN <= r.value.hashed && r.value.hashed + 4 <= r.value.end <= maxLen
    ensures r.Err? ==> r.error in {Unsupported, Malformed}
  {
    var hashed := HashedLen(h);
    if h.flags != 0 then Err(Unsupported)
    else if h.hdrSize < HEADER_LEN || hashed > U32_MAX || hashed + 4 > maxLen then Err(Malformed)
    else
      var magic, total := HalfAt(img, hashed), HalfAt(img, hashed + 2);
      if magic != TLV_INFO_MAGIC || hashed + total > maxLen || total < 4 || !ProtectedOk(h, img) then Err(Malformed)
      else Ok(Geometry(h, hashed, hashed + total))
  }

  /** Header and TLV framing: everything validation checks before it hashes. */
  function Frame(img: seq<byte>, maxLen: nat): (r: Result<Geometry, ImageError>)
    requires |img| >= HEADER_LEN && |img| >= maxLen
    ensures r.Ok? ==> HEADER_LEN <= r.value.hashed && r.value.hashed + 4 <= r.value.end <= maxLen
    ensures r.Err? ==> r.error in {NoImage, Unsupported, Malformed}
  {
    match ParseHeader(img)
    case None => Err(NoImage)
    case Some(h) => FrameOf(h, img, maxLen)
  }

  datatype ValidImage = ValidImage(header: Header, end: nat, digest: seq<byte>)

  ghost function Judge(g: Geometry, digest: seq<byte>, ts: Option<seq<Tlv>>, t: Trust): Result<ValidImage, ImageError> {
    if ts == None || exists x :: x in ts.value && BadSha(x) then Err(Malformed)
    else if !HashOk(ts.value, digest) then Err(HashMismatch)
    else if !Signed(ts.value, digest, t) then Err(BadSignature)
    else Ok(ValidImage(g.header, g.end, digest))
  }

  /** The verdict on an image whose framing is `g`. */
  ghost function JudgeAt(g: Geometry, img: seq<byte>, t: Trust): Result<ValidImage, ImageError>
    requires g.hashed + 4 <= g.end <= |img|
  {
    Judge(g, t.sha256(img[..g.hashed]), ParseTlvs(img[g.hashed + 4..g.end]), t)
  }

  /** The verdict on the slot contents `img`. */
  ghost function Validate(img: seq<byte>, maxLen: nat, t: Trust): Result<ValidImage, ImageError>
    requires |img| >= HEADER_LEN && |img| >= maxLen
  {
    match Frame(img, maxLen)
    case Err(e) => Err(e)
    case Ok(g) => JudgeAt(g, img, t)
  }

  // ----- Where the verdict looks

  predicate Agree(a: seq<byte>, b: seq<byte>, n: nat)
    requires n <= |a| && n <= |b|
  {
    forall i :: 0 <= i < n ==> a[i] == b[i]
  }

  lemma HeaderIsLocal(a: seq<byte>, b: seq<byte>)
    requires |a| >= HEADER_LEN && |b| >= HEADER_LEN && Agree(a, b, HEADER_LEN)
    ensures ParseHeader(a) == ParseHeader(b)
  {}

  lemma FrameOfIsLocal(h: Header, a: seq<byte>, b: seq<byte>, maxLen: nat)
    requires |a| >= maxLen && |b| >= maxLen
    requires FrameOf(h, a, maxLen).Ok? && Agree(a, b, FrameOf(h, a, maxLen).value.end)
    ensures FrameOf(h, b, maxLen) == FrameOf(h, a, maxLen)
  {
    var hashed := HashedLen(h);
    assert HalfAt(a, hashed) == HalfAt(b, hashed) && HalfAt(a, hashed + 2) == HalfAt(b, hashed + 2);
    assert ProtectedOk(h, a) == ProtectedOk(h, b);
  }

  lemma FrameIsLocal(a: seq<byte>, b: seq<byte>, maxLen: nat)
    requires |a| >= HEADER_LEN && |a| >= maxLen && |b| >= HEADER_LEN && |b| >= maxLen
    requires Frame(a, maxLen).Ok? && Agree(a, b, Frame(a, maxLen).value.end)
    ensures Frame(b, maxLen) == Frame(a, maxLen)
  {
    HeaderIsLocal(a, b);
    FrameOfIsLocal(ParseHeader(a).value, a, b, maxLen);
  }

  lemma JudgeIsLocal(g: Geometry, a: seq<byte>, b: seq<byte>, t: Trust)
    requires g.hashed + 4 <= g.end <= |a| && g.end <= |b| && Agree(a, b, g.end)
    ensures JudgeAt(g, a, t) == JudgeAt(g, b, t)
  {
    assert a[..g.hashed] == b[..g.hashed];
    assert a[g.hashed + 4..g.end] == b[g.hashed + 4..g.end];
  }

  lemma JudgeKeepsFrame(g: Geometry, img: seq<byte>, t: Trust)
    requires g.hashed + 4 <= g.end <= |img| && JudgeAt(g, img, t).Ok?
    ensures JudgeAt(g, img, t).value.end == g.end && JudgeAt(g, img, t).value.header == g.header
  {}

  /** A verdict of `Ok` depends only on the bytes up to the image's end. */
  lemma ValidateIsLocal(a: seq<byte>, b: seq<byte>, maxLen: nat, t: Trust)
    requires |a| >= HEADER_LEN && |a| >= maxLen && |b| >= HEADER_LEN && |b| >= maxLen
    requires Validate(a, maxLen, t).Ok? && Agree(a, b, Validate(a, maxLen, t).value.end)
    ensures Validate(b, maxLen, t) == Validate(a, maxLen, t)
  {
    var g := Frame(a, maxLen).value;
    JudgeKeepsFrame(g, a, t);
    FrameIsLocal(a, b, maxLen);
    JudgeIsLocal(g, a, b, t);
  }
}
