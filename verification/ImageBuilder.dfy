/**
 Building images that mcuboot-image/src/image.rs accepts, and a family of flash contents on which one power loss
 during the header write loses an upgrade for good.
 */
module ImageBuilder {
  import opened Wrappers
  import opened Bytes
  import opened Arithmetic
  import opened DerSignature
  import opened NorFlashModel
  import opened BootImage
  import opened ImageFormat
  import opened ImageScan
  import opened BootLoader
  import opened BootSafety

  // ----- Signed images

  /** A header for firmware of `size` bytes with no protected TLVs. */
  function PlainHeader(size: nat, v: Version): Header {
    Header(0, HEADER_LEN, 0, size, 0, v)
  }

  function SignedTlvs(t: Trust, digest: seq<byte>, r: seq<byte>, s: seq<byte>): seq<Tlv>
    requires |r| == |s| == SCALAR
  {
    [Tlv(TLV_SHA256, digest), Tlv(TLV_KEYHASH, t.KeyHash()), Tlv(TLV_ECDSA_SIG, EncodeSignature(r, s))]
  }

  /** What is asked of a build: fields that fit, 32-byte digests, and a signature that verifies. */
  predicate Buildable(firmware: seq<byte>, v: Version, t: Trust, r: seq<byte>, s: seq<byte>) {
    && Encodable(PlainHeader(|firmware|, v)) && |firmware| < 0x8000_0000 && |r| == |s| == SCALAR
    && |t.KeyHash()| == 32 && |Digest(firmware, v, t)| == 32 && t.verify(t.key, Digest(firmware, v, t), r, s)
  }

  /** The digest of a header without more padding than it needs, and firmware. */
  function Digest(firmware: seq<byte>, v: Version, t: Trust): seq<byte>
    requires Encodable(PlainHeader(|firmware|, v))
  {
    t.sha256(EncodeHeader(PlainHeader(|firmware|, v)) + Zeros(4) + firmware + [])
  }

  function Area(t: Trust, digest: seq<byte>, r: seq<byte>, s: seq<byte>): (a: seq<byte>)
    requires |digest| == 32 && |t.KeyHash()| == 32 && |r| == |s| == SCALAR
    ensures |a| <= 148
  {
    var ts := SignedTlvs(t, digest, r, s);
    EncodeTlv(ts[0]) + EncodeTlv(ts[1]) + EncodeTlv(ts[2])
  }

  lemma AreaEncodes(t: Trust, digest: seq<byte>, r: seq<byte>, s: seq<byte>)
    requires |digest| == 32 && |t.KeyHash()| == 32 && |r| == |s| == SCALAR
    ensures var ts := SignedTlvs(t, digest, r, s); EncodableTlvs(ts) && Area(t, digest, r, s) == EncodeTlvs(ts)
  {
    hide EncodeTlv, EncodeSignature;
    var ts := SignedTlvs(t, digest, r, s);
    var a, b, c := EncodeTlv(ts[0]), EncodeTlv(ts[1]), EncodeTlv(ts[2]);
    assert EncodeTlvs([]) == [] && ts[1..][1..] == [ts[2]] && ts[1..][0] == ts[1] && [ts[2]][1..] == [];
    assert EncodeTlvs([ts[2]]) == c + [] == c;
    assert EncodeTlvs(ts[1..]) == b + c;
    assert a + (b + c) == a + b + c;
  }

  function Assemble(fields: seq<byte>, firmware: seq<byte>, area: seq<byte>): Parts
    requires |area| <= 148
  {
    Parts(fields, Zeros(4), firmware, [], Le16(TLV_INFO_MAGIC) + Le16(4 + |area|), area)
  }

  function Build(firmware: seq<byte>, v: Version, t: Trust, r: seq<byte>, s: seq<byte>): Parts
    requires Buildable(firmware, v, t, r, s)
  {
    Assemble(EncodeHeader(PlainHeader(|firmware|, v)), firmware, Area(t, Digest(firmware, v, t), r, s))
  }

  lemma BuiltEncodes(firmware: seq<byte>, v: Version, t: Trust, r: seq<byte>, s: seq<byte>)
    requires Buildable(firmware, v, t, r, s)
    ensures Encodes(Build(firmware, v, t, r, s), PlainHeader(|firmware|, v),
                    SignedTlvs(t, Digest(firmware, v, t), r, s))
  {
    hide EncodeHeader, Area, Le16, Encodable, EncodeTlvs, EncodableTlvs, SignedTlvs;
    AreaEncodes(t, Digest(firmware, v, t), r, s);
  }

  lemma SignedTlvsPass(t: Trust, digest: seq<byte>, r: seq<byte>, s: seq<byte>)
    requires |digest| == 32 && |t.KeyHash()| == 32 && |r| == |s| == SCALAR && t.verify(t.key, digest, r, s)
    ensures Endorses(SignedTlvs(t, digest, r, s), digest, t)
  {
    hide EncodeSignature, ParseSignature;
    var ts := SignedTlvs(t, digest, r, s);
    assert ts[0].kind == TLV_SHA256 && ts[0].value == digest;
    ParseOfEncode(r, s);
    assert GoodSig(ts[2], digest, t);
    assert NamesKey(ts[..2][1], t.KeyHash());
    assert Selected(ts[..2], t.KeyHash());
  }

  ghost predicate ValidWith(image: seq<byte>, t: Trust, v: ValidImage, rest: seq<byte>, maxLen: nat)
    requires HEADER_LEN <= |image| <= maxLen <= |image| + |rest|
  {
    Validate(image + rest, maxLen, t) == Ok(v)
  }

  /** The whole of `image` is the valid image `v`, whatever follows it. */
  ghost predicate Standalone(image: seq<byte>, t: Trust, v: ValidImage) {
    && HEADER_LEN <= |image| == v.end
    && forall rest, maxLen: nat :: |image| <= maxLen <= |image| + |rest| ==> ValidWith(image, t, v, rest, maxLen)
  }

  /** An image that encodes a header and a TLV list that endorses it is accepted, whatever follows it. */
  lemma EndorsedStandalone(x: Parts, h: Header, ts: seq<Tlv>, t: Trust)
    requires Encodes(x, h, ts) && |x.Hashed()| <= U32_MAX && Endorses(ts, t.sha256(x.Hashed()), t)
    ensures Standalone(x.Image(), t, ValidImage(h, |x.Image()|, t.sha256(x.Hashed())))
  {
    hide Validate, Endorses, Encodes, Parts.Image, Parts.Hashed;
    var img, v := x.Image(), ValidImage(h, |x.Image()|, t.sha256(x.Hashed()));
    ImageLength(x, h, ts);
    forall rest, maxLen: nat | |img| <= maxLen <= |img| + |rest| ensures ValidWith(img, t, v, rest, maxLen) {
      assert (img + rest)[..|img|] == img;
      ImageIsValid(img + rest, maxLen, t, v, x, ts);
    }
  }

  lemma ImageLength(x: Parts, h: Header, ts: seq<Tlv>)
    requires Encodes(x, h, ts)
    ensures HEADER_LEN <= |x.Image()|
  {
    hide Encodable, EncodeHeader, ProtectedArea, Announces, EncodableTlvs, EncodeTlvs;
  }

  /** Every image built this way is accepted, whatever follows it: there is one for every key, firmware
      and release that a signature exists for. */
  lemma BuiltIsValid(firmware: seq<byte>, v: Version, t: Trust, r: seq<byte>, s: seq<byte>)
    requires Buildable(firmware, v, t, r, s)
    ensures var image := Build(firmware, v, t, r, s).Image();
            Standalone(image, t, ValidImage(PlainHeader(|firmware|, v), |image|, Digest(firmware, v, t)))
  {
    hide EncodeHeader, Encodes, Encodable, Area, HashOk, Signed, SignedTlvs, Standalone, Le16, Zeros;
    var x, digest := Build(firmware, v, t, r, s), Digest(firmware, v, t);
    BuiltEncodes(firmware, v, t, r, s);
    SignedTlvsPass(t, digest, r, s);
    BuiltHashed(x, PlainHeader(|firmware|, v), SignedTlvs(t, digest, r, s));
    EndorsedStandalone(x, PlainHeader(|firmware|, v), SignedTlvs(t, digest, r, s), t);
  }

  lemma BuiltHashed(x: Parts, h: Header, ts: seq<Tlv>)
    requires Encodes(x, h, ts)
    ensures |x.Hashed()| == HashedLen(h)
  {
    hide Encodable, EncodeHeader, ProtectedArea, Announces, EncodableTlvs, EncodeTlvs;
  }

  // ----- An upgrade that is lost

  function Filled(n: nat): (r: seq<byte>)
    ensures |r| == n && forall i :: 0 <= i < n ==> r[i] == ERASED
  {
    seq(n, i => ERASED)
  }

  /** An empty primary slot, and a secondary slot with an image and a request. */
  function Staged(l: Layout, image: seq<byte>): (mem: seq<byte>)
    requires |image| + BOOT_MAGIC_LEN <= l.slotSize
    ensures |mem| == 2 * l.slotSize
  {
    Filled(l.slotSize) + image + Filled(l.slotSize - |image| - BOOT_MAGIC_LEN) + BOOT_MAGIC
  }

  /** Two slots that make up the whole device, the primary first, with room for an image of `n` bytes. */
  predicate Holds(l: Layout, n: nat) {
    && Fits(l, 2 * l.slotSize) && l.primary == 0 && l.secondary == l.slotSize
    && HEADER_LEN <= n <= MaxLen(l) && n + BOOT_MAGIC_LEN <= l.slotSize
  }

  lemma StagedReads(l: Layout, image: seq<byte>)
    requires Holds(l, |image|)
    ensures var mem := Staged(l, image);
            && Requested(mem, l) && PrimaryHeader(mem, l) == None && mem[l.secondary..l.secondary + |image|] == image
            && View(mem, l.secondary, Max(HEADER_LEN, MaxLen(l)))
               == image + View(mem, l.secondary + |image|, MaxLen(l) - |image|)
  {
    var mem := Staged(l, image);
    assert mem[2 * l.slotSize - BOOT_MAGIC_LEN..2 * l.slotSize] == BOOT_MAGIC;
    assert mem[0] == ERASED;
    NoMagicNoHeader(mem[0..HEADER_LEN], 0);
    assert mem[l.slotSize..l.slotSize + |image|] == image;
  }

  /** Left alone, the upgrade to an image of `n` bytes succeeds; when power fails four bytes into its
      header write, no boot after the losses `ns` does. */
  ghost predicate CanBeLost(l: Layout, mem: seq<byte>, t: Trust, n: nat, ns: seq<nat>) {
    && Fits(l, |mem|)
    && BootRun(mem, Stable, l, t).result.Ok?
    && var torn := BootRun(mem, Fails(EraseLen(l, n) + 4), l, t).mem;
       BootRun(AfterBoots(torn, ns, l, t), Stable, l, t).result.Err?
  }

  /** A staged image that is valid and whose release has a byte other than 0xFF can be lost. */
  lemma StagedIsLost(l: Layout, image: seq<byte>, t: Trust, c: ValidImage, j: nat, ns: seq<nat>)
    requires Holds(l, |image|)
    requires Verdict(Staged(l, image), l, l.secondary, t) == Ok(c) && 20 <= j < 24 && image[j] != ERASED
    ensures CanBeLost(l, Staged(l, image), t, c.end, ns)
  {
    hide Staged, BootRun, EraseLen, Aligned, Requested, ParseHeader, TearsHeader, AfterBoots, NeverTears, Recovered,
         Verdict;
    var mem := Staged(l, image);
    StagedReads(l, image);
    PowerFailSafety(mem, [], l, t);
    NoLosses(mem, l, t);
    RecoveredBoots(mem, BootRun(mem, Stable, l, t), l, c);
    assert mem[l.secondary + j] == mem[l.secondary..l.secondary + |image|][j];
    FourBytesIn(mem, l, t, j);
    OneTearIsFatal(mem, EraseLen(l, c.end) + 4, ns, l, t);
  }

  lemma StagedVerdict(l: Layout, image: seq<byte>, t: Trust, v: ValidImage)
    requires Holds(l, |image|) && Standalone(image, t, v)
    ensures Verdict(Staged(l, image), l, l.secondary, t) == Ok(v)
  {
    hide Staged, Validate, Aligned, Requested, PrimaryHeader;
    StagedReads(l, image);
    assert ValidWith(image, t, v, View(Staged(l, image), l.secondary + |image|, MaxLen(l) - |image|), MaxLen(l));
  }

  /** Every valid image whose release is not 255.255.65535 gives a flash on which the upgrade succeeds
      if left alone, and on which losing power four bytes into the header write makes every later boot
      fail. */
  lemma LostUpgrade(l: Layout, image: seq<byte>, t: Trust, v: ValidImage, j: nat, ns: seq<nat>)
    requires Holds(l, |image|) && Standalone(image, t, v) && 20 <= j < 24 && image[j] != ERASED
    ensures CanBeLost(l, Staged(l, image), t, |image|, ns)
  {
    hide Staged, Verdict, Aligned, ValidWith, CanBeLost, EraseLen;
    StagedVerdict(l, image, t, v);
    StagedIsLost(l, image, t, v, j, ns);
  }

  lemma NoLosses(mem: seq<byte>, l: Layout, t: Trust)
    requires Fits(l, |mem|)
    ensures AfterBoots(mem, [], l, t) == mem && NeverTears(mem, [], l, t)
  {}

  lemma RecoveredBoots(origin: seq<byte>, o: Outcome<Bootable>, l: Layout, c: ValidImage)
    requires Fits(l, |origin|) && Recovered(origin, o, l, c)
    ensures o.result.Ok?
  {}

  /** A byte of the release that is not 0xFF. */
  lemma ReleaseByte(h: Header) returns (j: nat)
    requires Encodable(h) && (h.version.major != 255 || h.version.minor != 255 || h.version.revision != 0xFFFF)
    ensures 20 <= j < 24 && EncodeHeader(h)[j] != ERASED
  {
    hide Le32;
    var v, e := h.version, EncodeHeader(h);
    assert e[20] == v.major && e[21] == v.minor && e[22] == v.revision % 256 && e[23] == v.revision / 256;
    j := if v.major != 255 then 20 else if v.minor != 255 then 21 else if v.revision % 256 != 255 then 22 else 23;
  }

  /** A trust that takes every signature, with a constant digest. */
  const LENIENT: Trust := Trust(_ => Filled(32), [], (_, _, _, _) => true)

  const FIRST: Version := Version(1, 0, 0, 0)

  lemma LenientBuilds()
    ensures Buildable([], FIRST, LENIENT, Zeros(SCALAR), Zeros(SCALAR))
  {
    hide EncodeHeader, Zeros;
  }

  /** One such flash: two slots of four sectors, release 1.0.0 without firmware. */
  lemma OneLostUpgrade(ns: seq<nat>) returns (l: Layout, image: seq<byte>)
    ensures Holds(l, |image|) && CanBeLost(l, Staged(l, image), LENIENT, |image|, ns)
  {
    hide CanBeLost, Staged, Build, EncodeHeader, Buildable, Standalone;
    LenientBuilds();
    image := Build([], FIRST, LENIENT, Zeros(SCALAR), Zeros(SCALAR)).Image();
    BuiltIsValid([], FIRST, LENIENT, Zeros(SCALAR), Zeros(SCALAR));
    var j := SmallImage(image);
    l := Layout(0, 1024, 1024, 256, 4);
    LostUpgrade(l, image, LENIENT, ValidImage(PlainHeader(0, FIRST), |image|, Digest([], FIRST, LENIENT)), j, ns);
  }

  lemma SmallImage(image: seq<byte>) returns (j: nat)
    requires Buildable([], FIRST, LENIENT, Zeros(SCALAR), Zeros(SCALAR))
    requires image == Build([], FIRST, LENIENT, Zeros(SCALAR), Zeros(SCALAR)).Image()
    ensures HEADER_LEN <= |image| <= 184 && 20 <= j < 24 && image[j] != ERASED
  {
    hide Area, EncodeHeader, Le16;
    j := ReleaseByte(PlainHeader(0, FIRST));
    assert image[j] == EncodeHeader(PlainHeader(0, FIRST))[j];
  }
}
