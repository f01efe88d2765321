/**
 Authenticity from end to end (mcuboot-image/src/boot.rs:98-115, image.rs:160-254, p256.rs:339-389): whatever
 boots, from any flash and with any supply, is signed.
 */
module BootAuthentic {
  import opened Wrappers
  import opened Bytes
  import opened DerSignature
  import opened NorFlashModel
  import opened BootImage
  import opened ImageScan
  import opened BootLoader
  import opened ImageSignature

  /** Some entry of the TLV list is a canonical signature that section 4.1.4 of SEC 1 accepts for the key over
      the digest, and the nearest key or signature entry before it names the key. */
  ghost predicate CarriesSignature(ts: seq<Tlv>, sha256: seq<byte> -> seq<byte>, xy: seq<byte>, digest: seq<byte>) {
    exists i, r, s :: 0 <= i < |ts| && SignedBy(ts, sha256, xy, digest, i, r, s)
  }

  ghost predicate SignedBy(ts: seq<Tlv>, sha256: seq<byte> -> seq<byte>, xy: seq<byte>, digest: seq<byte>,
                           i: nat, r: seq<byte>, s: seq<byte>)
    requires i < |ts|
  {
    && |r| == |s| == SCALAR && ts[i] == Tlv(TLV_ECDSA_SIG, EncodeSignature(r, s)) && Accepts(xy, digest, r, s)
    && Selected(ts[..i], sha256(P256_SPKI_PREFIX + xy))
  }

  /** What the slot holds: a header, the hashed bytes it announces, and a TLV list with their digest as its last
      SHA-256 entry and a signature of the key. */
  ghost predicate Authentic(img: seq<byte>, image: ValidImage, sha256: seq<byte> -> seq<byte>, xy: seq<byte>) {
    var n := HashedLen(image.header);
    && HEADER_LEN <= |img| && ParseHeader(img) == Some(image.header) && n + 4 <= image.end <= |img|
    && image.digest == sha256(img[..n])
    && var ts := ParseTlvs(img[n + 4..image.end]);
       ts.Some? && HashOk(ts.value, image.digest) && CarriesSignature(ts.value, sha256, xy, image.digest)
  }

  lemma SignedCarries(ts: seq<Tlv>, sha256: seq<byte> -> seq<byte>, xy: seq<byte>, digest: seq<byte>)
    requires Signed(ts, digest, P256Trust(sha256, xy))
    ensures CarriesSignature(ts, sha256, xy, digest)
  {
    hide ParseSignature, EncodeSignature, Accepts, Selected;
    var t := P256Trust(sha256, xy);
    var i :| 0 <= i < |ts| && GoodSig(ts[i], digest, t) && Selected(ts[..i], t.KeyHash());
    var (r, s) := ParseSignature(ts[i].value).value;
    EncodeOfParse(ts[i].value);
    assert SignedBy(ts, sha256, xy, digest, i, r, s);
  }

  lemma ValidIsAuthentic(img: seq<byte>, maxLen: nat, sha256: seq<byte> -> seq<byte>, xy: seq<byte>)
    requires |img| >= HEADER_LEN && |img| >= maxLen && Validate(img, maxLen, P256Trust(sha256, xy)).Ok?
    ensures Authentic(img, Validate(img, maxLen, P256Trust(sha256, xy)).value, sha256, xy)
  {
    hide ParseHeader, ParseTlvs, HashOk, Signed, CarriesSignature;
    var g := Frame(img, maxLen).value;
    var digest := sha256(img[..g.hashed]);
    SignedCarries(ParseTlvs(img[g.hashed + 4..g.end]).value, sha256, xy, digest);
  }

  /** Whatever boots is signed: from any flash, however it came about, with any supply, a boot that succeeds
      leaves in the primary slot the image it reports, with a signature of the loader's key over its digest. */
  lemma BootsOnlySigned(mem: seq<byte>, supply: Supply, l: Layout, sha256: seq<byte> -> seq<byte>, xy: seq<byte>)
    requires Fits(l, |mem|)
    ensures var o := BootRun(mem, supply, l, P256Trust(sha256, xy));
            o.result.Ok? ==>
              Authentic(View(o.mem, l.primary, Max(HEADER_LEN, MaxLen(l))), o.result.value.image, sha256, xy)
  {
    hide Validate, RequestRun, Authentic;
    var o := BootRun(mem, supply, l, P256Trust(sha256, xy));
    if o.result.Ok? {
      ValidIsAuthentic(View(o.mem, l.primary, Max(HEADER_LEN, MaxLen(l))), MaxLen(l), sha256, xy);
    }
  }
}
