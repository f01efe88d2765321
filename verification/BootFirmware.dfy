/**
 What a boot answers (mcuboot-image/src/boot.rs:98-157): the vector table is where the firmware of the primary image
 begins, and the report says what became of the request.
 */
module BootFirmware {
  import opened Wrappers
  import opened Bytes
  import opened Arithmetic
  import opened NorFlashModel
  import opened BootImage
  import opened ImageFormat
  import opened ImageScan
  import opened BootLoader
  import opened BootSafety

  /** The slot holds the image of the parts `x`, and its firmware begins at `at`. */
  ghost predicate StartsAt(mem: seq<byte>, slot: nat, x: Parts, at: nat) {
    && slot + |x.Image()| <= |mem| && mem[slot..slot + |x.Image()|] == x.Image()
    && at + |x.firmware| <= |mem| && mem[at..at + |x.firmware|] == x.firmware && at == slot + x.Start()
  }

  lemma FirmwareInside(mem: seq<byte>, slot: nat, x: Parts)
    requires slot + |x.Image()| <= |mem| && mem[slot..slot + |x.Image()|] == x.Image()
    ensures StartsAt(mem, slot, x, slot + x.Start())
  {
    var a, b, n := x.Start(), x.Start() + |x.firmware|, |x.Image()|;
    assert x.Image()[a..b] == x.firmware;
    assert mem[slot + a..slot + b] == mem[slot..slot + n][a..b];
  }

  lemma ViewBegins(mem: seq<byte>, slot: nat, n: nat, m: nat)
    requires m <= n && slot + n <= |mem|
    ensures View(mem, slot, n)[..m] == mem[slot..slot + m]
  {}

  lemma SizedBy(x: Parts, h: Header, ts: seq<Tlv>)
    requires Encodes(x, h, ts)
    ensures x.Start() == h.hdrSize && |x.firmware| == h.imgSize && |x.Hashed()| < |x.Image()|
  {
    hide Encodable, EncodeHeader, ProtectedArea, Announces, EncodableTlvs, EncodeTlvs;
  }

  /** The slot holds the image of the parts `x`, and `c` says what it is. */
  ghost predicate InSlot(mem: seq<byte>, l: Layout, slot: nat, t: Trust, c: ValidImage, x: Parts, ts: seq<Tlv>)
    requires l.sectorSize <= l.slotSize
  {
    IsImage(View(mem, slot, Max(HEADER_LEN, MaxLen(l))), MaxLen(l), t, c, x, ts)
  }

  lemma InSlotReads(mem: seq<byte>, l: Layout, slot: nat, t: Trust, c: ValidImage, x: Parts, ts: seq<Tlv>)
    requires l.sectorSize <= l.slotSize && slot + l.slotSize <= |mem| && InSlot(mem, l, slot, t, c, x, ts)
    requires HEADER_LEN <= l.slotSize
    ensures Verdict(mem, l, slot, t) == Ok(c) && c.end == |x.Image()| <= MaxLen(l)
    ensures mem[slot..slot + c.end] == x.Image() && x.Start() == c.header.hdrSize
  {
    hide Encodes, Endorses, Validate, Parts.Image, Parts.Hashed;
    var n := Max(HEADER_LEN, MaxLen(l));
    SizedBy(x, c.header, ts);
    ViewBegins(mem, slot, n, c.end);
    ImageIsValid(View(mem, slot, n), MaxLen(l), t, c, x, ts);
  }

  /** Power-fail safety up to the code that runs: when the candidate is the image of `x` and no loss tears its header,
      the first uninterrupted boot answers with the address of its firmware in the primary. */
  lemma UpgradeRunsFirmware(mem: seq<byte>, ns: seq<nat>, l: Layout, t: Trust, c: ValidImage, x: Parts, ts: seq<Tlv>)
    requires Fits(l, |mem|) && Requested(mem, l) && NeverTears(mem, ns, l, t)
    requires InSlot(mem, l, l.secondary, t, c, x, ts) && !IsDowngrade(mem, l, c)
    ensures var o := BootRun(AfterBoots(mem, ns, l, t), Stable, l, t);
            o.result.Ok? && StartsAt(o.mem, l.primary, x, o.result.value.vectorTable)
  {
    hide InSlot, IsDowngrade, Requested, NeverTears, BootRun, AfterBoots, Aligned, Verdict, Parts.Image, Recovered,
         StartsAt;
    InSlotReads(mem, l, l.secondary, t, c, x, ts);
    PowerFailSafety(mem, ns, l, t);
    var o := BootRun(AfterBoots(mem, ns, l, t), Stable, l, t);
    RecoveredStarts(mem, o, l, t, c, x);
    BootAnswers(AfterBoots(mem, ns, l, t), l, t);
  }

  /** From any flash, with any supply: a boot that succeeds finds in the primary an image of some parts, accepted for
      the key, and answers with the address of its firmware. */
  lemma BootsFirmware(mem: seq<byte>, supply: Supply, l: Layout, t: Trust) returns (x: Parts, ts: seq<Tlv>)
    requires Fits(l, |mem|) && BootRun(mem, supply, l, t).result.Ok?
    ensures var o := BootRun(mem, supply, l, t);
            && InSlot(o.mem, l, l.primary, t, o.result.value.image, x, ts)
            && StartsAt(o.mem, l.primary, x, o.result.value.vectorTable)
  {
    hide Validate, RequestRun, IsImage, Aligned, Parts.Image, StartsAt;
    var o := BootRun(mem, supply, l, t);
    var n := Max(HEADER_LEN, MaxLen(l));
    x, ts := ValidIsImage(View(o.mem, l.primary, n), MaxLen(l), t, o.result.value.image);
    InSlotReads(o.mem, l, l.primary, t, o.result.value.image, x, ts);
    FirmwareInside(o.mem, l.primary, x);
  }

  lemma RecoveredStarts(origin: seq<byte>, o: Outcome<Bootable>, l: Layout, t: Trust, c: ValidImage, x: Parts)
    requires Accepts(origin, l, t, c) && Recovered(origin, o, l, c)
    requires c.end == |x.Image()| && origin[l.secondary..l.secondary + c.end] == x.Image()
    ensures o.result.Ok? && o.result.value.image == c && StartsAt(o.mem, l.primary, x, l.primary + x.Start())
  {
    hide Aligned, Verdict, CopyLen, EraseLen, Requested, Firmware, Parts.Image, StartsAt;
    CandidateLengths(origin, l, t, c);
    InnerSlice(o.mem, l.primary, CopyLen(l, c.end), 0, c.end);
    InnerSlice(origin, l.secondary, CopyLen(l, c.end), 0, c.end);
    FirmwareInside(o.mem, l.primary, x);
  }

  lemma BootAnswers(mem: seq<byte>, l: Layout, t: Trust)
    requires Fits(l, |mem|) && BootRun(mem, Stable, l, t).result.Ok?
    ensures var b := BootRun(mem, Stable, l, t).result.value; b.vectorTable == l.primary + b.image.header.hdrSize
  {
    hide RequestRun, Verdict;
  }
}
