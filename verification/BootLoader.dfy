/**
 The overwrite-only boot decision of mcuboot-image/src/boot.rs as a function of the flash contents
 and of the power supply: what one boot leaves behind, whether or not the power lasts.
 */
module BootLoader {
  import opened Wrappers
  import opened Bytes
  import opened Arithmetic
  import opened NorFlashModel
  import opened BootImage
  import opened ImageScan

  const COPY_CHUNK: nat := 256

  datatype Layout = Layout(primary: nat, secondary: nat, slotSize: nat, sectorSize: nat, writeSize: nat)

  /** Two disjoint, sector-aligned slots inside the device, each with room for an image and a trailer
      sector; a sector holds the header and the request magic; the write unit divides what is written. */
  predicate Fits(l: Layout, capacity: nat) {
    && capacity <= U32_MAX
    && l.writeSize > 0 && HEADER_LEN <= l.sectorSize && 2 * l.sectorSize <= l.slotSize
    && Aligned(l.primary, l.sectorSize) && Aligned(l.secondary, l.sectorSize) && Aligned(l.slotSize, l.sectorSize)
    && Aligned(l.sectorSize, l.writeSize) && Aligned(COPY_CHUNK, l.writeSize)
    && l.primary + l.slotSize <= capacity && l.secondary + l.slotSize <= capacity
    && (l.primary + l.slotSize <= l.secondary || l.secondary + l.slotSize <= l.primary)
  }

  /** `max_image_len`: the last sector is reserved for the trailer. */
  function MaxLen(l: Layout): nat
    requires l.sectorSize <= l.slotSize
  {
    l.slotSize - l.sectorSize
  }

  /** `trailer_sector(secondary)`. */
  function TrailerSector(l: Layout): nat
    requires l.sectorSize <= l.slotSize
  {
    l.secondary + l.slotSize - l.sectorSize
  }

  /** The bytes an image that ends at `end` makes the loader copy, and erase. */
  function CopyLen(l: Layout, end: nat): nat
    requires l.writeSize > 0
  {
    RoundUp(end, l.writeSize)
  }

  function EraseLen(l: Layout, end: nat): nat
    requires l.writeSize > 0 && l.sectorSize > 0
  {
    RoundUp(CopyLen(l, end), l.sectorSize)
  }

  lemma LengthsFit(l: Layout, capacity: nat, end: nat)
    requires Fits(l, capacity) && end <= MaxLen(l)
    ensures end <= CopyLen(l, end) <= EraseLen(l, end) <= MaxLen(l)
    ensures Aligned(CopyLen(l, end), l.writeSize) && Aligned(EraseLen(l, end), l.sectorSize)
    ensures Aligned(MaxLen(l), l.sectorSize) && Aligned(TrailerSector(l), l.sectorSize)
  {
    AlignedAdd(l.slotSize, l.sectorSize, l.sectorSize);
    AlignedAdd(l.secondary, MaxLen(l), l.sectorSize);
    AlignedTrans(MaxLen(l), l.sectorSize, l.writeSize);
    RoundUpFits(end, l.writeSize, MaxLen(l));
    RoundUpFits(CopyLen(l, end), l.sectorSize, MaxLen(l));
  }

  datatype Update = NoRequest | Installed | Rejected(error: ImageError) | Downgrade

  datatype BootError = FlashFailed | CopyCorrupt | NoBootableImage(primary: ImageError, update: Update)

  datatype Bootable = Bootable(image: ValidImage, vectorTable: nat, update: Update)

  // ----- What the loader reads

  /** `validate` on a slot. */
  ghost function Verdict(mem: seq<byte>, l: Layout, slot: nat, t: Trust): Result<ValidImage, ImageError>
    requires l.sectorSize <= l.slotSize
  {
    Validate(View(mem, slot, Max(HEADER_LEN, MaxLen(l))), MaxLen(l), t)
  }

  /** The upgrade request: `read_magic` on the secondary slot. */
  predicate Requested(mem: seq<byte>, l: Layout)
    requires Fits(l, |mem|)
  {
    var end := l.secondary + l.slotSize;
    Classify(mem[end - BOOT_MAGIC_LEN..end]) == Good
  }

  function PrimaryHeader(mem: seq<byte>, l: Layout): Option<Header>
    requires Fits(l, |mem|)
  {
    ParseHeader(mem[l.primary..l.primary + HEADER_LEN])
  }

  predicate IsDowngrade(mem: seq<byte>, l: Layout, candidate: ValidImage)
    requires Fits(l, |mem|)
  {
    var p := PrimaryHeader(mem, l);
    p.Some? && ReleaseBelow(candidate.header.version, p.value.version)
  }

  // ----- What the loader does

  /** The flash and the supply after a piece of work, and how it ended. */
  datatype Outcome<T> = Outcome(mem: seq<byte>, supply: Supply, result: Result<T, BootError>)

  function EraseRun(mem: seq<byte>, supply: Supply, from: nat, to: nat): (r: Outcome<()>)
    requires from <= to <= |mem|
    ensures |r.mem| == |mem|
  {
    var done := Done(supply, to - from);
    Outcome(Erased(mem, from, from + done), Spend(supply, to - from),
            if done == to - from then Ok(()) else Err(FlashFailed))
  }

  function WriteRun(mem: seq<byte>, supply: Supply, at: nat, bytes: seq<byte>): (r: Outcome<()>)
    requires at + |bytes| <= |mem|
    ensures |r.mem| == |mem|
  {
    var done := Done(supply, |bytes|);
    Outcome(Programmed(mem, at, bytes[..done]), Spend(supply, |bytes|),
            if done == |bytes| then Ok(()) else Err(FlashFailed))
  }

  predicate Blank(bytes: seq<byte>) {
    forall i :: 0 <= i < |bytes| ==> bytes[i] == ERASED
  }

  function Chunk(total: nat, offset: nat): nat
    requires offset < total
  {
    if COPY_CHUNK <= total - offset then COPY_CHUNK else total - offset
  }

  /** The copy loop of `install` from `offset` on. */
  function CopyRun(mem: seq<byte>, supply: Supply, l: Layout, total: nat, offset: nat): (r: Outcome<()>)
    requires Fits(l, |mem|) && offset <= total <= l.slotSize
    ensures |r.mem| == |mem|
    decreases total - offset
  {
    if offset == total then Outcome(mem, supply, Ok(()))
    else
      var chunk := Chunk(total, offset);
      var data := mem[l.secondary + offset..l.secondary + offset + chunk];
      if Blank(data) then CopyRun(mem, supply, l, total, offset + chunk)
      else
        var w := WriteRun(mem, supply, l.primary + offset, data);
        if w.result.Err? then w else CopyRun(w.mem, w.supply, l, total, offset + chunk)
  }

  ghost function InstallRun(mem: seq<byte>, supply: Supply, l: Layout, t: Trust, image: ValidImage): (r: Outcome<()>)
    requires Fits(l, |mem|) && image.end <= MaxLen(l)
    ensures |r.mem| == |mem|
  {
    LengthsFit(l, |mem|, image.end);
    var e := EraseRun(mem, supply, l.primary, l.primary + EraseLen(l, image.end));
    if e.result.Err? then e
    else
      var c := CopyRun(e.mem, e.supply, l, CopyLen(l, image.end), 0);
      if c.result.Err? then c
      else
        var v := Verdict(c.mem, l, l.primary, t);
        if v.Ok? && v.value.digest == image.digest then c else c.(result := Err(CopyCorrupt))
  }

  /** Drop the request: erase the trailer sector, then the header sector, of the secondary slot. */
  function DropRun(mem: seq<byte>, supply: Supply, l: Layout, update: Update): (r: Outcome<Update>)
    requires Fits(l, |mem|)
    ensures |r.mem| == |mem|
  {
    var e := EraseRun(mem, supply, TrailerSector(l), TrailerSector(l) + l.sectorSize);
    if e.result.Err? then Outcome(e.mem, e.supply, Err(FlashFailed))
    else
      var h := EraseRun(e.mem, e.supply, l.secondary, l.secondary + l.sectorSize);
      Outcome(h.mem, h.supply, if h.result.Err? then Err(FlashFailed) else Ok(update))
  }

  lemma VerdictEnds(mem: seq<byte>, l: Layout, slot: nat, t: Trust)
    requires l.sectorSize <= l.slotSize && Verdict(mem, l, slot, t).Ok?
    ensures HEADER_LEN + 4 <= Verdict(mem, l, slot, t).value.end <= MaxLen(l)
  {
    var img := View(mem, slot, Max(HEADER_LEN, MaxLen(l)));
    JudgeKeepsFrame(Frame(img, MaxLen(l)).value, img, t);
  }

  /** `process_request`. */
  ghost function RequestRun(mem: seq<byte>, supply: Supply, l: Layout, t: Trust): (r: Outcome<Update>)
    requires Fits(l, |mem|)
    ensures |r.mem| == |mem|
  {
    if !Requested(mem, l) then Outcome(mem, supply, Ok(NoRequest))
    else
      match Verdict(mem, l, l.secondary, t)
      case Err(e) => DropRun(mem, supply, l, Rejected(e))
      case Ok(candidate) =>
        if IsDowngrade(mem, l, candidate) then DropRun(mem, supply, l, Downgrade)
        else
          VerdictEnds(mem, l, l.secondary, t);
          var i := InstallRun(mem, supply, l, t, candidate);
          if i.result.Err? then Outcome(i.mem, i.supply, Err(i.result.error))
          else DropRun(i.mem, i.supply, l, Installed)
  }

  ghost function BootRun(mem: seq<byte>, supply: Supply, l: Layout, t: Trust): (r: Outcome<Bootable>)
    requires Fits(l, |mem|)
    ensures |r.mem| == |mem|
  {
    var q := RequestRun(mem, supply, l, t);
    match q.result
    case Err(e) => Outcome(q.mem, q.supply, Err(e))
    case Ok(update) =>
      match Verdict(q.mem, l, l.primary, t)
      case Err(e) => Outcome(q.mem, q.supply, Err(NoBootableImage(e, update)))
      case Ok(image) => Outcome(q.mem, q.supply, Ok(Bootable(image, l.primary + image.header.hdrSize, update)))
  }
}
