/**
 The code of mcuboot-image/src/boot.rs: erases, writes and a copy loop on a flash device, proved to
 do what `BootLoader.BootRun` says, for every supply, as long as no read fails; a failed read ends the boot
 with an error, and with the flash that some power loss would have left.
 */
module BootProgram {
  import opened Wrappers
  import opened Bytes
  import opened Arithmetic
  import opened NorFlashModel
  import opened BootImage
  import opened ImageScan
  import opened BootLoader
  import opened BootCut

  predicate Drives(l: Layout, flash: NorFlash) {
    Fits(l, flash.data.Length) && flash.writeSize == l.writeSize && flash.sectorSize == l.sectorSize
  }

  /** `erase_sector`, and the erase of `install`. */
  method EraseRange(flash: NorFlash, l: Layout, from: nat, to: nat) returns (r: Result<(), BootError>)
    requires Drives(l, flash) && from < to <= flash.data.Length
    requires Aligned(from, l.sectorSize) && Aligned(to, l.sectorSize)
    modifies flash.data, flash`supply
    ensures Outcome(flash.data[..], flash.supply, r) == EraseRun(old(flash.data[..]), old(flash.supply), from, to)
  {
    var ok := flash.Erase(from, to);
    return if ok then Ok(()) else Err(FlashFailed);
  }

  method IsBlank(bytes: seq<byte>) returns (blank: bool)
    ensures blank <==> Blank(bytes)
  {
    for i := 0 to |bytes|
      invariant forall j :: 0 <= j < i ==> bytes[j] == ERASED
    {
      if bytes[i] != ERASED {
        return false;
      }
    }
    return true;
  }

  method WriteAt(flash: NorFlash, l: Layout, at: nat, bytes: seq<byte>) returns (ok: bool)
    requires flash.writeSize == l.writeSize > 0 && at + |bytes| <= flash.data.Length
    requires Aligned(at, l.writeSize) && Aligned(|bytes|, l.writeSize)
    modifies flash.data, flash`supply
    ensures Outcome(flash.data[..], flash.supply, if ok then Ok(()) else Err(FlashFailed))
            == WriteRun(old(flash.data[..]), old(flash.supply), at, bytes)
  {
    ok := flash.Write(at, bytes);
  }

  /** One round of the copy loop: read a chunk and write it unless it is blank. */
  method CopyChunk(flash: NorFlash, l: Layout, offset: nat, chunk: nat) returns (ok: bool)
    requires Drives(l, flash) && offset + chunk <= l.slotSize
    requires Aligned(l.primary + offset, l.writeSize) && Aligned(chunk, l.writeSize)
    modifies flash.data, flash`supply, flash`spans
    ensures old(flash.spans) <= flash.spans
    ensures Faulted(flash, |old(flash.spans)|) ==>
              !ok && flash.data[..] == old(flash.data[..]) && flash.supply == old(flash.supply)
    ensures !Faulted(flash, |old(flash.spans)|) ==>
              var data := old(flash.data[..])[l.secondary + offset..l.secondary + offset + chunk];
              Outcome(flash.data[..], flash.supply, if ok then Ok(()) else Err(FlashFailed)) ==
                if Blank(data) then Outcome(old(flash.data[..]), old(flash.supply), Ok(()))
                else WriteRun(old(flash.data[..]), old(flash.supply), l.primary + offset, data)
  {
    hide Aligned, WriteRun, Blank;
    var data := flash.Read(l.secondary + offset, chunk);
    if data.None? {
      return false;
    }
    assert data.value == flash.data[..][l.secondary + offset..l.secondary + offset + chunk];
    var blank := IsBlank(data.value);
    ok := true;
    if !blank {
      ok := WriteAt(flash, l, l.primary + offset, data.value);
    }
  }

  lemma NextOffset(l: Layout, total: nat, offset: nat)
    requires offset < total && Aligned(total, l.writeSize) && Aligned(offset, l.writeSize)
    requires Aligned(l.primary, l.writeSize) && Aligned(COPY_CHUNK, l.writeSize)
    ensures Aligned(l.primary + offset, l.writeSize) && Aligned(Chunk(total, offset), l.writeSize)
    ensures Aligned(offset + Chunk(total, offset), l.writeSize)
  {
    AlignedAdd(l.primary, offset, l.writeSize);
    AlignedAdd(total, offset, l.writeSize);
    AlignedAdd(offset, Chunk(total, offset), l.writeSize);
  }

  /** The flash after one chunk, and where the copy then stands. */
  lemma ChunkCopied(was: seq<byte>, before: seq<byte>, after: seq<byte>, supply: Supply, l: Layout, total: nat,
                    offset: nat,
                    cut: nat, ok: bool) returns (cut': nat)
    requires Fits(l, |was|) && |was| == |before| == |after| && offset < total <= l.slotSize
    requires CopyStands(was, before, l, total, offset, cut)
    requires var data := ChunkAt(before, l, total, offset);
             if Blank(data) then ok && after == before
             else
               var w := WriteRun(before, supply, l.primary + offset, data);
               after == w.mem && ok == w.result.Ok?
    ensures ok ==> CopyStands(was, after, l, total, offset + Chunk(total, offset), cut')
    ensures !ok ==> Stopped(CopyRun(was, Fails(cut'), l, total, 0), after)
  {
    hide Aligned, Blank, CopyStands, CopyRun, Programmed;
    var data := ChunkAt(before, l, total, offset);
    CopyStandsNext(was, before, l, total, offset, cut);
    assert data[..|data|] == data;
    if Blank(data) {
      cut' := cut;
    } else if ok {
      cut' := cut + |data|;
    } else {
      var d := Done(supply, |data|);
      CopyTears(was, before, l, total, offset, cut, d);
      cut' := cut + d;
    }
  }

  /** The copy loop. */
  method Copy(flash: NorFlash, l: Layout, total: nat) returns (r: Result<(), BootError>, ghost cut: nat)
    requires Drives(l, flash) && total <= l.slotSize && Aligned(total, l.writeSize)
    modifies flash.data, flash`supply, flash`spans
    ensures old(flash.spans) <= flash.spans
    ensures Faulted(flash, |old(flash.spans)|) ==> r == Err(FlashFailed)
    ensures !Faulted(flash, |old(flash.spans)|) ==>
              Outcome(flash.data[..], flash.supply, r) == CopyRun(old(flash.data[..]), old(flash.supply), l, total, 0)
    ensures Stopped(CopyRun(old(flash.data[..]), Fails(cut), l, total, 0), flash.data[..])
    ensures r.Ok? ==> CopyStands(old(flash.data[..]), flash.data[..], l, total, total, cut)
  {
    hide Blank, WriteRun, Aligned, CopyStands, Stopped;
    ghost var was := flash.data[..];
    AlignedTrans(l.primary, l.sectorSize, l.writeSize);
    var offset := 0;
    AlignedZero(l.writeSize);
    cut := 0;
    CopyStandsFirst(was, l, total);
    while offset < total
      invariant offset <= total && Aligned(offset, l.writeSize)
      invariant old(flash.spans) <= flash.spans && !Faulted(flash, |old(flash.spans)|)
      invariant CopyRun(flash.data[..], flash.supply, l, total, offset) == CopyRun(was, old(flash.supply), l, total, 0)
      invariant CopyStands(was, flash.data[..], l, total, offset, cut)
      decreases total - offset
    {
      hide CopyRun;
      NextOffset(l, total, offset);
      var chunk := if COPY_CHUNK <= total - offset then COPY_CHUNK else total - offset;
      ghost var before, supply, spans := flash.data[..], flash.supply, flash.spans;
      var ok := CopyChunk(flash, l, offset, chunk);
      if Faulted(flash, |spans|) {
        StopsAt(was, before, l, total, offset, cut);
      } else {
        ChunkUnfolds(before, flash.data[..], supply, flash.supply, l, total, offset, ok);
        cut := ChunkCopied(was, before, flash.data[..], supply, l, total, offset, cut, ok);
      }
      if !ok {
        return Err(FlashFailed), cut;
      }
      offset := offset + chunk;
    }
    StopsAt(was, flash.data[..], l, total, total, cut);
    return Ok(()), cut;
  }

  lemma StopsAt(was: seq<byte>, now: seq<byte>, l: Layout, total: nat, offset: nat, cut: nat)
    requires Fits(l, |was|) && |was| == |now| && offset <= total <= l.slotSize
    requires CopyStands(was, now, l, total, offset, cut)
    ensures Stopped(CopyRun(was, Fails(cut), l, total, 0), now)
  {
    CopyStops(was, now, l, total, offset, cut);
  }

  /** One chunk of the recursive copy. */
  lemma ChunkUnfolds(before: seq<byte>, after: seq<byte>, supply: Supply, supply': Supply, l: Layout, total: nat,
                     offset: nat, ok: bool)
    requires Fits(l, |before|) && |before| == |after| && offset < total <= l.slotSize
    requires var data := ChunkAt(before, l, total, offset);
             Outcome(after, supply', if ok then Ok(()) else Err(FlashFailed)) ==
               if Blank(data) then Outcome(before, supply, Ok(()))
               else WriteRun(before, supply, l.primary + offset, data)
    ensures CopyRun(before, supply, l, total, offset) ==
              if ok then CopyRun(after, supply', l, total, offset + Chunk(total, offset))
              else Outcome(after, supply', Err(FlashFailed))
  {
    hide Blank, WriteRun, Aligned;
  }

  lemma AlignedZero(unit: nat)
    requires unit > 0
    ensures Aligned(0, unit)
  {}

  method Install(flash: NorFlash, l: Layout, t: Trust, image: ValidImage)
    returns (r: Result<(), BootError>, ghost cut: nat)
    requires Drives(l, flash) && 0 < image.end <= MaxLen(l)
    modifies flash.data, flash`supply, flash`spans
    ensures old(flash.spans) <= flash.spans
    ensures Faulted(flash, |old(flash.spans)|) ==> r == Err(FlashFailed)
    ensures !Faulted(flash, |old(flash.spans)|) ==>
              Outcome(flash.data[..], flash.supply, r)
              == InstallRun(old(flash.data[..]), old(flash.supply), l, t, image)
    ensures Stopped(InstallRun(old(flash.data[..]), Fails(cut), l, t, image), flash.data[..])
    ensures r.Ok? ==> InstalledBy(old(flash.data[..]), flash.data[..], l, t, image, cut)
  {
    hide Validate, CopyRun, Aligned, RoundUp, CopyStands, InstalledBy;
    ghost var was, supply := flash.data[..], flash.supply;
    LengthsFit(l, flash.data.Length, image.end);
    var total := RoundUp(image.end, l.writeSize);
    var eraseEnd := l.primary + RoundUp(total, l.sectorSize);
    AlignedAdd(l.primary, RoundUp(total, l.sectorSize), l.sectorSize);
    r := EraseRange(flash, l, l.primary, eraseEnd);
    if r.Err? {
      cut := Done(supply, eraseEnd - l.primary);
      return;
    }
    r, cut := Copy(flash, l, total);
    InstallCut(was, flash.data[..], l, t, image, cut);
    ghost var copied := cut;
    cut := EraseLen(l, image.end) + cut;
    if r.Err? {
      return;
    }
    var copy := ValidateSlot(flash, l.primary, MaxLen(l), t);
    if copy == Err(Flash) {
      return Err(FlashFailed), cut;
    }
    if copy.Err? || copy.value.digest != image.digest {
      return Err(CopyCorrupt), cut;
    }
    InstallDone(was, flash.data[..], l, t, image, copied);
  }

  method Drop(flash: NorFlash, l: Layout, update: Update) returns (r: Result<Update, BootError>)
    requires Drives(l, flash)
    modifies flash.data, flash`supply
    ensures Outcome(flash.data[..], flash.supply, r) == DropRun(old(flash.data[..]), old(flash.supply), l, update)
  {
    LengthsFit(l, flash.data.Length, 0);
    AlignedAdd(TrailerSector(l), l.sectorSize, l.sectorSize);
    var e := EraseRange(flash, l, TrailerSector(l), TrailerSector(l) + l.sectorSize);
    if e.Err? {
      return Err(FlashFailed);
    }
    AlignedAdd(l.secondary, l.sectorSize, l.sectorSize);
    e := EraseRange(flash, l, l.secondary, l.secondary + l.sectorSize);
    if e.Err? {
      return Err(FlashFailed);
    }
    return Ok(update);
  }

  /** The first half of `process_request`: nothing is changed, and either the request is settled, with what
      to drop it as, or its candidate is to be installed. */
  method Decide(flash: NorFlash, l: Layout, t: Trust)
    returns (failed: bool, drop: Option<Update>, candidate: Option<ValidImage>)
    requires Drives(l, flash)
    modifies flash`spans
    ensures old(flash.spans) <= flash.spans && (failed <==> Faulted(flash, |old(flash.spans)|))
    ensures !failed ==>
              var mem := flash.data[..];
              if !Requested(mem, l) then drop == None && candidate == None
              else
                match Verdict(mem, l, l.secondary, t)
                case Err(e) => drop == Some(Rejected(e)) && candidate == None
                case Ok(c) =>
                  if IsDowngrade(mem, l, c) then drop == Some(Downgrade) && candidate == None
                  else drop == None && candidate == Some(c)
  {
    hide Validate, ParseHeader, Classify;
    ghost var mem := flash.data[..];
    failed, drop, candidate := false, None, None;
    var end := l.secondary + l.slotSize;
    var magic := flash.Read(end - BOOT_MAGIC_LEN, BOOT_MAGIC_LEN);
    if magic.None? {
      return true, None, None;
    }
    assert magic.value == mem[end - BOOT_MAGIC_LEN..end];
    if Classify(magic.value) != Good {
      return;
    }
    var v := ValidateSlot(flash, l.secondary, MaxLen(l), t);
    if v == Err(Flash) {
      return true, None, None;
    }
    if v.Err? {
      drop := Some(Rejected(v.error));
      return;
    }
    var bytes := flash.Read(l.primary, HEADER_LEN);
    if bytes.None? {
      return true, None, None;
    }
    assert bytes.value == mem[l.primary..l.primary + HEADER_LEN];
    var p := ParseHeader(bytes.value);
    if p.Some? && ReleaseBelow(v.value.header.version, p.value.version) {
      drop := Some(Downgrade);
    } else {
      candidate := Some(v.value);
    }
  }

  method ProcessRequest(flash: NorFlash, l: Layout, t: Trust) returns (r: Result<Update, BootError>, ghost cut: nat)
    requires Drives(l, flash)
    modifies flash.data, flash`supply, flash`spans
    ensures old(flash.spans) <= flash.spans
    ensures Faulted(flash, |old(flash.spans)|) ==> r == Err(FlashFailed)
    ensures !Faulted(flash, |old(flash.spans)|) ==>
              Outcome(flash.data[..], flash.supply, r) == RequestRun(old(flash.data[..]), old(flash.supply), l, t)
    ensures Stopped(RequestRun(old(flash.data[..]), Fails(cut), l, t), flash.data[..])
    ensures r.Ok? ==> RequestRun(old(flash.data[..]), Fails(cut), l, t).result == r
  {
    hide Verdict, InstallRun, DropRun, Requested, IsDowngrade, Aligned, InstalledBy;
    ghost var mem, supply := flash.data[..], flash.supply;
    RequestIdle(mem, l, t);
    var failed, drop, candidate := Decide(flash, l, t);
    if failed {
      return Err(FlashFailed), 0;
    }
    if candidate.Some? {
      VerdictEnds(mem, l, l.secondary, t);
      var installed;
      installed, cut := Install(flash, l, t, candidate.value);
      RequestCut(mem, flash.data[..], l, t, candidate.value, cut);
      if installed.Err? {
        return Err(installed.error), cut;
      }
      RequestInstalled(mem, flash.data[..], flash.supply, l, t, candidate.value, cut);
      cut := cut + DropWork(l, flash.supply);
      r := Drop(flash, l, Installed);
    } else if drop.Some? {
      DropCut(mem, supply, l, drop.value);
      cut := DropWork(l, supply);
      r := Drop(flash, l, drop.value);
    } else {
      return Ok(NoRequest), 0;
    }
  }

  /** `boot`: as `BootRun` says; and when a read fails, an error, with the flash as a power loss after `cut`
      bytes of work would have left it. */
  method Boot(flash: NorFlash, l: Layout, t: Trust) returns (r: Result<Bootable, BootError>, ghost cut: nat)
    requires Drives(l, flash)
    modifies flash.data, flash`supply, flash`spans
    ensures !Faulted(flash, |old(flash.spans)|) ==>
              Outcome(flash.data[..], flash.supply, r) == BootRun(old(flash.data[..]), old(flash.supply), l, t)
    ensures Faulted(flash, |old(flash.spans)|) ==>
              r == Err(FlashFailed) && flash.data[..] == BootRun(old(flash.data[..]), Fails(cut), l, t).mem
  {
    hide Validate, RequestRun;
    var update;
    update, cut := ProcessRequest(flash, l, t);
    if update.Err? {
      return Err(update.error), cut;
    }
    var v := ValidateSlot(flash, l.primary, MaxLen(l), t);
    if v == Err(Flash) {
      return Err(FlashFailed), cut;
    }
    if v.Err? {
      return Err(NoBootableImage(v.error, update.value)), cut;
    }
    return Ok(Bootable(v.value, l.primary + v.value.header.hdrSize, update.value)), cut;
  }
}
