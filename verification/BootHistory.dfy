/**
 Properties of the boot loader over every history of boots, power losses and staged updates
 (mcuboot-image/src/boot.rs:98-205): what a boot may touch, and that releases never go down.
 */
module BootHistory {
  import opened Wrappers
  import opened Bytes
  import opened Arithmetic
  import opened NorFlashModel
  import opened BootImage
  import opened BootLoader
  import opened BootSteps

  // ----- What a boot touches

  /** A boot, however it ends, changes nothing but primary sectors below the trailer boundary and the
      first and last sectors of the secondary slot. */
  lemma BootTouches(mem: seq<byte>, supply: Supply, l: Layout, t: Trust, i: nat)
    requires Fits(l, |mem|) && i < |mem|
    requires !(l.primary <= i < l.primary + MaxLen(l))
    requires !(l.secondary <= i < l.secondary + l.sectorSize)
    requires !(TrailerSector(l) <= i < TrailerSector(l) + l.sectorSize)
    ensures BootRun(mem, supply, l, t).mem[i] == mem[i]
  {
    hide EraseLen, CopyLen, Aligned, Verdict, InstallRun, DropRun, IsDowngrade, Requested, Partial;
    if Requested(mem, l) {
      var v := Verdict(mem, l, l.secondary, t);
      if v.Err? {
        DropTouches(mem, supply, l, Rejected(v.error), i);
      } else if IsDowngrade(mem, l, v.value) {
        DropTouches(mem, supply, l, Downgrade, i);
      } else {
        VerdictEnds(mem, l, l.secondary, t);
        InstallTouches(mem, supply, l, t, i);
        var r := InstallRun(mem, supply, l, t, v.value);
        if r.result.Ok? { DropTouches(r.mem, r.supply, l, Installed, i); }
      }
    }
  }

  lemma DropTouches(mem: seq<byte>, supply: Supply, l: Layout, update: Update, i: nat)
    requires Fits(l, |mem|) && i < |mem|
    requires !(l.secondary <= i < l.secondary + l.sectorSize)
    requires !(TrailerSector(l) <= i < TrailerSector(l) + l.sectorSize)
    ensures DropRun(mem, supply, l, update).mem[i] == mem[i]
  {
    hide Aligned;
  }

  lemma InstallTouches(mem: seq<byte>, supply: Supply, l: Layout, t: Trust, i: nat)
    requires Fits(l, |mem|) && i < |mem| && Verdict(mem, l, l.secondary, t).Ok?
    requires Verdict(mem, l, l.secondary, t).value.end <= MaxLen(l)
    requires !(l.primary <= i < l.primary + MaxLen(l))
    ensures InstallRun(mem, supply, l, t, Verdict(mem, l, l.secondary, t).value).mem[i] == mem[i]
    ensures InstallRun(mem, supply, l, t, Verdict(mem, l, l.secondary, t).value).result != Err(CopyCorrupt)
  {
    hide EraseLen, CopyLen, Aligned, Verdict, InstallRun, Partial;
    var erased, k := InstallProgress(mem, supply, l, t);
    PartialAt(mem, l, EraseLen(l, Verdict(mem, l, l.secondary, t).value.end), k);
  }

  /** On flash with NOR semantics the copy always validates: `CopyCorrupt` is never returned. */
  lemma CopyNeverCorrupt(mem: seq<byte>, supply: Supply, l: Layout, t: Trust)
    requires Fits(l, |mem|)
    ensures BootRun(mem, supply, l, t).result != Err(CopyCorrupt)
  {
    hide EraseLen, CopyLen, Aligned, Verdict, InstallRun, Dropped, IsDowngrade, Requested;
    if Requested(mem, l) && Verdict(mem, l, l.secondary, t).Ok? {
      VerdictEnds(mem, l, l.secondary, t);
      var erased, k := InstallProgress(mem, supply, l, t);
    }
  }

  /** No install is due: there is no request, or it is rejected, or it is a downgrade. */
  ghost predicate NothingToInstall(mem: seq<byte>, l: Layout, t: Trust)
    requires Fits(l, |mem|)
  {
    || !Requested(mem, l)
    || Verdict(mem, l, l.secondary, t).Err?
    || IsDowngrade(mem, l, Verdict(mem, l, l.secondary, t).value)
  }

  /** A request that is not installed never changes a byte outside the secondary slot, and loses the
      request before it loses the image. */
  lemma RefusalKeeps(mem: seq<byte>, supply: Supply, l: Layout, t: Trust)
    requires Fits(l, |mem|) && NothingToInstall(mem, l, t)
    ensures var o := BootRun(mem, supply, l, t);
            && (forall i :: 0 <= i < |mem| && !(l.secondary <= i < l.secondary + l.slotSize) ==> o.mem[i] == mem[i])
            && (Requested(o.mem, l) ==> Requested(mem, l) && Kept(mem, o.mem, l.secondary, l.secondary + MaxLen(l)))
            && (o.result.Ok? ==> !Requested(o.mem, l) && Verdict(o.mem, l, l.primary, t) == Ok(o.result.value.image))
  {
    hide Aligned, Verdict, InstallRun, DropRun, Dropped, IsDowngrade, Requested;
    if Requested(mem, l) {
      var v := Verdict(mem, l, l.secondary, t);
      var a, b := DropProgress(mem, supply, l, if v.Err? then Rejected(v.error) else Downgrade);
      DroppedKeeps(mem, l, a, b);
    }
  }

  /** An install, cut short, leaves the request and the candidate; otherwise the primary is the candidate. */
  lemma InstallKeeps(mem: seq<byte>, supply: Supply, l: Layout, t: Trust, c: ValidImage)
    requires Fits(l, |mem|) && !NothingToInstall(mem, l, t) && Verdict(mem, l, l.secondary, t) == Ok(c)
    ensures var o := BootRun(mem, supply, l, t);
            || (o.result.Err? && Requested(o.mem, l) && Verdict(o.mem, l, l.secondary, t) == Ok(c))
            || Verdict(o.mem, l, l.primary, t) == Ok(c)
    ensures BootRun(mem, supply, l, t).result.Ok? ==> BootRun(mem, supply, l, t).result.value.image == c
  {
    hide EraseLen, CopyLen, Aligned, Verdict, InstallRun, DropRun, IsDowngrade, Requested;
    VerdictEnds(mem, l, l.secondary, t);
    InstallLeaves(mem, supply, l, t, c);
    var i := InstallRun(mem, supply, l, t, c);
    if i.result.Ok? {
      DropLeaves(i.mem, i.supply, l, t, c);
    }
  }

  lemma InstallLeaves(mem: seq<byte>, supply: Supply, l: Layout, t: Trust, c: ValidImage)
    requires Fits(l, |mem|) && Requested(mem, l) && Verdict(mem, l, l.secondary, t) == Ok(c) && c.end <= MaxLen(l)
    ensures var i := InstallRun(mem, supply, l, t, c);
            && Requested(i.mem, l) && Verdict(i.mem, l, l.secondary, t) == Ok(c)
            && (i.result.Ok? ==> Verdict(i.mem, l, l.primary, t) == Ok(c))
  {
    hide EraseLen, CopyLen, Aligned, Verdict, InstallRun, Partial, Requested;
    VerdictEnds(mem, l, l.secondary, t);
    LengthsFit(l, |mem|, c.end);
    var i := InstallRun(mem, supply, l, t, c);
    var n := EraseLen(l, c.end);
    var erased, k := InstallProgress(mem, supply, l, t);
    PartialAt(mem, l, n, k);
    RequestKept(mem, i.mem, l);
    VerdictKept(mem, i.mem, l, l.secondary, t);
    if i.result.Ok? {
      PartialPrefix(mem, l, n, k, c.end);
      VerdictCopied(mem, l.secondary, i.mem, l.primary, l, t);
    }
  }

  lemma RequestKept(mem: seq<byte>, mem': seq<byte>, l: Layout)
    requires Fits(l, |mem|) && |mem'| == |mem| && Kept(mem, mem', l.secondary, l.secondary + l.slotSize)
    ensures Requested(mem', l) <==> Requested(mem, l)
  {
    hide Aligned, Classify;
    var end := l.secondary + l.slotSize;
    assert mem'[end - BOOT_MAGIC_LEN..end] == mem[end - BOOT_MAGIC_LEN..end];
  }

  lemma DropLeaves(mem: seq<byte>, supply: Supply, l: Layout, t: Trust, c: ValidImage)
    requires Fits(l, |mem|) && Verdict(mem, l, l.primary, t) == Ok(c)
    ensures Verdict(DropRun(mem, supply, l, Installed).mem, l, l.primary, t) == Ok(c)
  {
    hide Aligned, Verdict, DropRun, Dropped;
    var a, b := DropProgress(mem, supply, l, Installed);
    DroppedKeeps(mem, l, a, b);
    VerdictKept(mem, Dropped(mem, l, a, b), l, l.primary, t);
  }

  // ----- Histories

  /** The device over time: its flash, the release number in the header that booted last, and whether that firmware
      runs. */
  datatype World = World(mem: seq<byte>, booted: Option<nat>, running: bool)

  /** The release number in the primary's header. */
  function PrimaryRelease(mem: seq<byte>, l: Layout): nat
    requires Fits(l, |mem|)
  {
    ReleaseAt(mem[l.primary..l.primary + HEADER_LEN])
  }

  /** A boot under some supply, or a rewrite of the secondary slot by the running firmware. */
  datatype Event = Boot(supply: Supply) | Stage(slot: seq<byte>)

  predicate CanHappen(w: World, e: Event, l: Layout) {
    e.Stage? ==> w.running && |e.slot| == l.slotSize
  }

  ghost function Next(w: World, e: Event, l: Layout, t: Trust): (w': World)
    requires Fits(l, |w.mem|) && CanHappen(w, e, l)
    ensures |w'.mem| == |w.mem|
  {
    match e
    case Stage(slot) => w.(mem := w.mem[..l.secondary] + slot + w.mem[l.secondary + l.slotSize..])
    case Boot(supply) =>
      var o := BootRun(w.mem, supply, l, t);
      if o.result.Ok? then World(o.mem, Some(PrimaryRelease(o.mem, l)), true)
      else World(o.mem, w.booted, false)
  }

  /** Histories in which every event can happen, from `w` to `w'`. */
  ghost predicate History(w: World, events: seq<Event>, w': World, l: Layout, t: Trust)
    requires Fits(l, |w.mem|)
    decreases |events|
  {
    if events == [] then w' == w
    else CanHappen(w, events[0], l) && History(Next(w, events[0], l, t), events[1..], w', l, t)
  }

  predicate NotBelow(image: ValidImage, release: nat) {
    ReleaseNumber(image.header.version) >= release
  }

  /** A valid image has a release in range, and it is what its header says. */
  lemma VerdictRelease(mem: seq<byte>, l: Layout, slot: nat, t: Trust)
    requires Fits(l, |mem|) && slot + l.slotSize <= |mem| && Verdict(mem, l, slot, t).Ok?
    ensures var v := Verdict(mem, l, slot, t).value.header.version;
            InRange(v) && ReleaseNumber(v) == ReleaseAt(mem[slot..slot + HEADER_LEN])
  {
    hide Aligned, Verdict, ParseHeader, ReleaseAt, ReleaseNumber;
    VerdictHeader(mem, l, slot, t);
    ParsedRelease(mem[slot..slot + HEADER_LEN]);
  }

  /** The downgrade rule on a valid primary compares the two numbers. */
  lemma DowngradeIsNumber(mem: seq<byte>, l: Layout, t: Trust, c: ValidImage)
    requires Fits(l, |mem|) && Verdict(mem, l, l.secondary, t) == Ok(c) && Verdict(mem, l, l.primary, t).Ok?
    ensures IsDowngrade(mem, l, c) <==>
              ReleaseNumber(c.header.version) < ReleaseNumber(Verdict(mem, l, l.primary, t).value.header.version)
  {
    hide Aligned, Verdict, ParseHeader, ReleaseNumber, ReleaseBelow, InRange, ReleaseAt;
    VerdictHeader(mem, l, l.primary, t);
    VerdictRelease(mem, l, l.primary, t);
    VerdictRelease(mem, l, l.secondary, t);
    BelowIsNumber(c.header.version, Verdict(mem, l, l.primary, t).value.header.version);
  }

  /** The invariant: what can boot next is not below `release`. Either the primary is valid and not below it;
      or an install is under way and its candidate is not; or nothing can boot any more. */
  ghost predicate Holding(mem: seq<byte>, running: bool, release: nat, l: Layout, t: Trust)
    requires Fits(l, |mem|)
  {
    var p, s := Verdict(mem, l, l.primary, t), Verdict(mem, l, l.secondary, t);
    || (p.Ok? && NotBelow(p.value, release))
    || (!running && Requested(mem, l) && s.Ok? && NotBelow(s.value, release))
    || (!running && !Requested(mem, l) && p.Err?)
  }

  lemma StageKeeps(mem: seq<byte>, slot: seq<byte>, v: nat, l: Layout, t: Trust)
    requires Fits(l, |mem|) && |slot| == l.slotSize && Holding(mem, true, v, l, t)
    ensures Holding(mem[..l.secondary] + slot + mem[l.secondary + l.slotSize..], true, v, l, t)
  {
    hide Aligned, Verdict, Requested;
    var mem' := mem[..l.secondary] + slot + mem[l.secondary + l.slotSize..];
    VerdictKept(mem, mem', l, l.primary, t);
  }

  /** A refused candidate below a valid primary, or above an invalid one, is no threat to the order. */
  lemma RefusalHolds(mem: seq<byte>, supply: Supply, running: bool, v: nat, l: Layout, t: Trust)
    requires Fits(l, |mem|) && Holding(mem, running, v, l, t) && NothingToInstall(mem, l, t)
    ensures var o := BootRun(mem, supply, l, t);
            && Holding(o.mem, o.result.Ok?, v, l, t)
            && (o.result.Ok? ==> NotBelow(o.result.value.image, v))
  {
    hide Aligned, Verdict, BootRun, Requested, ReleaseNumber, IsDowngrade;
    var o := BootRun(mem, supply, l, t);
    RefusalKeeps(mem, supply, l, t);
    VerdictKept(mem, o.mem, l, l.primary, t);
    var p, s := Verdict(mem, l, l.primary, t), Verdict(mem, l, l.secondary, t);
    if p.Ok? && s.Ok? { DowngradeIsNumber(mem, l, t, s.value); }
    if Requested(o.mem, l) {
      VerdictKept(mem, o.mem, l, l.secondary, t);
    }
  }

  lemma InstallHolds(mem: seq<byte>, supply: Supply, running: bool, v: nat, l: Layout, t: Trust)
    requires Fits(l, |mem|) && Holding(mem, running, v, l, t) && !NothingToInstall(mem, l, t)
    ensures var o := BootRun(mem, supply, l, t);
            && Holding(o.mem, o.result.Ok?, v, l, t)
            && (o.result.Ok? ==> NotBelow(o.result.value.image, v))
  {
    hide Aligned, Verdict, BootRun, Requested, ReleaseNumber, IsDowngrade;
    var c := Verdict(mem, l, l.secondary, t).value;
    if Verdict(mem, l, l.primary, t).Ok? { DowngradeIsNumber(mem, l, t, c); }
    assert NotBelow(c, v);
    InstallKeeps(mem, supply, l, t, c);
  }

  ghost predicate Ordered(w: World, l: Layout, t: Trust) {
    Fits(l, |w.mem|) && (w.booted.Some? ==> Holding(w.mem, w.running, w.booted.value, l, t))
  }

  /** A boot that succeeds leaves its own release holding, and the release is that in the primary's header. */
  lemma BootedHolds(mem: seq<byte>, supply: Supply, l: Layout, t: Trust)
    requires Fits(l, |mem|) && BootRun(mem, supply, l, t).result.Ok?
    ensures var o := BootRun(mem, supply, l, t);
            && Holding(o.mem, true, PrimaryRelease(o.mem, l), l, t)
            && ReleaseNumber(o.result.value.image.header.version) == PrimaryRelease(o.mem, l)
  {
    hide Aligned, Verdict, RequestRun, Requested, ReleaseNumber, ReleaseAt;
    VerdictRelease(BootRun(mem, supply, l, t).mem, l, l.primary, t);
  }

  lemma NextOrdered(w: World, e: Event, l: Layout, t: Trust)
    requires Ordered(w, l, t) && CanHappen(w, e, l)
    ensures Ordered(Next(w, e, l, t), l, t)
    ensures var w' := Next(w, e, l, t);
            w.booted.Some? ==> w'.booted.Some? && w.booted.value <= w'.booted.value
  {
    hide Aligned, ReleaseNumber, PrimaryRelease, BootRun, Holding, NothingToInstall;
    match e
    case Stage(slot) =>
      if w.booted.Some? { StageKeeps(w.mem, slot, w.booted.value, l, t); }
    case Boot(supply) =>
      if BootRun(w.mem, supply, l, t).result.Ok? { BootedHolds(w.mem, supply, l, t); }
      if w.booted.Some? {
        if NothingToInstall(w.mem, l, t) {
          RefusalHolds(w.mem, supply, w.running, w.booted.value, l, t);
        } else {
          InstallHolds(w.mem, supply, w.running, w.booted.value, l, t);
        }
      }
  }

  lemma {:induction false} HistoryOrdered(w: World, events: seq<Event>, w': World, l: Layout, t: Trust)
    requires Ordered(w, l, t) && History(w, events, w', l, t)
    ensures Ordered(w', l, t)
    ensures w.booted.Some? ==> w'.booted.Some? && w.booted.value <= w'.booted.value
    decreases |events|
  {
    hide Aligned, Holding, BootRun, CanHappen;
    if events != [] {
      var w1 := Next(w, events[0], l, t);
      NextOrdered(w, events[0], l, t);
      HistoryOrdered(w1, events[1..], w', l, t);
    }
  }

  /** Releases never go down, as the numbers in the headers that boot. From any flash whatsoever,
      through any history of boots, power losses and rewrites of the secondary slot by running firmware,
      whatever booted at some point, nothing with a lower release boots later. */
  lemma ReleasesNeverGoDown(mem: seq<byte>, before: seq<Event>, w: World, after: seq<Event>, w': World, l: Layout,
                            t: Trust)
    requires Fits(l, |mem|) && History(World(mem, None, false), before, w, l, t)
    requires Fits(l, |w.mem|) && History(w, after, w', l, t)
    ensures w.booted.Some? ==> w'.booted.Some? && w.booted.value <= w'.booted.value
  {
    hide Aligned, Holding, BootRun, CanHappen, History;
    HistoryOrdered(World(mem, None, false), before, w, l, t);
    HistoryOrdered(w, after, w', l, t);
  }

  // ----- The report

  /** What a boot that got as far as judging the primary reports about the request. */
  predicate Reports(o: Outcome<Bootable>, u: Update) {
    match o.result
    case Ok(b) => b.update == u
    case Err(e) => e.NoBootableImage? && e.update == u
  }

  /** The report is true. No request means that the magic is not at the end of the secondary slot, and nothing was
      touched; a rejection names the verdict on the candidate; a downgrade is a lower number than in the primary's
      header; after an install the primary has the candidate's verdict, and before one its bytes are as they were. */
  lemma ReportIsTrue(mem: seq<byte>, supply: Supply, l: Layout, t: Trust, u: Update)
    requires Fits(l, |mem|) && Reports(BootRun(mem, supply, l, t), u)
    ensures var o, end := BootRun(mem, supply, l, t), l.secondary + l.slotSize;
            && (u.NoRequest? <==> mem[end - BOOT_MAGIC_LEN..end] != BOOT_MAGIC) && (u.NoRequest? ==> o.mem == mem)
            && (!u.Installed? ==> Kept(mem, o.mem, l.primary, l.primary + l.slotSize))
            && (o.result.Err? ==> Verdict(o.mem, l, l.primary, t) == Err(o.result.error.primary))
    ensures var o, c := BootRun(mem, supply, l, t), Verdict(mem, l, l.secondary, t);
            && (u.Rejected? ==> c == Err(u.error))
            && (u.Downgrade? ==>
                  && c.Ok? && PrimaryHeader(mem, l).Some?
                  && ReleaseNumber(c.value.header.version) < PrimaryRelease(mem, l))
            && (u.Installed? ==> c.Ok? && Verdict(o.mem, l, l.primary, t) == c)
  {
    hide Aligned, Verdict, BootRun, RequestRun, IsDowngrade, ReleaseNumber, PrimaryRelease, Kept, Requested;
    var c := Verdict(mem, l, l.secondary, t);
    RequestIsMagic(mem, l);
    ReportsRequest(mem, supply, l, t, u);
    if NothingToInstall(mem, l, t) {
      RefusalKeeps(mem, supply, l, t);
      PrimaryKept(mem, BootRun(mem, supply, l, t).mem, l);
      RefusalReports(mem, supply, l, t);
      if u.Downgrade? { DowngradeIsBelow(mem, l, t, c.value); }
    } else {
      InstallReports(mem, supply, l, t);
    }
  }

  lemma ReportsRequest(mem: seq<byte>, supply: Supply, l: Layout, t: Trust, u: Update)
    requires Fits(l, |mem|) && Reports(BootRun(mem, supply, l, t), u)
    ensures var o, q := BootRun(mem, supply, l, t), RequestRun(mem, supply, l, t);
            && q.result == Ok(u) && o.mem == q.mem
            && match o.result
               case Ok(b) => Verdict(o.mem, l, l.primary, t) == Ok(b.image)
               case Err(e) => Verdict(o.mem, l, l.primary, t) == Err(e.primary)
  {
    hide Aligned, Verdict, RequestRun;
    RequestErrors(mem, supply, l, t);
  }

  lemma RefusalReports(mem: seq<byte>, supply: Supply, l: Layout, t: Trust)
    requires Fits(l, |mem|) && NothingToInstall(mem, l, t)
    ensures var q, c := RequestRun(mem, supply, l, t), Verdict(mem, l, l.secondary, t);
            && (!Requested(mem, l) ==> q.result == Ok(NoRequest) && q.mem == mem)
            && (Requested(mem, l) && q.result.Ok? ==>
                  if c.Err? then q.result.value == Rejected(c.error)
                  else q.result.value == Downgrade && IsDowngrade(mem, l, c.value))
  {
    hide Aligned, Verdict, InstallRun, IsDowngrade, Requested;
  }

  lemma RequestIsMagic(mem: seq<byte>, l: Layout)
    requires Fits(l, |mem|)
    ensures var end := l.secondary + l.slotSize; Requested(mem, l) <==> mem[end - BOOT_MAGIC_LEN..end] == BOOT_MAGIC
  {
    hide Aligned;
  }

  lemma PrimaryKept(mem: seq<byte>, mem': seq<byte>, l: Layout)
    requires Fits(l, |mem|) && |mem'| == |mem|
    requires forall i :: 0 <= i < |mem| && !(l.secondary <= i < l.secondary + l.slotSize) ==> mem'[i] == mem[i]
    ensures Kept(mem, mem', l.primary, l.primary + l.slotSize)
  {
    hide Aligned;
  }

  lemma InstallReports(mem: seq<byte>, supply: Supply, l: Layout, t: Trust)
    requires Fits(l, |mem|) && !NothingToInstall(mem, l, t)
    ensures var q, c := RequestRun(mem, supply, l, t), Verdict(mem, l, l.secondary, t);
            q.result.Ok? ==> q.result.value == Installed && Verdict(q.mem, l, l.primary, t) == c
  {
    hide EraseLen, Aligned, Verdict, InstallRun, IsDowngrade, Requested, DropRun;
    var c := Verdict(mem, l, l.secondary, t).value;
    VerdictEnds(mem, l, l.secondary, t);
    InstallLeaves(mem, supply, l, t, c);
    var i := InstallRun(mem, supply, l, t, c);
    if i.result.Ok? {
      DropLeaves(i.mem, i.supply, l, t, c);
      DropReports(i.mem, i.supply, l, Installed);
    }
  }

  lemma DropReports(mem: seq<byte>, supply: Supply, l: Layout, u: Update)
    requires Fits(l, |mem|)
    ensures var d := DropRun(mem, supply, l, u); d.result == Ok(u) || d.result == Err(FlashFailed)
  {}

  /** A boot that stops in the request says so, and says nothing of the primary. */
  lemma RequestErrors(mem: seq<byte>, supply: Supply, l: Layout, t: Trust)
    requires Fits(l, |mem|)
    ensures var q := RequestRun(mem, supply, l, t); q.result.Err? ==> q.result.error == FlashFailed
  {
    hide EraseLen, Aligned, Verdict, InstallRun, IsDowngrade, Requested, DropRun;
    if Requested(mem, l) {
      var v := Verdict(mem, l, l.secondary, t);
      if v.Ok? && !IsDowngrade(mem, l, v.value) {
        VerdictEnds(mem, l, l.secondary, t);
        var erased, k := InstallProgress(mem, supply, l, t);
        var i := InstallRun(mem, supply, l, t, v.value);
        DropReports(i.mem, i.supply, l, Installed);
      } else {
        DropReports(mem, supply, l, if v.Err? then Rejected(v.error) else Downgrade);
      }
    }
  }

  lemma DowngradeIsBelow(mem: seq<byte>, l: Layout, t: Trust, c: ValidImage)
    requires Fits(l, |mem|) && Verdict(mem, l, l.secondary, t) == Ok(c) && IsDowngrade(mem, l, c)
    ensures PrimaryHeader(mem, l).Some? && ReleaseNumber(c.header.version) < PrimaryRelease(mem, l)
  {
    hide Aligned, Verdict, ParseHeader, ReleaseNumber, ReleaseBelow, InRange, ReleaseAt;
    VerdictRelease(mem, l, l.secondary, t);
    ParsedRelease(mem[l.primary..l.primary + HEADER_LEN]);
    BelowIsNumber(c.header.version, PrimaryHeader(mem, l).value.version);
  }
}
