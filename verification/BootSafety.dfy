/**
 Power-fail safety of the boot loader over whole runs (mcuboot-image/src/boot.rs:16-21): which
 sequences of power losses an accepted upgrade survives, and which one it does not.
 */
module BootSafety {
  import opened Wrappers
  import opened Bytes
  import opened Arithmetic
  import opened NorFlashModel
  import opened BootImage
  import opened ImageScan
  import opened BootLoader
  import opened BootSteps

  // ----- A header torn at byte k

  predicate Masked(whole: seq<byte>, torn: seq<byte>, k: nat)
    requires |whole| == |torn|
  {
    forall i :: 0 <= i < |whole| ==> torn[i] == if i < k then whole[i] else ERASED
  }

  /** A tear between the magic and the end of the release number that reads as a higher release,
      because some byte of the release that is not 0xFF still reads as erased. */
  predicate TearsRelease(header: seq<byte>, k: nat)
    requires |header| >= HEADER_LEN
  {
    4 <= k < 24 && exists j :: 20 <= j < 24 && k <= j && header[j] != ERASED
  }

  lemma NoMagicNoHeader(bytes: seq<byte>, i: nat)
    requires |bytes| >= HEADER_LEN && i < 4 && bytes[i] == ERASED
    ensures ParseHeader(bytes) == None
  {
    if ParseHeader(bytes).Some? { MagicBytes(bytes); }
  }

  lemma TornHeader(whole: seq<byte>, torn: seq<byte>, k: nat)
    requires |whole| == |torn| == HEADER_LEN && Masked(whole, torn, k) && ParseHeader(whole).Some?
    ensures k < 4 ==> ParseHeader(torn) == None
    ensures k >= 4 ==> ParseHeader(torn).Some?
    ensures k >= 4 ==>
      (ReleaseBelow(ParseHeader(whole).value.version, ParseHeader(torn).value.version) <==> TearsRelease(whole, k))
  {
    if k < 4 {
      NoMagicNoHeader(torn, 3);
    } else {
      assert WordAt(torn, 0) == WordAt(whole, 0);
      var v, w := ParseHeader(whole).value.version, ParseHeader(torn).value.version;
      assert v.major <= w.major && v.minor <= w.minor && v.revision <= w.revision;
      if TearsRelease(whole, k) {
        var j :| 20 <= j < 24 && k <= j && whole[j] != ERASED;
        assert torn[j] == ERASED;
      } else {
        assert forall j :: 20 <= j < 24 ==> torn[j] == whole[j];
      }
    }
  }

  function HeaderBytes(mem: seq<byte>, slot: nat): (r: seq<byte>)
    requires slot + HEADER_LEN <= |mem|
    ensures |r| == HEADER_LEN
  {
    mem[slot..slot + HEADER_LEN]
  }

  lemma NotBelowItself(v: Version)
    ensures !ReleaseBelow(v, v)
  {}

  // ----- The states of an accepted upgrade

  /** The candidate of the flash `origin`. */
  ghost predicate Accepts(origin: seq<byte>, l: Layout, t: Trust, c: ValidImage) {
    Fits(l, |origin|) && Verdict(origin, l, l.secondary, t) == Ok(c)
  }

  /** The upgrade is still to be made: the request stands, the candidate is untouched, and nothing
      in the primary slot reads as a higher release. */
  ghost predicate Pending(origin: seq<byte>, mem: seq<byte>, l: Layout, c: ValidImage)
    requires Fits(l, |origin|)
  {
    && |mem| == |origin|
    && Kept(origin, mem, l.secondary, l.secondary + MaxLen(l))
    && Requested(mem, l)
    && !IsDowngrade(mem, l, c)
  }

  /** The primary holds the candidate byte for byte, up to the image's end rounded to whole writes. */
  ghost predicate HoldsCandidate(origin: seq<byte>, mem: seq<byte>, l: Layout, c: ValidImage)
    requires Fits(l, |origin|) && |mem| == |origin|
  {
    && CopyLen(l, c.end) <= l.slotSize
    && mem[l.primary..l.primary + CopyLen(l, c.end)] == origin[l.secondary..l.secondary + CopyLen(l, c.end)]
  }

  /** The upgrade is made: the primary holds the candidate and the request is gone. */
  ghost predicate Completed(origin: seq<byte>, mem: seq<byte>, l: Layout, c: ValidImage)
    requires Fits(l, |origin|)
  {
    |mem| == |origin| && HoldsCandidate(origin, mem, l, c) && !Requested(mem, l)
  }

  /** The upgrade is lost: `k` bytes of the candidate's header read as a higher release, and the
      rest of what the image needs is erased. */
  ghost predicate Poisoned(origin: seq<byte>, mem: seq<byte>, l: Layout, c: ValidImage, k: nat)
    requires Fits(l, |origin|)
  {
    && |mem| == |origin| && HEADER_LEN <= EraseLen(l, c.end) <= l.slotSize
    && TearsRelease(HeaderBytes(origin, l.secondary), k)
    && (forall i :: l.primary <= i < l.primary + EraseLen(l, c.end) ==>
          mem[i] == if i < l.primary + k then origin[i - l.primary + l.secondary] else ERASED)
    && (Requested(mem, l) ==> Kept(origin, mem, l.secondary, l.secondary + MaxLen(l)))
  }

  /** The supply fails while the header is written, at a byte where the torn header reads as a
      higher release. All of this can be seen before the boot. */
  ghost predicate TearsHeader(mem: seq<byte>, l: Layout, t: Trust, n: nat)
    requires Fits(l, |mem|)
  {
    && Requested(mem, l)
    && Verdict(mem, l, l.secondary, t).Ok?
    && var c := Verdict(mem, l, l.secondary, t).value;
    && !IsDowngrade(mem, l, c)
    && n >= EraseLen(l, c.end)
    && TearsRelease(HeaderBytes(mem, l.secondary), n - EraseLen(l, c.end))
  }

  /** What lies at `at` is the candidate's firmware, as it was staged. */
  ghost predicate Firmware(origin: seq<byte>, mem: seq<byte>, l: Layout, c: ValidImage, at: nat) {
    var from, n := l.secondary + c.header.hdrSize, c.header.imgSize;
    from + n <= |origin| && at + n <= |mem| && mem[at..at + n] == origin[from..from + n]
  }

  /** What a boot must have achieved for the upgrade to count as made: the candidate is in the primary, and the vector
      table that is jumped to is where its firmware begins. */
  ghost predicate Recovered(origin: seq<byte>, o: Outcome<Bootable>, l: Layout, c: ValidImage)
    requires Fits(l, |origin|)
  {
    && Completed(origin, o.mem, l, c) && o.result.Ok? && o.result.value.image == c
    && Firmware(origin, o.mem, l, c, o.result.value.vectorTable)
  }

  lemma CandidateLengths(origin: seq<byte>, l: Layout, t: Trust, c: ValidImage)
    requires Accepts(origin, l, t, c)
    ensures HEADER_LEN + 4 <= c.end <= CopyLen(l, c.end) <= EraseLen(l, c.end) <= MaxLen(l) < l.slotSize
  {
    hide Verdict, Aligned;
    VerdictEnds(origin, l, l.secondary, t);
    LengthsFit(l, |origin|, c.end);
  }

  /** While the candidate's bytes are kept, so is the verdict on it. */
  lemma StillCandidate(origin: seq<byte>, mem: seq<byte>, l: Layout, t: Trust, c: ValidImage)
    requires Accepts(origin, l, t, c) && |mem| == |origin| && Kept(origin, mem, l.secondary, l.secondary + MaxLen(l))
    ensures Accepts(mem, l, t, c) && HeaderBytes(mem, l.secondary) == HeaderBytes(origin, l.secondary)
    ensures ParseHeader(HeaderBytes(mem, l.secondary)) == Some(c.header)
  {
    hide Verdict, Aligned, ParseHeader;
    VerdictKept(origin, mem, l, l.secondary, t);
    VerdictHeader(mem, l, l.secondary, t);
    assert HeaderBytes(mem, l.secondary) == HeaderBytes(origin, l.secondary);
  }

  /** How a primary that holds the candidate's first `k` bytes compares with the candidate. */
  lemma PartialDowngrade(mem: seq<byte>, l: Layout, t: Trust, c: ValidImage, n: nat, k: nat)
    requires Accepts(mem, l, t, c) && k <= n <= l.slotSize && HEADER_LEN <= n
    ensures IsDowngrade(Partial(mem, l, n, k), l, c) <==> TearsRelease(HeaderBytes(mem, l.secondary), k)
  {
    hide Verdict, Aligned, ParseHeader, Partial, TearsRelease, ReleaseBelow;
    VerdictHeader(mem, l, l.secondary, t);
    PartialAt(mem, l, n, k);
    var whole, torn := HeaderBytes(mem, l.secondary), HeaderBytes(Partial(mem, l, n, k), l.primary);
    assert Masked(whole, torn, k);
    TornHeader(whole, torn, k);
    if k < 4 { ShortTear(whole, k); }
  }

  lemma ShortTear(header: seq<byte>, k: nat)
    requires |header| >= HEADER_LEN && k < 4
    ensures !TearsRelease(header, k)
  {}

  // ----- One boot of a pending upgrade

  /** Work on the primary slot leaves the request and the candidate alone. */
  lemma PrimaryWork(origin: seq<byte>, mem: seq<byte>, mem': seq<byte>, l: Layout, c: ValidImage)
    requires Fits(l, |origin|) && Pending(origin, mem, l, c) && |mem'| == |mem|
    requires forall i :: 0 <= i < |mem| && !(l.primary <= i < l.primary + l.slotSize) ==> mem'[i] == mem[i]
    ensures Kept(origin, mem', l.secondary, l.secondary + MaxLen(l)) && Requested(mem', l)
    ensures Kept(mem, mem', l.secondary, l.secondary + MaxLen(l))
  {
    hide EraseLen, CopyLen, Aligned, IsDowngrade;
    var end := l.secondary + l.slotSize;
    assert mem'[end - BOOT_MAGIC_LEN..end] == mem[end - BOOT_MAGIC_LEN..end];
  }

  lemma ErasedNotDowngrade(mem: seq<byte>, l: Layout, c: ValidImage, a: nat)
    requires Fits(l, |mem|) && a <= l.slotSize && !IsDowngrade(mem, l, c)
    ensures !IsDowngrade(Erased(mem, l.primary, l.primary + a), l, c)
  {
    hide EraseLen, CopyLen, Aligned, ParseHeader, ReleaseBelow;
    var r := Erased(mem, l.primary, l.primary + a);
    if a == 0 {
      assert r == mem;
    } else {
      NoMagicNoHeader(r[l.primary..l.primary + HEADER_LEN], 0);
    }
  }

  lemma HoldsNotDowngrade(origin: seq<byte>, mem: seq<byte>, l: Layout, t: Trust, c: ValidImage)
    requires Accepts(origin, l, t, c) && |mem| == |origin| && HoldsCandidate(origin, mem, l, c)
    ensures !IsDowngrade(mem, l, c)
  {
    hide EraseLen, CopyLen, Aligned, ParseHeader, Verdict, ReleaseBelow;
    CandidateLengths(origin, l, t, c);
    VerdictHeader(origin, l, l.secondary, t);
    var total := CopyLen(l, c.end);
    assert mem[l.primary..l.primary + HEADER_LEN] == mem[l.primary..l.primary + total][..HEADER_LEN];
    assert origin[l.secondary..l.secondary + HEADER_LEN] == origin[l.secondary..l.secondary + total][..HEADER_LEN];
    NotBelowItself(c.header.version);
  }

  lemma ErasingLeavesPending(origin: seq<byte>, mem: seq<byte>, l: Layout, c: ValidImage, a: nat)
    requires Fits(l, |origin|) && Pending(origin, mem, l, c) && a <= l.slotSize
    ensures Pending(origin, Erased(mem, l.primary, l.primary + a), l, c)
  {
    hide Aligned, IsDowngrade;
    PrimaryWork(origin, mem, Erased(mem, l.primary, l.primary + a), l, c);
    ErasedNotDowngrade(mem, l, c, a);
  }

  lemma CopyingLeavesPending(origin: seq<byte>, mem: seq<byte>, l: Layout, t: Trust, c: ValidImage, n: nat, k: nat)
    requires Accepts(mem, l, t, c) && Fits(l, |origin|) && Pending(origin, mem, l, c)
    requires k <= n <= l.slotSize && HEADER_LEN <= n && !TearsRelease(HeaderBytes(mem, l.secondary), k)
    ensures Pending(origin, Partial(mem, l, n, k), l, c)
  {
    hide Aligned, IsDowngrade, Verdict, Partial, TearsRelease;
    PartialAt(mem, l, n, k);
    PrimaryWork(origin, mem, Partial(mem, l, n, k), l, c);
    PartialDowngrade(mem, l, t, c, n, k);
  }

  lemma CopyingHolds(origin: seq<byte>, mem: seq<byte>, l: Layout, c: ValidImage, n: nat)
    requires Fits(l, |origin|) && |mem| == |origin| && Kept(origin, mem, l.secondary, l.secondary + MaxLen(l))
    requires CopyLen(l, c.end) <= n <= MaxLen(l)
    ensures HoldsCandidate(origin, Partial(mem, l, n, CopyLen(l, c.end)), l, c)
  {
    hide EraseLen, CopyLen, Aligned, Partial;
    var k := CopyLen(l, c.end);
    PartialPrefix(mem, l, n, k, k);
    assert mem[l.secondary..l.secondary + k] == origin[l.secondary..l.secondary + k];
  }

  /** An install that is cut short leaves the upgrade pending, unless it tears the header; one that
      is not leaves the candidate in the primary. */
  lemma InstallOutcome(origin: seq<byte>, mem: seq<byte>, supply: Supply, l: Layout, t: Trust, c: ValidImage)
    requires Accepts(origin, l, t, c) && Pending(origin, mem, l, c)
    requires c.end <= MaxLen(l)
    requires supply.Fails? ==> !TearsHeader(mem, l, t, supply.after)
    ensures var i := InstallRun(mem, supply, l, t, c);
            && Pending(origin, i.mem, l, c)
            && (i.result == Err(FlashFailed) || (i.result == Ok(()) && HoldsCandidate(origin, i.mem, l, c)))
            && (supply.Stable? ==> i.result.Ok? && i.supply == Stable)
  {
    hide EraseLen, CopyLen, Aligned, Verdict, InstallRun, Partial, IsDowngrade, TearsRelease, ParseHeader, Requested,
         Kept, HoldsCandidate;
    StillCandidate(origin, mem, l, t, c);
    CandidateLengths(mem, l, t, c);
    var n := EraseLen(l, c.end);
    var erased, k := InstallProgress(mem, supply, l, t);
    if erased < n {
      ErasingLeavesPending(origin, mem, l, c, erased);
    } else {
      LateTear(HeaderBytes(mem, l.secondary), k);
      CopyingLeavesPending(origin, mem, l, t, c, n, k);
      CopyingHolds(origin, mem, l, c, n);
    }
  }

  lemma LateTear(header: seq<byte>, k: nat)
    requires |header| >= HEADER_LEN
    ensures k >= 24 ==> !TearsRelease(header, k)
  {}

  lemma DropOutcome(origin: seq<byte>, mem: seq<byte>, supply: Supply, l: Layout, t: Trust, c: ValidImage)
    requires Accepts(origin, l, t, c) && Pending(origin, mem, l, c) && HoldsCandidate(origin, mem, l, c)
    ensures var d := DropRun(mem, supply, l, Installed);
            && (Pending(origin, d.mem, l, c) || Completed(origin, d.mem, l, c))
            && (d.result == Err(FlashFailed) || (d.result == Ok(Installed) && Completed(origin, d.mem, l, c)))
            && (supply.Stable? ==> d.result.Ok?)
  {
    hide EraseLen, CopyLen, Aligned, Verdict, DropRun, Dropped, IsDowngrade, ParseHeader, Requested;
    CandidateLengths(origin, l, t, c);
    var a, b := DropProgress(mem, supply, l, Installed);
    DroppedKeeps(mem, l, a, b);
    var r, total := Dropped(mem, l, a, b), CopyLen(l, c.end);
    assert r[l.primary..l.primary + total] == mem[l.primary..l.primary + total];
    HoldsNotDowngrade(origin, r, l, t, c);
  }

  /** A boot of a pending upgrade, whatever the supply, short of tearing the header. */
  lemma PendingBoot(origin: seq<byte>, mem: seq<byte>, supply: Supply, l: Layout, t: Trust, c: ValidImage)
    requires Accepts(origin, l, t, c) && Pending(origin, mem, l, c)
    requires supply.Fails? ==> !TearsHeader(mem, l, t, supply.after)
    ensures var o := BootRun(mem, supply, l, t);
            && (Pending(origin, o.mem, l, c) || Completed(origin, o.mem, l, c))
            && (supply.Stable? ==> Recovered(origin, o, l, c))
  {
    hide EraseLen, CopyLen, Aligned, Verdict, InstallRun, DropRun, IsDowngrade, ParseHeader, Requested, TearsHeader,
         HoldsCandidate, Kept, Firmware;
    StillCandidate(origin, mem, l, t, c);
    CandidateLengths(mem, l, t, c);
    InstallOutcome(origin, mem, supply, l, t, c);
    var i := InstallRun(mem, supply, l, t, c);
    if i.result.Ok? {
      DropOutcome(origin, i.mem, i.supply, l, t, c);
      var d := DropRun(i.mem, i.supply, l, Installed);
      if d.result.Ok? { BootsCandidate(origin, d.mem, l, t, c); }
    }
  }

  lemma BootsCandidate(origin: seq<byte>, mem: seq<byte>, l: Layout, t: Trust, c: ValidImage)
    requires Accepts(origin, l, t, c) && |mem| == |origin| && HoldsCandidate(origin, mem, l, c)
    ensures Verdict(mem, l, l.primary, t) == Ok(c)
    ensures Firmware(origin, mem, l, c, l.primary + c.header.hdrSize)
  {
    hide EraseLen, CopyLen, Aligned, Verdict, ParseHeader;
    CandidateLengths(origin, l, t, c);
    VerdictFrames(origin, l, l.secondary, t);
    var total := CopyLen(l, c.end);
    assert mem[l.primary..l.primary + c.end] == mem[l.primary..l.primary + total][..c.end];
    assert origin[l.secondary..l.secondary + c.end] == origin[l.secondary..l.secondary + total][..c.end];
    VerdictCopied(origin, l.secondary, mem, l.primary, l, t);
    var a, b := c.header.hdrSize, c.header.hdrSize + c.header.imgSize;
    InnerSlice(mem, l.primary, total, a, b);
    InnerSlice(origin, l.secondary, total, a, b);
  }

  lemma InnerSlice(s: seq<byte>, at: nat, n: nat, a: nat, b: nat)
    requires a <= b <= n && at + n <= |s|
    ensures s[at + a..at + b] == s[at..at + n][a..b]
  {
    var x, y := s[at + a..at + b], s[at..at + n][a..b];
    assert forall i :: 0 <= i < |x| ==> x[i] == s[at + a + i] && y[i] == s[at + a + i];
  }

  lemma CompletedBoot(origin: seq<byte>, mem: seq<byte>, supply: Supply, l: Layout, t: Trust, c: ValidImage)
    requires Accepts(origin, l, t, c) && Completed(origin, mem, l, c)
    ensures Recovered(origin, BootRun(mem, supply, l, t), l, c)
  {
    hide EraseLen, CopyLen, Aligned, Verdict, ParseHeader, Requested, HoldsCandidate, Firmware;
    BootsCandidate(origin, mem, l, t, c);
  }

  // ----- One boot of a lost upgrade

  /** What framing demands of a valid image, in terms of its header. */
  lemma VerdictFrames(mem: seq<byte>, l: Layout, slot: nat, t: Trust)
    requires Fits(l, |mem|) && slot + l.slotSize <= |mem| && Verdict(mem, l, slot, t).Ok?
    ensures var v := Verdict(mem, l, slot, t).value;
            && v.header.flags == 0 && HEADER_LEN <= HashedLen(v.header) && HashedLen(v.header) + 4 <= v.end <= MaxLen(l)
            && mem[slot + HashedLen(v.header)] == 0x07 && mem[slot + HashedLen(v.header) + 1] == 0x69
  {
    hide EraseLen, CopyLen, ParseHeader, Judge, Aligned;
    var img := View(mem, slot, Max(HEADER_LEN, MaxLen(l)));
    JudgeKeepsFrame(Frame(img, MaxLen(l)).value, img, t);
    var h := ParseHeader(img).value;
    HalfIs(img[HashedLen(h)], img[HashedLen(h) + 1]);
  }

  lemma HalfIs(a: byte, b: byte)
    requires U16(a, b) == TLV_INFO_MAGIC
    ensures a == 0x07 && b == 0x69
  {}

  /** A header torn before byte 20 has flags; torn later, it has the whole header's geometry. */
  lemma TornGeometry(whole: seq<byte>, torn: seq<byte>, k: nat)
    requires |whole| == |torn| == HEADER_LEN && Masked(whole, torn, k) && ParseHeader(whole).Some? && 4 <= k
    ensures k < 20 ==> ParseHeader(torn).Some? && ParseHeader(torn).value.flags != 0
    ensures k >= 20 ==>
              ParseHeader(torn).Some? && HashedLen(ParseHeader(torn).value) == HashedLen(ParseHeader(whole).value)
  {
    assert WordAt(torn, 0) == WordAt(whole, 0);
    if k < 20 {
      assert torn[19] == ERASED;
    } else {
      assert HalfAt(torn, 8) == HalfAt(whole, 8) && HalfAt(torn, 10) == HalfAt(whole, 10);
      assert WordAt(torn, 12) == WordAt(whole, 12);
    }
  }

  /** What is left in the primary of a lost upgrade cannot be booted, and reads as a higher release. */
  lemma PoisonReads(origin: seq<byte>, mem: seq<byte>, l: Layout, t: Trust, c: ValidImage, k: nat)
    requires Accepts(origin, l, t, c) && Poisoned(origin, mem, l, c, k)
    ensures Verdict(mem, l, l.primary, t).Err? && IsDowngrade(mem, l, c)
  {
    hide EraseLen, CopyLen, Aligned, Verdict, ParseHeader, ReleaseBelow;
    CandidateLengths(origin, l, t, c);
    VerdictHeader(origin, l, l.secondary, t);
    VerdictFrames(origin, l, l.secondary, t);
    var whole, torn := HeaderBytes(origin, l.secondary), HeaderBytes(mem, l.primary);
    assert Masked(whole, torn, k);
    TornHeader(whole, torn, k);
    TornGeometry(whole, torn, k);
    if Verdict(mem, l, l.primary, t).Ok? {
      VerdictHeader(mem, l, l.primary, t);
      VerdictFrames(mem, l, l.primary, t);
      assert false;
    }
  }

  /** Once lost, an upgrade stays lost: no boot succeeds any more, whatever the supply. */
  lemma PoisonedBoot(origin: seq<byte>, mem: seq<byte>, supply: Supply, l: Layout, t: Trust, c: ValidImage, k: nat)
    requires Accepts(origin, l, t, c) && Poisoned(origin, mem, l, c, k)
    ensures var o := BootRun(mem, supply, l, t); Poisoned(origin, o.mem, l, c, k) && o.result.Err?
  {
    hide EraseLen, CopyLen, Aligned, Verdict, DropRun, Dropped, IsDowngrade, ParseHeader, Requested, TearsRelease;
    CandidateLengths(origin, l, t, c);
    PoisonReads(origin, mem, l, t, c, k);
    if Requested(mem, l) {
      StillCandidate(origin, mem, l, t, c);
      var a, b := DropProgress(mem, supply, l, Downgrade);
      DroppedKeeps(mem, l, a, b);
      PoisonReads(origin, Dropped(mem, l, a, b), l, t, c, k);
    }
  }

  lemma PartialPoisons(origin: seq<byte>, mem: seq<byte>, l: Layout, t: Trust, c: ValidImage, k: nat)
    requires Accepts(origin, l, t, c) && Pending(origin, mem, l, c) && TearsRelease(HeaderBytes(origin, l.secondary), k)
    requires k <= EraseLen(l, c.end) <= l.slotSize
    ensures Poisoned(origin, Partial(mem, l, EraseLen(l, c.end), k), l, c, k)
  {
    hide EraseLen, CopyLen, Aligned, Verdict, Partial, IsDowngrade, ParseHeader, TearsRelease, Requested;
    CandidateLengths(origin, l, t, c);
    var m := EraseLen(l, c.end);
    PartialAt(mem, l, m, k);
    PrimaryWork(origin, mem, Partial(mem, l, m, k), l, c);
  }

  lemma InstallStopsBoot(mem: seq<byte>, supply: Supply, l: Layout, t: Trust, c: ValidImage)
    requires Accepts(mem, l, t, c) && Requested(mem, l) && !IsDowngrade(mem, l, c) && c.end <= MaxLen(l)
    requires InstallRun(mem, supply, l, t, c).result.Err?
    ensures BootRun(mem, supply, l, t).mem == InstallRun(mem, supply, l, t, c).mem
  {
    hide EraseLen, CopyLen, Aligned, Verdict, InstallRun, DropRun, IsDowngrade, Requested;
  }

  /** Tearing the header of a pending upgrade loses it. */
  lemma TearPoisons(origin: seq<byte>, mem: seq<byte>, n: nat, l: Layout, t: Trust, c: ValidImage) returns (k: nat)
    requires Accepts(origin, l, t, c) && Pending(origin, mem, l, c) && TearsHeader(mem, l, t, n)
    ensures Poisoned(origin, BootRun(mem, Fails(n), l, t).mem, l, c, k)
  {
    hide EraseLen, CopyLen, Aligned, Verdict, InstallRun, BootRun, Partial, IsDowngrade, ParseHeader, TearsRelease,
         Requested, Poisoned, Kept;
    StillCandidate(origin, mem, l, t, c);
    CandidateLengths(mem, l, t, c);
    var m := EraseLen(l, c.end);
    LateTear(HeaderBytes(mem, l.secondary), n - m);
    var erased;
    erased, k := InstallProgress(mem, Fails(n), l, t);
    PartialPoisons(origin, mem, l, t, c, k);
    InstallStopsBoot(mem, Fails(n), l, t, c);
  }

  // ----- Whole runs

  /** The flash after one boot per power loss, the i-th cut short after `ns[i]` bytes of work. */
  ghost function AfterBoots(mem: seq<byte>, ns: seq<nat>, l: Layout, t: Trust): (r: seq<byte>)
    requires Fits(l, |mem|)
    ensures |r| == |mem|
    decreases |ns|
  {
    if ns == [] then mem else AfterBoots(BootRun(mem, Fails(ns[0]), l, t).mem, ns[1..], l, t)
  }

  /** No boot of the run tears the header. */
  ghost predicate NeverTears(mem: seq<byte>, ns: seq<nat>, l: Layout, t: Trust)
    requires Fits(l, |mem|)
    decreases |ns|
  {
    ns != [] ==> !TearsHeader(mem, l, t, ns[0]) && NeverTears(BootRun(mem, Fails(ns[0]), l, t).mem, ns[1..], l, t)
  }

  lemma {:induction false} PoisonedRun(origin: seq<byte>, mem: seq<byte>, ns: seq<nat>, l: Layout, t: Trust,
                                       c: ValidImage, k: nat)
    requires Accepts(origin, l, t, c) && |mem| == |origin| && Poisoned(origin, mem, l, c, k)
    ensures BootRun(AfterBoots(mem, ns, l, t), Stable, l, t).result.Err?
    decreases |ns|
  {
    hide EraseLen, CopyLen, Verdict, Aligned, Poisoned, BootRun;
    if ns == [] {
      PoisonedBoot(origin, mem, Stable, l, t, c, k);
    } else {
      PoisonedBoot(origin, mem, Fails(ns[0]), l, t, c, k);
      PoisonedRun(origin, BootRun(mem, Fails(ns[0]), l, t).mem, ns[1..], l, t, c, k);
    }
  }

  lemma {:induction false} UpgradeRun(origin: seq<byte>, mem: seq<byte>, ns: seq<nat>, l: Layout, t: Trust,
                                      c: ValidImage)
    requires Accepts(origin, l, t, c) && |mem| == |origin|
    requires (Pending(origin, mem, l, c) || Completed(origin, mem, l, c))
    ensures Recovered(origin, BootRun(AfterBoots(mem, ns, l, t), Stable, l, t), l, c) <==> NeverTears(mem, ns, l, t)
    decreases |ns|
  {
    hide Pending, Completed, Poisoned, BootRun, Verdict, TearsHeader, Aligned, Firmware;
    if ns == [] {
      if Pending(origin, mem, l, c) {
        PendingBoot(origin, mem, Stable, l, t, c);
      } else {
        CompletedBoot(origin, mem, Stable, l, t, c);
      }
    } else {
      var mem' := BootRun(mem, Fails(ns[0]), l, t).mem;
      if Completed(origin, mem, l, c) {
        CompletedBoot(origin, mem, Fails(ns[0]), l, t, c);
        CompletedCannotTear(origin, mem, ns[0], l, t, c);
        UpgradeRun(origin, mem', ns[1..], l, t, c);
      } else if TearsHeader(mem, l, t, ns[0]) {
        var k := TearPoisons(origin, mem, ns[0], l, t, c);
        PoisonedRun(origin, mem', ns[1..], l, t, c, k);
      } else {
        PendingBoot(origin, mem, Fails(ns[0]), l, t, c);
        UpgradeRun(origin, mem', ns[1..], l, t, c);
      }
    }
  }

  lemma CompletedCannotTear(origin: seq<byte>, mem: seq<byte>, n: nat, l: Layout, t: Trust, c: ValidImage)
    requires Accepts(origin, l, t, c) && Completed(origin, mem, l, c)
    ensures !TearsHeader(mem, l, t, n)
  {}

  /** Power-fail safety. Start from a valid, requested candidate that is not a downgrade, and lose power
      any number of times at any byte of any erase or write. The first uninterrupted boot leaves the
      primary byte for byte equal to the candidate, bootable, with no request pending and the vector
      table at the candidate's firmware, if and only if none of the boots lost power inside the header in
      a way that reads as a higher release. */
  lemma PowerFailSafety(mem: seq<byte>, ns: seq<nat>, l: Layout, t: Trust)
    requires Fits(l, |mem|) && Requested(mem, l) && Verdict(mem, l, l.secondary, t).Ok?
    requires !IsDowngrade(mem, l, Verdict(mem, l, l.secondary, t).value)
    ensures Recovered(mem, BootRun(AfterBoots(mem, ns, l, t), Stable, l, t), l, Verdict(mem, l, l.secondary, t).value)
            <==> NeverTears(mem, ns, l, t)
  {
    hide BootRun, Verdict, IsDowngrade, Requested, Aligned, Recovered, NeverTears, AfterBoots;
    var c := Verdict(mem, l, l.secondary, t).value;
    assert Pending(mem, mem, l, c);
    UpgradeRun(mem, mem, ns, l, t, c);
  }

  /** The loss is real: losing power four bytes into the header write, with the magic written and the
      release not, tears the header of every candidate but release 255.255.65535. */
  lemma FourBytesIn(mem: seq<byte>, l: Layout, t: Trust, j: nat)
    requires Fits(l, |mem|) && Requested(mem, l) && Verdict(mem, l, l.secondary, t).Ok?
    requires !IsDowngrade(mem, l, Verdict(mem, l, l.secondary, t).value)
    requires 20 <= j < 24 && mem[l.secondary + j] != ERASED
    ensures TearsHeader(mem, l, t, EraseLen(l, Verdict(mem, l, l.secondary, t).value.end) + 4)
  {
    hide EraseLen, Verdict, Aligned, IsDowngrade, Requested;
    assert HeaderBytes(mem, l.secondary)[j] != ERASED;
  }

  /** And after such a loss no boot, interrupted or not, ever succeeds again. */
  lemma OneTearIsFatal(mem: seq<byte>, n: nat, ns: seq<nat>, l: Layout, t: Trust)
    requires Fits(l, |mem|) && TearsHeader(mem, l, t, n)
    ensures BootRun(AfterBoots(BootRun(mem, Fails(n), l, t).mem, ns, l, t), Stable, l, t).result.Err?
  {
    hide EraseLen, CopyLen, BootRun, Verdict, IsDowngrade, Requested, Aligned, TearsRelease, Poisoned;
    var c := Verdict(mem, l, l.secondary, t).value;
    assert Pending(mem, mem, l, c);
    var k := TearPoisons(mem, mem, n, l, t, c);
    PoisonedRun(mem, BootRun(mem, Fails(n), l, t).mem, ns, l, t, c, k);
  }
}
