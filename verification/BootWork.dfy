/**
 How much work a boot does (mcuboot-image/src/boot.rs:117-199), and with it power-fail safety in closed
 form: which lists of power losses an upgrade survives can be read off the flash before the first boot.
 */
module BootWork {
  import opened Wrappers
  import opened Bytes
  import opened Arithmetic
  import opened NorFlashModel
  import opened BootImage
  import opened BootLoader
  import opened BootSteps
  import opened BootSafety

  // ----- Copying

  /** The bytes that the copy loop writes from `offset` on: those of the chunks that are not blank. */
  function CopyWork(mem: seq<byte>, l: Layout, total: nat, offset: nat): nat
    requires Fits(l, |mem|) && offset <= total <= l.slotSize
    decreases total - offset
  {
    if offset == total then 0
    else
      var next := offset + Chunk(total, offset);
      (if Blank(mem[l.secondary + offset..l.secondary + next]) then 0 else next - offset)
      + CopyWork(mem, l, total, next)
  }

  /** The work depends on the candidate only. */
  lemma {:induction false} WorkKept(a: seq<byte>, b: seq<byte>, l: Layout, total: nat, offset: nat)
    requires Fits(l, |a|) && |a| == |b| && offset <= total <= l.slotSize
    requires Kept(a, b, l.secondary, l.secondary + total)
    ensures CopyWork(a, l, total, offset) == CopyWork(b, l, total, offset)
    decreases total - offset
  {
    hide Aligned, Blank;
    if offset < total {
      var next := offset + Chunk(total, offset);
      assert a[l.secondary + offset..l.secondary + next] == b[l.secondary + offset..l.secondary + next];
      WorkKept(a, b, l, total, next);
    }
  }

  /** The copy succeeds exactly when the supply lasts for its work, which it then has spent. */
  lemma {:induction false} CopySpends(mem: seq<byte>, n: nat, l: Layout, total: nat, offset: nat)
    requires Fits(l, |mem|) && offset <= total <= l.slotSize
    ensures var r, work := CopyRun(mem, Fails(n), l, total, offset), CopyWork(mem, l, total, offset);
            && (r.result.Ok? <==> n >= work)
            && (r.result.Ok? ==> r.supply == Fails(n - work))
    decreases total - offset
  {
    hide Aligned, Blank, WriteRun, CopyRun;
    if offset == total {
      CopyEnds(mem, Fails(n), l, total);
    } else {
      var next := offset + Chunk(total, offset);
      var data := mem[l.secondary + offset..l.secondary + next];
      CopyUnfolds(mem, Fails(n), l, total, offset);
      WriteSpends(mem, n, l.primary + offset, data);
      if Blank(data) {
        CopySpends(mem, n, l, total, next);
      } else if n >= next - offset {
        var w := WriteRun(mem, Fails(n), l.primary + offset, data);
        WriteKeeps(mem, n, l, l.primary + offset, data);
        CopySpends(w.mem, n - (next - offset), l, total, next);
        WorkKept(mem, w.mem, l, total, next);
      }
    }
  }

  lemma CopyEnds(mem: seq<byte>, supply: Supply, l: Layout, total: nat)
    requires Fits(l, |mem|) && total <= l.slotSize
    ensures CopyRun(mem, supply, l, total, total) == Outcome(mem, supply, Ok(()))
  {}

  lemma WriteSpends(mem: seq<byte>, n: nat, at: nat, data: seq<byte>)
    requires at + |data| <= |mem|
    ensures var w := WriteRun(mem, Fails(n), at, data);
            (w.result.Ok? <==> n >= |data|) && (w.result.Ok? ==> w.supply == Fails(n - |data|))
  {}

  lemma WriteKeeps(mem: seq<byte>, n: nat, l: Layout, at: nat, data: seq<byte>)
    requires Fits(l, |mem|) && l.primary <= at && at + |data| <= l.primary + l.slotSize
    ensures Kept(mem, WriteRun(mem, Fails(n), at, data).mem, l.secondary, l.secondary + l.slotSize)
  {
    hide Aligned, And;
  }

  // ----- Installing and dropping

  /** The work of an install. */
  function InstallWork(mem: seq<byte>, l: Layout, end: nat): nat
    requires Fits(l, |mem|) && CopyLen(l, end) <= l.slotSize
  {
    EraseLen(l, end) + CopyWork(mem, l, CopyLen(l, end), 0)
  }

  lemma InstallSpends(mem: seq<byte>, n: nat, l: Layout, t: Trust, c: ValidImage)
    requires Accepts(mem, l, t, c) && c.end <= MaxLen(l) && CopyLen(l, c.end) <= l.slotSize
    ensures var r, work := InstallRun(mem, Fails(n), l, t, c), InstallWork(mem, l, c.end);
            && (r.result.Ok? <==> n >= work)
            && (r.result.Ok? ==> r.supply == Fails(n - work))
  {
    hide Aligned, EraseLen, CopyLen, CopyRun, CopyWork, Verdict, Partial;
    CandidateLengths(mem, l, t, c);
    var erased, k := InstallProgress(mem, Fails(n), l, t);
    var e := EraseRun(mem, Fails(n), l.primary, l.primary + EraseLen(l, c.end));
    if e.result.Ok? {
      CopySpends(e.mem, n - EraseLen(l, c.end), l, CopyLen(l, c.end), 0);
      WorkKept(mem, e.mem, l, CopyLen(l, c.end), 0);
    }
  }

  /** The losses after which the request is gone: long enough to install and to erase the first byte of
      the request. */
  predicate DropsRequest(origin: seq<byte>, l: Layout, end: nat, n: nat)
    requires Fits(l, |origin|) && CopyLen(l, end) <= l.slotSize
  {
    n + BOOT_MAGIC_LEN > InstallWork(origin, l, end) + l.sectorSize
  }

  /** The losses that tear the header of a pending upgrade. */
  predicate InWindow(origin: seq<byte>, l: Layout, end: nat, n: nat)
    requires Fits(l, |origin|)
  {
    n >= EraseLen(l, end) && TearsRelease(HeaderBytes(origin, l.secondary), n - EraseLen(l, end))
  }

  /** Whether a boot tears the header of a pending upgrade shows in the initial flash. */
  lemma WindowIsTear(origin: seq<byte>, mem: seq<byte>, n: nat, l: Layout, t: Trust, c: ValidImage)
    requires Accepts(origin, l, t, c) && Pending(origin, mem, l, c)
    ensures TearsHeader(mem, l, t, n) <==> InWindow(origin, l, c.end, n)
  {
    hide Aligned, EraseLen, Verdict, IsDowngrade, Requested, TearsRelease;
    StillCandidate(origin, mem, l, t, c);
  }

  /** What an interrupted boot leaves of a pending upgrade that it does not tear. */
  lemma PendingSpends(origin: seq<byte>, mem: seq<byte>, n: nat, l: Layout, t: Trust, c: ValidImage)
    requires Accepts(origin, l, t, c) && Pending(origin, mem, l, c) && CopyLen(l, c.end) <= l.slotSize
    requires !TearsHeader(mem, l, t, n)
    ensures var after := BootRun(mem, Fails(n), l, t).mem;
            if DropsRequest(origin, l, c.end, n) then Completed(origin, after, l, c) else Pending(origin, after, l, c)
  {
    hide Aligned, EraseLen, CopyLen, CopyWork, Verdict, IsDowngrade, Requested, TearsHeader, InstallRun, DropRun,
         Dropped, Kept, HoldsCandidate;
    StillCandidate(origin, mem, l, t, c);
    CandidateLengths(mem, l, t, c);
    WorkOfCandidate(origin, mem, l, c);
    InstallSpends(mem, n, l, t, c);
    InstallOutcome(origin, mem, Fails(n), l, t, c);
    PendingBoot(origin, mem, Fails(n), l, t, c);
    var i := InstallRun(mem, Fails(n), l, t, c);
    if i.result.Ok? {
      var a, b := DropProgress(i.mem, i.supply, l, Installed);
      DroppedKeeps(i.mem, l, a, b);
    }
  }

  lemma WorkOfCandidate(origin: seq<byte>, mem: seq<byte>, l: Layout, c: ValidImage)
    requires Fits(l, |origin|) && Pending(origin, mem, l, c) && CopyLen(l, c.end) <= MaxLen(l)
    ensures InstallWork(mem, l, c.end) == InstallWork(origin, l, c.end)
  {
    hide Aligned, EraseLen, CopyLen, CopyWork, IsDowngrade, Requested;
    WorkKept(origin, mem, l, CopyLen(l, c.end), 0);
  }

  // ----- Whole runs

  /** No loss tears the header before one has dropped the request. */
  predicate Survives(origin: seq<byte>, l: Layout, end: nat, ns: seq<nat>)
    requires Fits(l, |origin|) && CopyLen(l, end) <= l.slotSize
  {
    forall i :: 0 <= i < |ns| && InWindow(origin, l, end, ns[i]) ==>
      exists j :: 0 <= j < i && DropsRequest(origin, l, end, ns[j])
  }

  lemma SurvivesFirst(origin: seq<byte>, l: Layout, end: nat, ns: seq<nat>)
    requires Fits(l, |origin|) && CopyLen(l, end) <= l.slotSize && ns != []
    ensures Survives(origin, l, end, ns) <==>
      && !InWindow(origin, l, end, ns[0])
      && (DropsRequest(origin, l, end, ns[0]) || Survives(origin, l, end, ns[1..]))
  {
    hide Aligned, InWindow, DropsRequest, CopyLen;
    var rest := ns[1..];
    if Survives(origin, l, end, ns) && !DropsRequest(origin, l, end, ns[0]) {
      forall i | 0 <= i < |rest| && InWindow(origin, l, end, rest[i])
        ensures exists j :: 0 <= j < i && DropsRequest(origin, l, end, rest[j])
      {
        assert InWindow(origin, l, end, ns[i + 1]);
        var j :| 0 <= j < i + 1 && DropsRequest(origin, l, end, ns[j]);
        assert rest[j - 1] == ns[j];
      }
    }
    if !InWindow(origin, l, end, ns[0]) && Survives(origin, l, end, rest) {
      forall i | 0 <= i < |ns| && InWindow(origin, l, end, ns[i])
        ensures exists j :: 0 <= j < i && DropsRequest(origin, l, end, ns[j])
      {
        assert rest[i - 1] == ns[i];
        var j :| 0 <= j < i - 1 && DropsRequest(origin, l, end, rest[j]);
        assert ns[j + 1] == rest[j];
      }
    }
  }

  lemma {:induction false} CompletedNeverTears(
      origin: seq<byte>, mem: seq<byte>, ns: seq<nat>, l: Layout, t: Trust, c: ValidImage)
    requires Accepts(origin, l, t, c) && |mem| == |origin| && Completed(origin, mem, l, c)
    ensures NeverTears(mem, ns, l, t)
    decreases |ns|
  {
    hide Aligned, Verdict, BootRun, TearsHeader, Completed;
    if ns != [] {
      CompletedCannotTear(origin, mem, ns[0], l, t, c);
      CompletedStays(origin, mem, ns[0], l, t, c);
      CompletedNeverTears(origin, BootRun(mem, Fails(ns[0]), l, t).mem, ns[1..], l, t, c);
    }
  }

  lemma CompletedStays(origin: seq<byte>, mem: seq<byte>, n: nat, l: Layout, t: Trust, c: ValidImage)
    requires Accepts(origin, l, t, c) && |mem| == |origin| && Completed(origin, mem, l, c)
    ensures Completed(origin, BootRun(mem, Fails(n), l, t).mem, l, c)
  {
    hide Aligned, Verdict, BootRun, Completed;
    CompletedBoot(origin, mem, Fails(n), l, t, c);
  }

  /** The condition of `PowerFailSafety`, without running a boot. */
  lemma {:induction false} SurvivesIsNeverTears(
      origin: seq<byte>, mem: seq<byte>, ns: seq<nat>, l: Layout, t: Trust, c: ValidImage)
    requires Accepts(origin, l, t, c) && |mem| == |origin| && Pending(origin, mem, l, c)
    requires CopyLen(l, c.end) <= l.slotSize
    ensures NeverTears(mem, ns, l, t) <==> Survives(origin, l, c.end, ns)
    decreases |ns|
  {
    hide Aligned, CopyLen, Verdict, BootRun, TearsHeader, Pending, Completed, Survives, InWindow, DropsRequest;
    if ns == [] {
      NothingToSurvive(origin, l, c.end);
    } else {
      var mem' := BootRun(mem, Fails(ns[0]), l, t).mem;
      SurvivesFirst(origin, l, c.end, ns);
      WindowIsTear(origin, mem, ns[0], l, t, c);
      if !TearsHeader(mem, l, t, ns[0]) {
        PendingSpends(origin, mem, ns[0], l, t, c);
        if DropsRequest(origin, l, c.end, ns[0]) {
          CompletedNeverTears(origin, mem', ns[1..], l, t, c);
        } else {
          SurvivesIsNeverTears(origin, mem', ns[1..], l, t, c);
        }
      }
    }
  }

  lemma NothingToSurvive(origin: seq<byte>, l: Layout, end: nat)
    requires Fits(l, |origin|) && CopyLen(l, end) <= l.slotSize
    ensures Survives(origin, l, end, [])
  {}

  /** Power-fail safety in closed form. The upgrade to a valid, requested candidate that is not a downgrade
      survives a list of power losses exactly when no loss falls into the header window before one was
      long enough to drop the request: a condition on the flash before the first boot and the losses. */
  lemma SafetyByLosses(mem: seq<byte>, ns: seq<nat>, l: Layout, t: Trust)
    requires Fits(l, |mem|) && Requested(mem, l) && Verdict(mem, l, l.secondary, t).Ok?
    requires !IsDowngrade(mem, l, Verdict(mem, l, l.secondary, t).value)
    ensures var c := Verdict(mem, l, l.secondary, t).value;
            && CopyLen(l, c.end) <= l.slotSize
            && (Recovered(mem, BootRun(AfterBoots(mem, ns, l, t), Stable, l, t), l, c) <==> Survives(mem, l, c.end, ns))
  {
    hide Aligned, CopyLen, EraseLen, BootRun, Verdict, IsDowngrade, Requested, Recovered, NeverTears, AfterBoots,
         Survives;
    var c := Verdict(mem, l, l.secondary, t).value;
    CandidateLengths(mem, l, t, c);
    PowerFailSafety(mem, ns, l, t);
    SurvivesIsNeverTears(mem, mem, ns, l, t, c);
  }
}
