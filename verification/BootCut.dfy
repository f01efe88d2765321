/**
 Boots that stop: what `BootLoader`'s runs do with a supply that is just used up. With it, a boot that a
 failed read ends early is compared with one that a power loss ends early.
 */
module BootCut {
  import opened Wrappers
  import opened Bytes
  import opened Arithmetic
  import opened NorFlashModel
  import opened BootImage
  import opened BootLoader
  import opened BootSteps

  /** The run ended with the flash `now`, and nothing of the supply is left for more. */
  predicate Stopped<T>(o: Outcome<T>, now: seq<byte>) {
    o.mem == now && (o.result.Ok? ==> o.supply == Fails(0))
  }

  // ----- Erasing

  lemma EraseMore(mem: seq<byte>, from: nat, to: nat, m: nat)
    requires from <= to <= |mem|
    ensures EraseRun(mem, Fails(to - from + m), from, to) == Outcome(Erased(mem, from, to), Fails(m), Ok(()))
  {}

  lemma EraseIdle(mem: seq<byte>, from: nat, to: nat)
    requires from <= to <= |mem|
    ensures var r := EraseRun(mem, Fails(0), from, to); r.mem == mem && r.supply == Fails(0)
  {
    assert Erased(mem, from, from) == mem;
  }

  // ----- Copying

  function ChunkAt(mem: seq<byte>, l: Layout, total: nat, offset: nat): seq<byte>
    requires Fits(l, |mem|) && offset < total <= l.slotSize
  {
    mem[l.secondary + offset..l.secondary + offset + Chunk(total, offset)]
  }

  lemma WriteIdle(mem: seq<byte>, at: nat, data: seq<byte>)
    requires at + |data| <= |mem|
    ensures var r := WriteRun(mem, Fails(0), at, data);
            r.mem == mem && r.supply == Fails(0) && (data != [] ==> r.result.Err?)
  {
    assert Programmed(mem, at, data[..0]) == mem;
  }

  lemma {:induction false} CopyIdle(mem: seq<byte>, l: Layout, total: nat, offset: nat)
    requires Fits(l, |mem|) && offset <= total <= l.slotSize
    ensures var r := CopyRun(mem, Fails(0), l, total, offset); r.mem == mem && r.supply == Fails(0)
    decreases total - offset
  {
    hide Aligned, Blank, WriteRun;
    if offset < total {
      var data := ChunkAt(mem, l, total, offset);
      CopyUnfolds(mem, Fails(0), l, total, offset);
      WriteIdle(mem, l.primary + offset, data);
      if Blank(data) { CopyIdle(mem, l, total, offset + Chunk(total, offset)); }
    }
  }

  /** One chunk, with supply to spare or without. */
  lemma CopyChunkCut(mem: seq<byte>, l: Layout, total: nat, offset: nat, d: nat, m: nat)
    requires Fits(l, |mem|) && offset < total <= l.slotSize && d <= Chunk(total, offset)
    ensures var data, at, next := ChunkAt(mem, l, total, offset), l.primary + offset, offset + Chunk(total, offset);
            if Blank(data) then
              CopyRun(mem, Fails(m), l, total, offset) == CopyRun(mem, Fails(m), l, total, next)
            else
              && (d < |data| ==>
                    var r := CopyRun(mem, Fails(d), l, total, offset);
                    r.mem == Programmed(mem, at, data[..d]) && r.result.Err?)
              && CopyRun(mem, Fails(|data| + m), l, total, offset)
                 == CopyRun(Programmed(mem, at, data), Fails(m), l, total, next)
  {
    hide Aligned, Blank, CopyRun, Programmed;
    var data := ChunkAt(mem, l, total, offset);
    CopyUnfolds(mem, Fails(m), l, total, offset);
    CopyUnfolds(mem, Fails(d), l, total, offset);
    CopyUnfolds(mem, Fails(|data| + m), l, total, offset);
    assert data[..|data|] == data;
  }

  /** After `cut` bytes of work the copy stands at `offset`, and `now` is the flash. */
  ghost predicate CopyAt(was: seq<byte>, now: seq<byte>, l: Layout, total: nat, offset: nat, cut: nat, m: nat)
    requires Fits(l, |was|) && |was| == |now| && offset <= total <= l.slotSize
  {
    CopyRun(was, Fails(cut + m), l, total, 0) == CopyRun(now, Fails(m), l, total, offset)
  }

  ghost predicate CopyStands(was: seq<byte>, now: seq<byte>, l: Layout, total: nat, offset: nat, cut: nat)
    requires Fits(l, |was|) && |was| == |now| && offset <= total <= l.slotSize
  {
    forall m: nat :: CopyAt(was, now, l, total, offset, cut, m)
  }

  lemma CopyStandsFirst(mem: seq<byte>, l: Layout, total: nat)
    requires Fits(l, |mem|) && total <= l.slotSize
    ensures CopyStands(mem, mem, l, total, 0, 0)
  {}

  lemma CopyStandsNext(was: seq<byte>, now: seq<byte>, l: Layout, total: nat, offset: nat, cut: nat)
    requires Fits(l, |was|) && |was| == |now| && offset < total <= l.slotSize
    requires CopyStands(was, now, l, total, offset, cut)
    ensures var data, next := ChunkAt(now, l, total, offset), offset + Chunk(total, offset);
            if Blank(data) then CopyStands(was, now, l, total, next, cut)
            else CopyStands(was, Programmed(now, l.primary + offset, data), l, total, next, cut + |data|)
  {
    hide Aligned, Blank, CopyRun, Programmed;
    var data, next := ChunkAt(now, l, total, offset), offset + Chunk(total, offset);
    if Blank(data) {
      forall m: nat ensures CopyAt(was, now, l, total, next, cut, m) {
        assert CopyAt(was, now, l, total, offset, cut, m);
        CopyChunkCut(now, l, total, offset, 0, m);
      }
    } else {
      var after, cut' := Programmed(now, l.primary + offset, data), cut + |data|;
      forall m: nat ensures CopyAt(was, after, l, total, next, cut', m) {
        assert CopyAt(was, now, l, total, offset, cut, |data| + m);
        CopyChunkCut(now, l, total, offset, 0, m);
      }
    }
  }

  /** Stopping where the copy stands. */
  lemma CopyStops(was: seq<byte>, now: seq<byte>, l: Layout, total: nat, offset: nat, cut: nat)
    requires Fits(l, |was|) && |was| == |now| && offset <= total <= l.slotSize
    requires CopyStands(was, now, l, total, offset, cut)
    ensures var r := CopyRun(was, Fails(cut), l, total, 0); r.mem == now && r.supply == Fails(0)
  {
    hide Aligned, CopyRun;
    assert CopyAt(was, now, l, total, offset, cut, 0);
    CopyIdle(now, l, total, offset);
  }

  /** Stopping inside the chunk at which the copy stands. */
  lemma CopyTears(was: seq<byte>, now: seq<byte>, l: Layout, total: nat, offset: nat, cut: nat, d: nat)
    requires Fits(l, |was|) && |was| == |now| && offset < total <= l.slotSize && d < Chunk(total, offset)
    requires CopyStands(was, now, l, total, offset, cut) && !Blank(ChunkAt(now, l, total, offset))
    ensures var r := CopyRun(was, Fails(cut + d), l, total, 0);
            r.mem == Programmed(now, l.primary + offset, ChunkAt(now, l, total, offset)[..d]) && r.result.Err?
  {
    hide Aligned, Blank, CopyRun, Programmed;
    assert CopyAt(was, now, l, total, offset, cut, d);
    CopyChunkCut(now, l, total, offset, d, 0);
  }

  // ----- Installing

  ghost predicate InstalledAt(was: seq<byte>, now: seq<byte>, l: Layout, t: Trust, image: ValidImage, cut: nat, m: nat)
    requires Fits(l, |was|) && image.end <= MaxLen(l)
  {
    InstallRun(was, Fails(cut + m), l, t, image) == Outcome(now, Fails(m), Ok(()))
  }

  /** The install has succeeded with `cut` bytes of work. */
  ghost predicate InstalledBy(was: seq<byte>, now: seq<byte>, l: Layout, t: Trust, image: ValidImage, cut: nat)
    requires Fits(l, |was|) && image.end <= MaxLen(l)
  {
    forall m: nat :: InstalledAt(was, now, l, t, image, cut, m)
  }

  /** What a copy that stopped means for the install. */
  lemma InstallCut(was: seq<byte>, now: seq<byte>, l: Layout, t: Trust, image: ValidImage, cut: nat)
    requires Fits(l, |was|) && image.end <= MaxLen(l) && |was| == |now|
    requires CopyLen(l, image.end) <= EraseLen(l, image.end) <= l.slotSize
    requires var e := Erased(was, l.primary, l.primary + EraseLen(l, image.end));
             Stopped(CopyRun(e, Fails(cut), l, CopyLen(l, image.end), 0), now)
    ensures Stopped(InstallRun(was, Fails(EraseLen(l, image.end) + cut), l, t, image), now)
  {
    hide Aligned, CopyRun, CopyLen, EraseLen, Verdict;
    EraseMore(was, l.primary, l.primary + EraseLen(l, image.end), cut);
  }

  lemma InstallDone(was: seq<byte>, now: seq<byte>, l: Layout, t: Trust, image: ValidImage, cut: nat)
    requires Fits(l, |was|) && image.end <= MaxLen(l) && |was| == |now|
    requires CopyLen(l, image.end) <= EraseLen(l, image.end) <= l.slotSize
    requires var e := Erased(was, l.primary, l.primary + EraseLen(l, image.end));
             CopyStands(e, now, l, CopyLen(l, image.end), CopyLen(l, image.end), cut)
    requires Verdict(now, l, l.primary, t).Ok? && Verdict(now, l, l.primary, t).value.digest == image.digest
    ensures InstalledBy(was, now, l, t, image, EraseLen(l, image.end) + cut)
  {
    hide Aligned, CopyLen, EraseLen, Verdict;
    var n, total := EraseLen(l, image.end), CopyLen(l, image.end);
    var e := Erased(was, l.primary, l.primary + n);
    var cut' := n + cut;
    forall m: nat ensures InstalledAt(was, now, l, t, image, cut', m) {
      EraseMore(was, l.primary, l.primary + n, cut + m);
      assert CopyAt(e, now, l, total, total, cut, m);
    }
  }

  lemma InstallIdle(mem: seq<byte>, l: Layout, t: Trust, image: ValidImage)
    requires Fits(l, |mem|) && image.end <= MaxLen(l)
    ensures Stopped(InstallRun(mem, Fails(0), l, t, image), mem)
  {
    hide Aligned, CopyLen, EraseLen, Verdict, CopyRun, EraseRun;
    LengthsFit(l, |mem|, image.end);
    EraseIdle(mem, l.primary, l.primary + EraseLen(l, image.end));
    CopyIdle(mem, l, CopyLen(l, image.end), 0);
  }

  // ----- Dropping and the whole request

  lemma DropIdle(mem: seq<byte>, l: Layout, update: Update)
    requires Fits(l, |mem|)
    ensures var r := DropRun(mem, Fails(0), l, update); r.mem == mem && r.supply == Fails(0)
  {
    hide Aligned;
    EraseIdle(mem, TrailerSector(l), TrailerSector(l) + l.sectorSize);
    EraseIdle(mem, l.secondary, l.secondary + l.sectorSize);
  }

  /** The work a drop gets done. */
  function DropWork(l: Layout, supply: Supply): nat {
    Done(supply, 2 * l.sectorSize)
  }

  lemma DropCut(mem: seq<byte>, supply: Supply, l: Layout, update: Update)
    requires Fits(l, |mem|)
    ensures var r, c := DropRun(mem, supply, l, update), DropRun(mem, Fails(DropWork(l, supply)), l, update);
            Stopped(c, r.mem) && (r.result.Ok? ==> r.result == Ok(update) && c == Outcome(r.mem, Fails(0), Ok(update)))
  {
    hide Aligned;
  }

  lemma RequestIdle(mem: seq<byte>, l: Layout, t: Trust)
    requires Fits(l, |mem|)
    ensures Stopped(RequestRun(mem, Fails(0), l, t), mem)
  {
    hide Aligned, Verdict, InstallRun, DropRun, Requested, IsDowngrade;
    if Requested(mem, l) {
      var v := Verdict(mem, l, l.secondary, t);
      if v.Err? {
        DropIdle(mem, l, Rejected(v.error));
      } else if IsDowngrade(mem, l, v.value) {
        DropIdle(mem, l, Downgrade);
      } else {
        VerdictEnds(mem, l, l.secondary, t);
        InstallIdle(mem, l, t, v.value);
        DropIdle(mem, l, Installed);
      }
    }
  }

  /** A request that is to be installed. */
  ghost predicate Installs(mem: seq<byte>, l: Layout, t: Trust, image: ValidImage)
    requires Fits(l, |mem|)
  {
    && Requested(mem, l) && Verdict(mem, l, l.secondary, t) == Ok(image)
    && !IsDowngrade(mem, l, image) && image.end <= MaxLen(l)
  }

  lemma RequestCut(was: seq<byte>, now: seq<byte>, l: Layout, t: Trust, image: ValidImage, cut: nat)
    requires Fits(l, |was|) && Installs(was, l, t, image) && Stopped(InstallRun(was, Fails(cut), l, t, image), now)
    ensures Stopped(RequestRun(was, Fails(cut), l, t), now)
  {
    hide Aligned, Verdict, InstallRun, DropRun, Requested, IsDowngrade;
    DropIdle(now, l, Installed);
  }

  lemma RequestInstalled(was: seq<byte>, mid: seq<byte>, supply: Supply, l: Layout, t: Trust, image: ValidImage,
                         cut: nat)
    requires Fits(l, |was|) && Installs(was, l, t, image) && |mid| == |was| && InstalledBy(was, mid, l, t, image, cut)
    ensures var r, c := DropRun(mid, supply, l, Installed), RequestRun(was, Fails(cut + DropWork(l, supply)), l, t);
            && Stopped(c, r.mem)
            && (r.result.Ok? ==> r.result == Ok(Installed) && c == Outcome(r.mem, Fails(0), Ok(Installed)))
  {
    hide Aligned, Verdict, InstallRun, DropRun, Requested, IsDowngrade;
    assert InstalledAt(was, mid, l, t, image, cut, DropWork(l, supply));
    DropCut(mid, supply, l, Installed);
  }
}
