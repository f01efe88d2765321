/**
 What one boot can leave behind: the flash contents at every point where the power may fail.
 */
module BootSteps {
  import opened Wrappers
  import opened Bytes
  import opened Arithmetic
  import opened NorFlashModel
  import opened BootImage
  import opened ImageScan
  import opened BootLoader

  // ----- Comparing slots

  /** The two memories have the same bytes from `lo` up to `hi`. */
  predicate Kept(a: seq<byte>, b: seq<byte>, lo: nat, hi: nat)
    requires hi <= |a| == |b|
  {
    forall i :: lo <= i < hi ==> a[i] == b[i]
  }

  lemma VerdictKept(a: seq<byte>, b: seq<byte>, l: Layout, slot: nat, t: Trust)
    requires Fits(l, |a|) && |b| == |a| && slot + l.slotSize <= |a| && Kept(a, b, slot, slot + MaxLen(l))
    ensures Verdict(a, l, slot, t) == Verdict(b, l, slot, t)
  {
    hide Validate, Aligned;
    var n := Max(HEADER_LEN, MaxLen(l));
    assert n == MaxLen(l);
    assert View(a, slot, n) == View(b, slot, n);
  }

  /** A valid image stays the same valid image wherever its bytes are found. */
  lemma VerdictCopied(a: seq<byte>, from: nat, b: seq<byte>, to: nat, l: Layout, t: Trust)
    requires Fits(l, |a|) && |b| == |a| && from + l.slotSize <= |a| && to + l.slotSize <= |a|
    requires Verdict(a, l, from, t).Ok? && Verdict(a, l, from, t).value.end <= MaxLen(l)
    requires var n := Verdict(a, l, from, t).value.end; a[from..from + n] == b[to..to + n]
    ensures Verdict(b, l, to, t) == Verdict(a, l, from, t)
  {
    hide Validate, Aligned;
    var n := Max(HEADER_LEN, MaxLen(l));
    var end := Verdict(a, l, from, t).value.end;
    forall i | 0 <= i < end ensures View(a, from, n)[i] == View(b, to, n)[i] {
      assert a[from..from + end][i] == b[to..to + end][i];
    }
    ValidateIsLocal(View(a, from, n), View(b, to, n), MaxLen(l), t);
  }

  /** The header of a valid image is the header the loader reads in front of it. */
  lemma VerdictHeader(mem: seq<byte>, l: Layout, slot: nat, t: Trust)
    requires Fits(l, |mem|) && slot + l.slotSize <= |mem| && Verdict(mem, l, slot, t).Ok?
    ensures ParseHeader(mem[slot..slot + HEADER_LEN]) == Some(Verdict(mem, l, slot, t).value.header)
  {
    hide ParseHeader, FrameOf, Judge, Aligned;
    var img := View(mem, slot, Max(HEADER_LEN, MaxLen(l)));
    JudgeKeepsFrame(Frame(img, MaxLen(l)).value, img, t);
    HeaderIsLocal(img, mem[slot..slot + HEADER_LEN]);
  }

  // ----- The copy loop

  /** `mem` with the primary's bytes from `from` up to `k` replaced by the secondary's. */
  function Copied(mem: seq<byte>, l: Layout, from: nat, k: nat): (r: seq<byte>)
    requires Fits(l, |mem|) && from <= k <= l.slotSize
    ensures |r| == |mem|
  {
    seq(|mem|, i requires 0 <= i < |mem| =>
      if l.primary + from <= i < l.primary + k then mem[i - l.primary + l.secondary] else mem[i])
  }

  predicate BlankFrom(mem: seq<byte>, lo: nat, hi: nat)
    requires hi <= |mem|
  {
    forall i :: lo <= i < hi ==> mem[i] == ERASED
  }

  lemma CopiedNone(mem: seq<byte>, l: Layout, a: nat)
    requires Fits(l, |mem|) && a <= l.slotSize
    ensures Copied(mem, l, a, a) == mem
  {}

  lemma CopiedTwice(mem: seq<byte>, l: Layout, a: nat, b: nat, c: nat)
    requires Fits(l, |mem|) && a <= b <= c <= l.slotSize
    ensures Copied(Copied(mem, l, a, b), l, b, c) == Copied(mem, l, a, c)
  {
    hide Aligned;
  }

  lemma CopiedBlank(mem: seq<byte>, l: Layout, a: nat, b: nat)
    requires Fits(l, |mem|) && a <= b <= l.slotSize && BlankFrom(mem, l.primary + a, l.primary + b)
    requires Blank(mem[l.secondary + a..l.secondary + b])
    ensures Copied(mem, l, a, b) == mem
  {
    hide Aligned;
    var s := mem[l.secondary + a..l.secondary + b];
    forall i | l.primary + a <= i < l.primary + b ensures Copied(mem, l, a, b)[i] == mem[i] {
      assert s[i - l.primary - a] == mem[i - l.primary + l.secondary];
    }
  }

  /** Programming erased flash stores the bytes. */
  lemma ProgramBlank(mem: seq<byte>, l: Layout, a: nat, b: nat, done: nat)
    requires Fits(l, |mem|) && a <= b <= l.slotSize && done <= b - a && BlankFrom(mem, l.primary + a, l.primary + b)
    ensures Programmed(mem, l.primary + a, mem[l.secondary + a..l.secondary + b][..done]) == Copied(mem, l, a, a + done)
  {
    hide Aligned, And;
    var bytes := mem[l.secondary + a..l.secondary + b][..done];
    var r := Programmed(mem, l.primary + a, bytes);
    forall i | 0 <= i < |mem| ensures r[i] == Copied(mem, l, a, a + done)[i] {
      if l.primary + a <= i < l.primary + a + done {
        AndErased(bytes[i - (l.primary + a)]);
        assert bytes[i - (l.primary + a)] == mem[i - l.primary + l.secondary];
      }
    }
  }

  lemma WriteCopies(mem: seq<byte>, supply: Supply, l: Layout, a: nat, b: nat)
    requires Fits(l, |mem|) && a < b <= l.slotSize && BlankFrom(mem, l.primary + a, l.primary + b)
    ensures var w := WriteRun(mem, supply, l.primary + a, mem[l.secondary + a..l.secondary + b]);
            var done := Done(supply, b - a);
            && w.mem == Copied(mem, l, a, a + done)
            && w.result == (if done == b - a then Ok(()) else Err(FlashFailed))
            && (supply.Stable? ==> w.supply == Stable)
  {
    hide Aligned;
    ProgramBlank(mem, l, a, b, Done(supply, b - a));
  }

  lemma BlankAfter(mem: seq<byte>, l: Layout, a: nat, b: nat, c: nat)
    requires Fits(l, |mem|) && a <= b <= c <= l.slotSize && BlankFrom(mem, l.primary + a, l.primary + c)
    ensures BlankFrom(Copied(mem, l, a, b), l.primary + b, l.primary + c)
  {
    hide Aligned;
  }

  lemma BlankPart(mem: seq<byte>, lo: nat, mid: nat, hi: nat)
    requires lo <= mid <= hi <= |mem| && BlankFrom(mem, lo, hi)
    ensures BlankFrom(mem, lo, mid) && BlankFrom(mem, mid, hi)
  {}

  lemma CopyUnfolds(mem: seq<byte>, supply: Supply, l: Layout, total: nat, offset: nat)
    requires Fits(l, |mem|) && offset < total <= l.slotSize
    ensures var next := offset + Chunk(total, offset);
            var data := mem[l.secondary + offset..l.secondary + next];
            var w := WriteRun(mem, supply, l.primary + offset, data);
            CopyRun(mem, supply, l, total, offset) ==
              if Blank(data) then CopyRun(mem, supply, l, total, next)
              else if w.result.Err? then w
              else CopyRun(w.mem, w.supply, l, total, next)
  {
    hide Blank, WriteRun, Aligned;
  }

  /** However the copy loop ends, it has copied the bytes up to some `k` and left the rest erased. */
  lemma {:induction false} CopyProgress(mem: seq<byte>, supply: Supply, l: Layout, total: nat, offset: nat)
    returns (k: nat)
    requires Fits(l, |mem|) && offset <= total <= l.slotSize && BlankFrom(mem, l.primary + offset, l.primary + total)
    ensures offset <= k <= total
    ensures var r := CopyRun(mem, supply, l, total, offset);
            && r.mem == Copied(mem, l, offset, k)
            && (r.result == Ok(()) || r.result == Err(FlashFailed))
            && (r.result.Ok? ==> k == total)
            && (supply.Stable? ==> r.result.Ok? && r.supply == Stable)
    decreases total - offset
  {
    hide Blank, Aligned, WriteRun, BlankFrom, Copied;
    if offset == total {
      k := offset;
      CopiedNone(mem, l, offset);
    } else {
      var next := offset + Chunk(total, offset);
      var data := mem[l.secondary + offset..l.secondary + next];
      CopyUnfolds(mem, supply, l, total, offset);
      BlankPart(mem, l.primary + offset, l.primary + next, l.primary + total);
      if Blank(data) {
        CopiedBlank(mem, l, offset, next);
        k := CopyProgress(mem, supply, l, total, next);
      } else {
        WriteCopies(mem, supply, l, offset, next);
        var w := WriteRun(mem, supply, l.primary + offset, data);
        if w.result.Err? {
          k := offset + Done(supply, next - offset);
          return;
        }
        BlankAfter(mem, l, offset, next, total);
        k := CopyProgress(w.mem, w.supply, l, total, next);
      }
      CopiedTwice(mem, l, offset, next, k);
    }
  }

  /** The first chunk, unless blank, is torn at the byte where the power fails. */
  lemma FirstChunk(mem: seq<byte>, n: nat, l: Layout, total: nat) returns (k: nat)
    requires Fits(l, |mem|) && 0 < total <= l.slotSize && BlankFrom(mem, l.primary, l.primary + total)
    requires !Blank(mem[l.secondary..l.secondary + Chunk(total, 0)])
    ensures k <= total && CopyRun(mem, Fails(n), l, total, 0).mem == Copied(mem, l, 0, k)
    ensures if n < Chunk(total, 0) then k == n else k >= Chunk(total, 0)
    ensures CopyRun(mem, Fails(n), l, total, 0).result.Ok? ==> k == total
  {
    hide Blank, Aligned, WriteRun, BlankFrom, Copied;
    var next := Chunk(total, 0);
    CopyUnfolds(mem, Fails(n), l, total, 0);
    BlankPart(mem, l.primary, l.primary + next, l.primary + total);
    WriteCopies(mem, Fails(n), l, 0, next);
    assert l.primary + 0 == l.primary && l.secondary + 0 == l.secondary;
    var w := WriteRun(mem, Fails(n), l.primary, mem[l.secondary..l.secondary + next]);
    if w.result.Err? {
      k := n;
    } else {
      BlankAfter(mem, l, 0, next, total);
      k := CopyProgress(w.mem, w.supply, l, total, next);
      CopiedTwice(mem, l, 0, next, k);
    }
  }

  // ----- Installing

  /** The first bytes of everything that has a header. */
  lemma MagicBytes(bytes: seq<byte>)
    requires |bytes| >= HEADER_LEN && ParseHeader(bytes).Some?
    ensures bytes[0] == 0x3D && bytes[1] == 0xB8 && bytes[2] == 0xF3 && bytes[3] == 0x96
  {
  }

  /** The primary erased over `n` bytes, and the secondary's first `k` copied into it. */
  function Partial(mem: seq<byte>, l: Layout, n: nat, k: nat): (r: seq<byte>)
    requires Fits(l, |mem|) && k <= n <= l.slotSize
    ensures |r| == |mem|
  {
    Copied(Erased(mem, l.primary, l.primary + n), l, 0, k)
  }

  lemma PartialAt(mem: seq<byte>, l: Layout, n: nat, k: nat)
    requires Fits(l, |mem|) && k <= n <= l.slotSize
    ensures var r := Partial(mem, l, n, k);
            && (forall i :: 0 <= i < |mem| && !(l.primary <= i < l.primary + n) ==> r[i] == mem[i])
            && (forall i :: l.primary <= i < l.primary + k ==> r[i] == mem[i - l.primary + l.secondary])
            && (forall i :: l.primary + k <= i < l.primary + n ==> r[i] == ERASED)
  {
    hide Aligned;
  }

  lemma PartialPrefix(mem: seq<byte>, l: Layout, n: nat, k: nat, m: nat)
    requires Fits(l, |mem|) && m <= k <= n <= l.slotSize
    ensures mem[l.secondary..l.secondary + m] == Partial(mem, l, n, k)[l.primary..l.primary + m]
  {
    hide Aligned, Partial;
    PartialAt(mem, l, n, k);
  }

  lemma FirstChunkNotBlank(mem: seq<byte>, l: Layout, t: Trust, total: nat)
    requires Fits(l, |mem|) && Verdict(mem, l, l.secondary, t).Ok? && HEADER_LEN <= total <= l.slotSize
    ensures !Blank(mem[l.secondary..l.secondary + Chunk(total, 0)])
  {
    hide Aligned, Verdict, ParseHeader;
    VerdictHeader(mem, l, l.secondary, t);
    MagicBytes(mem[l.secondary..l.secondary + HEADER_LEN]);
    assert mem[l.secondary..l.secondary + Chunk(total, 0)][0] == mem[l.secondary..l.secondary + HEADER_LEN][0];
  }

  lemma CopyInto(mem: seq<byte>, supply: Supply, l: Layout, t: Trust, n: nat, total: nat) returns (k: nat)
    requires Fits(l, |mem|) && Verdict(mem, l, l.secondary, t).Ok? && HEADER_LEN <= total <= n <= l.slotSize
    ensures k <= total
    ensures var r := CopyRun(Erased(mem, l.primary, l.primary + n), supply, l, total, 0);
            && r.mem == Partial(mem, l, n, k)
            && (r.result == Ok(()) || r.result == Err(FlashFailed))
            && (r.result.Ok? ==> k == total)
            && (supply.Stable? ==> r.result.Ok? && r.supply == Stable)
    ensures supply.Fails? ==> if supply.after < 24 then k == supply.after else k >= 24
  {
    hide Aligned, Verdict, CopyRun, Blank, Copied;
    var e := Erased(mem, l.primary, l.primary + n);
    if supply.Stable? {
      k := CopyProgress(e, supply, l, total, 0);
    } else {
      FirstChunkNotBlank(mem, l, t, total);
      var c := Chunk(total, 0);
      assert e[l.secondary..l.secondary + c] == mem[l.secondary..l.secondary + c];
      k := FirstChunk(e, supply.after, l, total);
      var k' := CopyProgress(e, supply, l, total, 0);
    }
  }

  /** However an install ends: the primary erased up to some byte, or erased as far as the image
      needs and copied up to some byte `k`; never a copy that fails to validate. */
  lemma InstallProgress(mem: seq<byte>, supply: Supply, l: Layout, t: Trust) returns (erased: nat, k: nat)
    requires Fits(l, |mem|) && Verdict(mem, l, l.secondary, t).Ok?
    ensures var end := Verdict(mem, l, l.secondary, t).value.end;
            && end <= MaxLen(l) && erased <= EraseLen(l, end) <= MaxLen(l) && k <= CopyLen(l, end) <= EraseLen(l, end)
    ensures var c := Verdict(mem, l, l.secondary, t).value;
            var r := InstallRun(mem, supply, l, t, c);
            var n := EraseLen(l, c.end);
            && r.mem == (if erased < n then Erased(mem, l.primary, l.primary + erased) else Partial(mem, l, n, k))
            && (r.result == Err(FlashFailed) || (r.result == Ok(()) && erased == n && k == CopyLen(l, c.end)))
            && (supply.Stable? ==> r.result.Ok? && r.supply == Stable)
            && (supply.Fails? ==>
                  && erased == Done(supply, n)
                  && (supply.after >= n ==> if supply.after - n < 24 then k == supply.after - n else k >= 24))
  {
    hide Aligned, Verdict, CopyRun, Partial;
    var c := Verdict(mem, l, l.secondary, t).value;
    VerdictEnds(mem, l, l.secondary, t);
    LengthsFit(l, |mem|, c.end);
    var n, total := EraseLen(l, c.end), CopyLen(l, c.end);
    var e := EraseRun(mem, supply, l.primary, l.primary + n);
    erased := Done(supply, n);
    if e.result.Err? {
      k := 0;
    } else {
      k := CopyInto(mem, e.supply, l, t, n, total);
      if CopyRun(e.mem, e.supply, l, total, 0).result.Ok? {
        PartialPrefix(mem, l, n, k, c.end);
        VerdictCopied(mem, l.secondary, Partial(mem, l, n, k), l.primary, l, t);
      }
    }
  }

  // ----- Dropping the request

  function Dropped(mem: seq<byte>, l: Layout, a: nat, b: nat): (r: seq<byte>)
    requires Fits(l, |mem|) && a <= l.sectorSize && b <= l.sectorSize
    ensures |r| == |mem|
  {
    Erased(Erased(mem, TrailerSector(l), TrailerSector(l) + a), l.secondary, l.secondary + b)
  }

  lemma DropProgress(mem: seq<byte>, supply: Supply, l: Layout, update: Update) returns (a: nat, b: nat)
    requires Fits(l, |mem|)
    ensures a == Done(supply, l.sectorSize) && b <= l.sectorSize && (b > 0 ==> a == l.sectorSize)
    ensures var r := DropRun(mem, supply, l, update);
            && r.mem == Dropped(mem, l, a, b)
            && (r.result == Err(FlashFailed) || (r.result == Ok(update) && a == l.sectorSize))
            && (supply.Stable? ==> r.result.Ok?)
  {
    hide Aligned;
    var e := EraseRun(mem, supply, TrailerSector(l), TrailerSector(l) + l.sectorSize);
    a := Done(supply, l.sectorSize);
    if e.result.Err? {
      b := 0;
      assert Erased(e.mem, l.secondary, l.secondary) == e.mem;
    } else {
      b := Done(e.supply, l.sectorSize);
    }
  }

  /** Dropping touches only the first and the last sector of the secondary slot; the request goes before the
      image does, and goes with its first byte. */
  lemma DroppedKeeps(mem: seq<byte>, l: Layout, a: nat, b: nat)
    requires Fits(l, |mem|) && a <= l.sectorSize && b <= l.sectorSize && (b > 0 ==> a == l.sectorSize)
    ensures var r := Dropped(mem, l, a, b);
            && (forall i ::
                  (&& 0 <= i < |mem|
                   && !(l.secondary <= i < l.secondary + l.sectorSize)
                   && !(TrailerSector(l) <= i < TrailerSector(l) + l.sectorSize)) ==> r[i] == mem[i])
            && (Requested(r, l) ==> Kept(mem, r, l.secondary, l.secondary + MaxLen(l)))
            && (Requested(r, l) <==> Requested(mem, l) && a + BOOT_MAGIC_LEN <= l.sectorSize)
  {
    hide Aligned;
    var r, end := Dropped(mem, l, a, b), l.secondary + l.slotSize;
    var old', new' := mem[end - BOOT_MAGIC_LEN..end], r[end - BOOT_MAGIC_LEN..end];
    if a + BOOT_MAGIC_LEN > l.sectorSize {
      assert new'[0] == ERASED;
      assert BOOT_MAGIC[0] == 0x77;
    } else {
      assert new' == old';
    }
  }
}
