/**
 `validate` as the code runs it (mcuboot-image/src/image.rs:160-286): reads of flash at absolute
 addresses, a streamed hash and one pass over the TLVs, proved to reach the declarative verdict.
 */
module ImageScan {
  import opened Wrappers
  import opened Bytes
  import opened DerSignature
  import opened NorFlashModel
  import opened BootImage

  // ----- One more entry

  lemma HashOkSnoc(ts: seq<Tlv>, x: Tlv, digest: seq<byte>)
    ensures HashOk(ts + [x], digest) <==> if x.kind == TLV_SHA256 then x.value == digest else HashOk(ts, digest)
  {
    var all := ts + [x];
    assert all[|ts|] == x && all[..|ts|] == ts;
    if HashOk(all, digest) {
      var i :| 0 <= i < |all| && all[i].kind == TLV_SHA256 && all[i].value == digest
               && forall j :: i < j < |all| ==> all[j].kind != TLV_SHA256;
      if i < |ts| {
        assert ts[i] == all[i] && forall j :: i < j < |ts| ==> ts[j] == all[j];
      }
    }
    if x.kind != TLV_SHA256 && HashOk(ts, digest) {
      var i :| 0 <= i < |ts| && ts[i].kind == TLV_SHA256 && ts[i].value == digest
               && forall j :: i < j < |ts| ==> ts[j].kind != TLV_SHA256;
      assert all[i] == ts[i];
    }
  }

  lemma SelectedSnoc(ts: seq<Tlv>, x: Tlv, keyHash: seq<byte>)
    ensures Selected(ts + [x], keyHash) <==> NamesKey(x, keyHash) || (!KeyOrSig(x) && Selected(ts, keyHash))
  {
    var all := ts + [x];
    assert all[|ts|] == x;
    if Selected(all, keyHash) {
      var i :| 0 <= i < |all| && NamesKey(all[i], keyHash) && forall j :: i < j < |all| ==> !KeyOrSig(all[j]);
      if i < |ts| {
        assert ts[i] == all[i] && forall j :: i < j < |ts| ==> ts[j] == all[j];
      }
    }
    if !KeyOrSig(x) && Selected(ts, keyHash) {
      var i :| 0 <= i < |ts| && NamesKey(ts[i], keyHash) && forall j :: i < j < |ts| ==> !KeyOrSig(ts[j]);
      assert all[i] == ts[i];
    }
  }

  lemma SignedSnoc(ts: seq<Tlv>, x: Tlv, digest: seq<byte>, t: Trust)
    ensures Signed(ts + [x], digest, t) <==>
              Signed(ts, digest, t) || (GoodSig(x, digest, t) && Selected(ts, t.KeyHash()))
  {
    hide GoodSig, Selected, Trust.KeyHash;
    var all := ts + [x];
    assert all[|ts|] == x && all[..|ts|] == ts;
    if Signed(all, digest, t) {
      var i :| 0 <= i < |all| && GoodSig(all[i], digest, t) && Selected(all[..i], t.KeyHash());
      if i < |ts| {
        assert ts[i] == all[i] && ts[..i] == all[..i];
      }
    }
    if Signed(ts, digest, t) {
      var i :| 0 <= i < |ts| && GoodSig(ts[i], digest, t) && Selected(ts[..i], t.KeyHash());
      assert all[i] == ts[i] && all[..i] == ts[..i];
    }
  }

  /** The entries of `whole` are `seen` followed by those of `rest`. */
  predicate Scanned(whole: seq<byte>, seen: seq<Tlv>, rest: seq<byte>) {
    ParseTlvs(whole) == match ParseTlvs(rest) case None => None case Some(ts) => Some(seen + ts)
  }

  lemma ScanStart(area: seq<byte>)
    ensures Scanned(area, [], area)
  {
    match ParseTlvs(area)
    case None =>
    case Some(ts) => assert [] + ts == ts;
  }

  lemma ScanStep(whole: seq<byte>, seen: seq<Tlv>, rest: seq<byte>)
    requires Scanned(whole, seen, rest) && |rest| >= 4 && 4 + HalfAt(rest, 2) <= |rest|
    ensures Scanned(whole, seen + [Tlv(HalfAt(rest, 0), rest[4..4 + HalfAt(rest, 2)])], rest[4 + HalfAt(rest, 2)..])
  {
    var next := 4 + HalfAt(rest, 2);
    var x := Tlv(HalfAt(rest, 0), rest[4..next]);
    match ParseTlvs(rest[next..])
    case None =>
    case Some(ts) => assert seen + ([x] + ts) == (seen + [x]) + ts;
  }

  // ----- Reading a slot

  /** The `n` bytes of the slot, with zeros where the device has ended. */
  function View(mem: seq<byte>, slot: nat, n: nat): (r: seq<byte>)
    ensures |r| == n
    ensures forall i :: 0 <= i < n ==> r[i] == if slot + i < |mem| then mem[slot + i] else 0
  {
    seq(n, i requires 0 <= i < n => if slot + i < |mem| then mem[slot + i] else 0)
  }

  function Max(a: nat, b: nat): nat {
    if a <= b then b else a
  }

  lemma ViewSlice(mem: seq<byte>, slot: nat, n: nat, at: nat, len: nat)
    requires at + len <= n && slot + at + len <= |mem|
    ensures mem[slot + at..slot + at + len] == View(mem, slot, n)[at..at + len]
  {}

  /** A read from number `from` on has failed. */
  ghost predicate Faulted(flash: NorFlash, from: nat)
    reads flash
  {
    !Clean(flash.faults, from, |flash.spans|)
  }

  /** `read_array`: `len` bytes at `offset` of the slot, all below `limit`. */
  method ReadArray(flash: NorFlash, slot: nat, offset: nat, limit: nat, len: nat)
    returns (r: Result<seq<byte>, ImageError>)
    requires limit <= U32_MAX
    modifies flash`spans
    ensures ReadsWithin(old(flash.spans), flash.spans, slot, slot + limit)
    ensures offset + len > limit ==> r == Err(Malformed) && flash.spans == old(flash.spans)
    ensures offset + len <= limit && (slot + offset + len > flash.data.Length || Faulted(flash, |old(flash.spans)|)) ==>
              r == Err(Flash)
    ensures offset + len <= limit && slot + offset + len <= flash.data.Length && !Faulted(flash, |old(flash.spans)|) ==>
              r == Ok(View(flash.data[..], slot, limit)[offset..offset + len])
  {
    if offset + len > U32_MAX || offset + len > limit {
      return Err(Malformed);
    }
    var bytes := flash.Read(slot + offset, len);
    match bytes {
      case None => return Err(Flash);
      case Some(b) =>
        assert b == flash.data[..][slot + offset..slot + offset + len];
        ViewSlice(flash.data[..], slot, limit, offset, len);
        return Ok(b);
    }
  }

  /** `hash_range`: the hasher is the bytes fed to it so far. */
  method HashRange(flash: NorFlash, slot: nat, len: nat, sha256: seq<byte> -> seq<byte>)
    returns (r: Result<seq<byte>, ImageError>)
    modifies flash`spans
    ensures ReadsWithin(old(flash.spans), flash.spans, slot, slot + len)
    ensures r.Ok? ==> r.value == sha256(View(flash.data[..], slot, len))
    ensures r.Err? ==> r.error == Flash
    ensures Faulted(flash, |old(flash.spans)|) ==> r.Err?
    ensures slot + len <= flash.data.Length && !Faulted(flash, |old(flash.spans)|) ==> r.Ok?
  {
    var hasher: seq<byte> := [];
    var offset := 0;
    ghost var view := View(flash.data[..], slot, len);
    while offset < len
      invariant offset <= len && hasher == view[..offset]
      invariant ReadsWithin(old(flash.spans), flash.spans, slot, slot + len) && !Faulted(flash, |old(flash.spans)|)
    {
      var chunk := if READ_CHUNK <= len - offset then READ_CHUNK else len - offset;
      var bytes := flash.Read(slot + offset, chunk);
      if bytes == None {
        return Err(Flash);
      }
      assert bytes.value == flash.data[..][slot + offset..slot + offset + chunk];
      ViewSlice(flash.data[..], slot, len, offset, chunk);
      hasher := hasher + bytes.value;
      offset := offset + chunk;
    }
    assert view[..offset] == view;
    return Ok(sha256(hasher));
  }

  // ----- The pass over the TLVs

  datatype Flags = Flags(hashOk: bool, keySelected: bool, signatureOk: bool)

  /** What one entry does to the three flags of the pass. While no signature has verified,
      `keySelected` says that the trusted key is named and not yet consumed. */
  predicate FlagsAfter(x: Tlv, digest: seq<byte>, t: Trust, f: Flags, f': Flags) {
    && f'.hashOk == (if x.kind == TLV_SHA256 then x.value == digest else f.hashOk)
    && f'.signatureOk == (f.signatureOk || (f.keySelected && GoodSig(x, digest, t)))
    && (!f'.signatureOk ==> f'.keySelected == (NamesKey(x, t.KeyHash()) || (!KeyOrSig(x) && f.keySelected)))
  }

  /** The body of the pass for the entry of `kind` whose value is `length` bytes at `at`. */
  method Consider(flash: NorFlash, slot: nat, kind: nat, at: nat, length: nat, end: nat, digest: seq<byte>, t: Trust,
                  f: Flags)
      returns (r: Result<Flags, ImageError>)
    requires at + length <= end <= U32_MAX
    modifies flash`spans
    ensures ReadsWithin(old(flash.spans), flash.spans, slot, slot + end)
    ensures Faulted(flash, |old(flash.spans)|) ==> r == Err(Flash)
    ensures var x := Tlv(kind, View(flash.data[..], slot, end)[at..at + length]);
            || (r == Err(Flash) && (slot + end > flash.data.Length || Faulted(flash, |old(flash.spans)|)))
            || (r == Err(Malformed) && BadSha(x))
            || (r.Ok? && !BadSha(x) && FlagsAfter(x, digest, t, f, r.value))
  {
    hide ParseSignature, Trust.KeyHash;
    if kind == TLV_SHA256 {
      if length != 32 {
        return Err(Malformed);
      }
      var bytes := ReadArray(flash, slot, at, end, 32);
      if bytes.Err? {
        return Err(bytes.error);
      }
      return Ok(f.(hashOk := bytes.value == digest));
    } else if kind == TLV_KEYHASH {
      if length != 32 {
        return Ok(f.(keySelected := false));
      }
      var bytes := ReadArray(flash, slot, at, end, 32);
      if bytes.Err? {
        return Err(bytes.error);
      }
      return Ok(f.(keySelected := bytes.value == t.KeyHash()));
    } else if kind == TLV_ECDSA_SIG && f.keySelected && !f.signatureOk {
      if length > MAX_DER {
        return Ok(f.(keySelected := false));
      }
      var bytes := ReadArray(flash, slot, at, end, length);
      if bytes.Err? {
        return Err(bytes.error);
      }
      var parsed := ParseSignature(bytes.value);
      var good := parsed.Some? && t.verify(t.key, digest, parsed.value.0, parsed.value.1);
      return Ok(f.(keySelected := false, signatureOk := good));
    }
    return Ok(f);
  }

  ghost predicate FlagsFor(ts: seq<Tlv>, digest: seq<byte>, t: Trust, f: Flags) {
    && (f.hashOk <==> HashOk(ts, digest))
    && (f.signatureOk <==> Signed(ts, digest, t))
    && (!f.signatureOk ==> (f.keySelected <==> Selected(ts, t.KeyHash())))
  }

  lemma FlagsSnoc(ts: seq<Tlv>, x: Tlv, digest: seq<byte>, t: Trust, f: Flags, f': Flags)
    requires FlagsFor(ts, digest, t, f) && FlagsAfter(x, digest, t, f, f')
    ensures FlagsFor(ts + [x], digest, t, f')
  {
    HashOkSnoc(ts, x, digest);
    SelectedSnoc(ts, x, t.KeyHash());
    SignedSnoc(ts, x, digest, t);
  }

  /** What the pass makes of a TLV area: whether the hash and a signature check out. */
  ghost function PassOver(area: seq<byte>, digest: seq<byte>, t: Trust): Result<(bool, bool), ImageError> {
    match ParseTlvs(area)
    case None => Err(Malformed)
    case Some(ts) =>
      if exists x :: x in ts && BadSha(x) then Err(Malformed)
      else Ok((HashOk(ts, digest), Signed(ts, digest, t)))
  }

  lemma PassFailsAt(area: seq<byte>, seen: seq<Tlv>, rest: seq<byte>, x: Tlv, digest: seq<byte>, t: Trust)
    requires Scanned(area, seen + [x], rest) && BadSha(x)
    ensures PassOver(area, digest, t) == Err(Malformed)
  {
    if ParseTlvs(rest).Some? {
      var ts := seen + [x] + ParseTlvs(rest).value;
      assert ts[|seen|] == x;
      assert x in ts;
    }
  }

  lemma PassStopsAt(area: seq<byte>, seen: seq<Tlv>, rest: seq<byte>, digest: seq<byte>, t: Trust)
    requires Scanned(area, seen, rest) && ParseTlvs(rest) == None
    ensures PassOver(area, digest, t) == Err(Malformed)
  {}

  lemma PassEnds(area: seq<byte>, seen: seq<Tlv>, rest: seq<byte>, digest: seq<byte>, t: Trust, f: Flags)
    requires Scanned(area, seen, rest) && rest == [] && FlagsFor(seen, digest, t, f)
    requires forall x :: x in seen ==> !BadSha(x)
    ensures PassOver(area, digest, t) == Ok((f.hashOk, f.signatureOk))
  {
    assert seen + [] == seen;
  }

  lemma FlagsStart(digest: seq<byte>, t: Trust)
    ensures FlagsFor([], digest, t, Flags(false, false, false))
  {}

  /** The next entry's kind and length, if the entry fits. */
  method ReadEntry(flash: NorFlash, slot: nat, offset: nat, end: nat) returns (r: Result<(nat, nat), ImageError>)
    requires offset < end <= U32_MAX
    modifies flash`spans
    ensures ReadsWithin(old(flash.spans), flash.spans, slot, slot + end)
    ensures Faulted(flash, |old(flash.spans)|) ==> r == Err(Flash)
    ensures var rest := View(flash.data[..], slot, end)[offset..];
            || (r == Err(Flash) && (slot + end > flash.data.Length || Faulted(flash, |old(flash.spans)|)))
            || (r == Err(Malformed) && ParseTlvs(rest) == None)
            || (r.Ok? && |rest| >= 4 && r.value == (HalfAt(rest, 0), HalfAt(rest, 2)) && 4 + r.value.1 <= |rest|)
  {
    ghost var rest := View(flash.data[..], slot, end)[offset..];
    var entry := ReadArray(flash, slot, offset, end, 4);
    if entry.Err? {
      return Err(entry.error);
    }
    assert entry.value == rest[..4];
    var kind, length := HalfAt(entry.value, 0), HalfAt(entry.value, 2);
    if offset + 4 + length > U32_MAX || offset + 4 + length > end {
      return Err(Malformed);
    }
    return Ok((kind, length));
  }

  lemma SuffixSlices(view: seq<byte>, offset: nat, length: nat)
    requires offset + 4 + length <= |view|
    ensures view[offset..][4..4 + length] == view[offset + 4..offset + 4 + length]
    ensures view[offset..][4 + length..] == view[offset + 4 + length..]
  {}

  method Pass(flash: NorFlash, slot: nat, start: nat, end: nat, digest: seq<byte>, t: Trust)
      returns (r: Result<(bool, bool), ImageError>)
    requires start <= end <= U32_MAX
    modifies flash`spans
    ensures ReadsWithin(old(flash.spans), flash.spans, slot, slot + end)
    ensures r == Err(Flash) || r == PassOver(View(flash.data[..], slot, end)[start..], digest, t)
    ensures Faulted(flash, |old(flash.spans)|) ==> r == Err(Flash)
    ensures slot + end <= flash.data.Length && !Faulted(flash, |old(flash.spans)|) ==> r != Err(Flash)
  {
    hide HashOk, Signed, Selected, FlagsFor, FlagsAfter, Scanned, ParseTlvs, PassOver;
    ghost var view := View(flash.data[..], slot, end);
    ghost var seen: seq<Tlv> := [];
    var offset := start;
    var f := Flags(false, false, false);
    ScanStart(view[start..]);
    FlagsStart(digest, t);
    while offset < end
      invariant start <= offset <= end
      invariant Scanned(view[start..], seen, view[offset..])
      invariant FlagsFor(seen, digest, t, f)
      invariant forall x :: x in seen ==> !BadSha(x)
      invariant ReadsWithin(old(flash.spans), flash.spans, slot, slot + end) && !Faulted(flash, |old(flash.spans)|)
      decreases end - offset
    {
      var entry := ReadEntry(flash, slot, offset, end);
      if entry.Err? {
        if entry.error == Malformed { PassStopsAt(view[start..], seen, view[offset..], digest, t); }
        return Err(entry.error);
      }
      var (kind, length) := entry.value;
      var at := offset + 4;
      ghost var x := Tlv(kind, view[at..at + length]);
      SuffixSlices(view, offset, length);
      ScanStep(view[start..], seen, view[offset..]);
      var f' := Consider(flash, slot, kind, at, length, end, digest, t, f);
      if f'.Err? {
        if f'.error == Malformed { PassFailsAt(view[start..], seen, view[at + length..], x, digest, t); }
        return Err(f'.error);
      }
      FlagsSnoc(seen, x, digest, t, f, f'.value);
      f := f'.value;
      seen := seen + [x];
      offset := at + length;
    }
    PassEnds(view[start..], seen, view[offset..], digest, t, f);
    return Ok((f.hashOk, f.signatureOk));
  }

  // ----- validate

  /** The checks before the digest, as the code orders them. */
  method ReadFrame(flash: NorFlash, slot: nat, maxLen: nat) returns (r: Result<Geometry, ImageError>)
    requires maxLen <= U32_MAX
    modifies flash`spans
    ensures ReadsWithin(old(flash.spans), flash.spans, slot, slot + Max(HEADER_LEN, maxLen))
    ensures r == Err(Flash) || r == Frame(View(flash.data[..], slot, Max(HEADER_LEN, maxLen)), maxLen)
    ensures Faulted(flash, |old(flash.spans)|) ==> r == Err(Flash)
    ensures slot + Max(HEADER_LEN, maxLen) <= flash.data.Length && !Faulted(flash, |old(flash.spans)|) ==>
              r != Err(Flash)
  {
    hide ParseHeader, FrameOf;
    ghost var view := View(flash.data[..], slot, Max(HEADER_LEN, maxLen));
    var bytes := flash.Read(slot, HEADER_LEN);
    if bytes == None {
      return Err(Flash);
    }
    HeaderIsLocal(bytes.value, view);
    var parsed := ParseHeader(bytes.value);
    if parsed == None {
      return Err(NoImage);
    }
    var h := parsed.value;
    r := ReadFrameOf(flash, slot, maxLen, h);
    if r.Ok? || r.error != Flash {
      FrameOfView(flash.data[..], slot, maxLen, h);
    }
  }

  /** Bytes past `maxLen` play no part in the framing. */
  lemma FrameOfView(mem: seq<byte>, slot: nat, maxLen: nat, h: Header)
    ensures FrameOf(h, View(mem, slot, maxLen), maxLen) == FrameOf(h, View(mem, slot, Max(HEADER_LEN, maxLen)), maxLen)
  {
    var a, b := View(mem, slot, maxLen), View(mem, slot, Max(HEADER_LEN, maxLen));
    assert Agree(a, b, maxLen);
    var hashed := HashedLen(h);
    if hashed + 4 <= maxLen {
      assert HalfAt(a, hashed) == HalfAt(b, hashed) && HalfAt(a, hashed + 2) == HalfAt(b, hashed + 2);
      assert ProtectedOk(h, a) == ProtectedOk(h, b);
    }
  }

  /** Four bytes as two little-endian halves. */
  method ReadHalves(flash: NorFlash, slot: nat, offset: nat, limit: nat) returns (r: Result<(nat, nat), ImageError>)
    requires limit <= U32_MAX
    modifies flash`spans
    ensures ReadsWithin(old(flash.spans), flash.spans, slot, slot + limit)
    ensures offset + 4 > limit ==> r == Err(Malformed) && flash.spans == old(flash.spans)
    ensures offset + 4 <= limit && (slot + offset + 4 > flash.data.Length || Faulted(flash, |old(flash.spans)|)) ==>
              r == Err(Flash)
    ensures offset + 4 <= limit && slot + offset + 4 <= flash.data.Length && !Faulted(flash, |old(flash.spans)|) ==>
              var view := View(flash.data[..], slot, limit);
              r == Ok((HalfAt(view, offset), HalfAt(view, offset + 2)))
  {
    var bytes := ReadArray(flash, slot, offset, limit, 4);
    if bytes.Err? {
      return Err(bytes.error);
    }
    return Ok((HalfAt(bytes.value, 0), HalfAt(bytes.value, 2)));
  }

  method ReadFrameOf(flash: NorFlash, slot: nat, maxLen: nat, h: Header) returns (r: Result<Geometry, ImageError>)
    requires maxLen <= U32_MAX
    modifies flash`spans
    ensures ReadsWithin(old(flash.spans), flash.spans, slot, slot + maxLen)
    ensures r == Err(Flash) || r == FrameOf(h, View(flash.data[..], slot, maxLen), maxLen)
    ensures Faulted(flash, |old(flash.spans)|) ==> r == Err(Flash)
    ensures slot + maxLen <= flash.data.Length && !Faulted(flash, |old(flash.spans)|) ==> r != Err(Flash)
  {
    if h.flags != 0 {
      return Err(Unsupported);
    }
    if h.hdrSize < HEADER_LEN {
      return Err(Malformed);
    }
    if h.hdrSize + h.imgSize > U32_MAX || h.hdrSize + h.imgSize + h.protectSize > U32_MAX {
      return Err(Malformed);
    }
    var hashed := h.hdrSize + h.imgSize + h.protectSize;
    var info := ReadHalves(flash, slot, hashed, maxLen);
    if info.Err? {
      return Err(info.error);
    }
    if info.value.0 != TLV_INFO_MAGIC {
      return Err(Malformed);
    }
    var total := info.value.1;
    if hashed + total > U32_MAX || !(hashed + total <= maxLen && total >= 4) {
      return Err(Malformed);
    }
    if h.protectSize != 0 {
      var start := hashed - h.protectSize;
      info := ReadHalves(flash, slot, start, maxLen);
      if info.Err? {
        return Err(info.error);
      }
      if info.value.0 != TLV_PROTECTED_INFO_MAGIC || info.value.1 != h.protectSize {
        return Err(Malformed);
      }
    }
    return Ok(Geometry(h, hashed, hashed + total));
  }

  lemma JudgeByPass(g: Geometry, img: seq<byte>, t: Trust)
    requires g.hashed + 4 <= g.end <= |img|
    ensures var digest := t.sha256(img[..g.hashed]);
            JudgeAt(g, img, t) == match PassOver(img[g.hashed + 4..g.end], digest, t)
                                  case Err(e) => Err(e)
                                  case Ok((hashOk, signed)) =>
                                    if !hashOk then Err(HashMismatch) else if !signed then Err(BadSignature)
                                    else Ok(ValidImage(g.header, g.end, digest))
  {}

  /** `validate`: unless a flash read fails, the verdict on the bytes of the slot, wherever it lies; no byte
      outside the slot's limit is read, and no read fails when the slot lies within the device. */
  method ValidateSlot(flash: NorFlash, slot: nat, maxLen: nat, t: Trust) returns (r: Result<ValidImage, ImageError>)
    requires maxLen <= U32_MAX
    modifies flash`spans
    ensures ReadsWithin(old(flash.spans), flash.spans, slot, slot + Max(HEADER_LEN, maxLen))
    ensures r == Err(Flash) || r == Validate(View(flash.data[..], slot, Max(HEADER_LEN, maxLen)), maxLen, t)
    ensures Faulted(flash, |old(flash.spans)|) ==> r == Err(Flash)
    ensures slot + Max(HEADER_LEN, maxLen) <= flash.data.Length && !Faulted(flash, |old(flash.spans)|) ==>
              r != Err(Flash)
  {
    hide PassOver, Judge, FrameOf, ParseHeader;
    ghost var mem := flash.data[..];
    ghost var view := View(mem, slot, Max(HEADER_LEN, maxLen));
    var frame := ReadFrame(flash, slot, maxLen);
    if frame.Err? {
      return Err(frame.error);
    }
    var g := frame.value;
    var hash := HashRange(flash, slot, g.hashed, t.sha256);
    if hash.Err? {
      return Err(Flash);
    }
    var digest := hash.value;
    assert View(mem, slot, g.hashed) == view[..g.hashed];
    var pass := Pass(flash, slot, g.hashed + 4, g.end, digest, t);
    assert View(mem, slot, g.end)[g.hashed + 4..] == view[g.hashed + 4..g.end];
    JudgeByPass(g, view, t);
    if pass.Err? {
      return Err(pass.error);
    }
    if !pass.value.0 {
      return Err(HashMismatch);
    }
    if !pass.value.1 {
      return Err(BadSignature);
    }
    return Ok(ValidImage(g.header, g.end, digest));
  }
}
