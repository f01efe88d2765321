/**
 NOR flash with power loss, after the model in mcuboot-image/src/tests.rs:50-147: erasing sets
 bytes to 0xFF in ascending order, programming only clears bits, and an operation that runs out
 of power has done a prefix of its work.
 */
module NorFlashModel {
  import opened Wrappers
  import opened Bytes

  /** Bytes of erase and write work left before the power fails. */
  datatype Supply = Stable | Fails(after: nat)

  function And(a: byte, b: byte): byte {
    ((a as bv8) & (b as bv8)) as int
  }

  lemma AndErased(b: byte)
    ensures And(ERASED, b) == b
  {}

  /** How much of `n` bytes of work gets done. */
  function Done(supply: Supply, n: nat): (r: nat)
    ensures r <= n
  {
    if supply.Stable? || n <= supply.after then n else supply.after
  }

  function Spend(supply: Supply, n: nat): Supply {
    if supply.Stable? then Stable else Fails(supply.after - Done(supply, n))
  }

  function Erased(mem: seq<byte>, from: nat, to: nat): (r: seq<byte>)
    requires from <= to <= |mem|
    ensures |r| == |mem|
    ensures forall i :: 0 <= i < |mem| ==> r[i] == if from <= i < to then ERASED else mem[i]
  {
    seq(|mem|, i requires 0 <= i < |mem| => if from <= i < to then ERASED else mem[i])
  }

  function Programmed(mem: seq<byte>, at: nat, bytes: seq<byte>): (r: seq<byte>)
    requires at + |bytes| <= |mem|
    ensures |r| == |mem|
    ensures forall i :: 0 <= i < |mem| ==> r[i] == if at <= i < at + |bytes| then And(mem[i], bytes[i - at]) else mem[i]
  {
    seq(|mem|, i requires 0 <= i < |mem| => if at <= i < at + |bytes| then And(mem[i], bytes[i - at]) else mem[i])
  }

  /** The addresses of one read. */
  datatype Span = Span(at: nat, n: nat)

  /** None of the reads number `from` up to `to` fails. */
  ghost predicate Clean(faults: nat -> bool, from: nat, to: nat) {
    forall i :: from <= i < to ==> !faults(i)
  }

  /** The reads made since `before` all lie between `lo` and `hi`. */
  ghost predicate ReadsWithin(before: seq<Span>, after: seq<Span>, lo: nat, hi: nat) {
    && before <= after
    && forall i :: |before| <= i < |after| ==> lo <= after[i].at && after[i].at + after[i].n <= hi
  }

  class NorFlash {
    const data: array<byte>
    const writeSize: nat
    const sectorSize: nat
    // Which reads fail, counted from the first.
    const faults: nat -> bool
    var supply: Supply
    // The reads made so far.
    var spans: seq<Span>

    constructor (data: array<byte>, writeSize: nat, sectorSize: nat, faults: nat -> bool, supply: Supply)
      requires writeSize > 0 && sectorSize > 0
      ensures this.data == data && this.writeSize == writeSize && this.sectorSize == sectorSize
      ensures this.faults == faults && this.supply == supply && spans == []
    {
      this.data, this.writeSize, this.sectorSize, this.faults := data, writeSize, sectorSize, faults;
      this.supply, spans := supply, [];
    }

    method Read(at: nat, n: nat) returns (r: Option<seq<byte>>)
      modifies `spans
      ensures spans == old(spans) + [Span(at, n)]
      ensures r == if at + n <= data.Length && !faults(|old(spans)|) then Some(data[at..at + n]) else None
    {
      var fails := faults(|spans|);
      spans := spans + [Span(at, n)];
      if at + n > data.Length || fails {
        return None;
      }
      var bytes: seq<byte> := [];
      var i := 0;
      while i < n
        invariant i <= n && bytes == data[at..at + i]
      {
        bytes := bytes + [data[at + i]];
        i := i + 1;
      }
      return Some(bytes);
    }

    /** Out of range or misaligned requests are refused. */
    predicate MayErase(from: nat, to: nat) {
      sectorSize > 0 && from < to <= data.Length && from % sectorSize == 0 && to % sectorSize == 0
    }

    predicate MayWrite(at: nat, n: nat) {
      writeSize > 0 && at + n <= data.Length && at % writeSize == 0 && n % writeSize == 0
    }

    method Erase(from: nat, to: nat) returns (ok: bool)
      modifies data, `supply
      ensures MayErase(from, to) ==>
                && data[..] == Erased(old(data[..]), from, from + Done(old(supply), to - from))
                && supply == Spend(old(supply), to - from)
                && (ok <==> Done(old(supply), to - from) == to - from)
      ensures !MayErase(from, to) ==> !ok && data[..] == old(data[..]) && supply == old(supply)
    {
      if !MayErase(from, to) {
        return false;
      }
      ghost var n := Done(supply, to - from);
      var i := from;
      while i < to && (supply.Stable? || supply.after > 0)
        invariant from <= i <= from + n
        invariant supply == Spend(old(supply), i - from)
        invariant forall j :: 0 <= j < data.Length ==> data[j] == if from <= j < i then ERASED else old(data[j])
      {
        data[i] := ERASED;
        supply := if supply.Stable? then Stable else Fails(supply.after - 1);
        i := i + 1;
      }
      ok := i == to;
    }

    method Write(at: nat, bytes: seq<byte>) returns (ok: bool)
      modifies data, `supply
      ensures MayWrite(at, |bytes|) ==>
                && data[..] == Programmed(old(data[..]), at, bytes[..Done(old(supply), |bytes|)])
                && supply == Spend(old(supply), |bytes|)
                && (ok <==> Done(old(supply), |bytes|) == |bytes|)
      ensures !MayWrite(at, |bytes|) ==> !ok && data[..] == old(data[..]) && supply == old(supply)
    {
      if !MayWrite(at, |bytes|) {
        return false;
      }
      ghost var n := Done(supply, |bytes|);
      var i := 0;
      while i < |bytes| && (supply.Stable? || supply.after > 0)
        invariant 0 <= i <= n
        invariant supply == Spend(old(supply), i)
        invariant forall j :: 0 <= j < data.Length ==>
          data[j] == if at <= j < at + i then And(old(data[j]), bytes[j - at]) else old(data[j])
      {
        data[at + i] := And(data[at + i], bytes[i]);
        supply := if supply.Stable? then Stable else Fails(supply.after - 1);
        i := i + 1;
      }
      ok := i == |bytes|;
    }
  }
}
