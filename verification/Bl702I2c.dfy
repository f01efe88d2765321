/**
 The bit-bang transaction engine of bl702-hal/src/i2c.rs:431-482, on a bus that may fail at any call.
 */
module Bl702I2c {
  import opened Wrappers
  import opened Bytes
  import opened I2cWire

  /** The bus under the engine. Every call is recorded; `answers(n)` is what the n-th call meets: a fault,
      or success, with the byte that a read returns. */
  class Bus {
    const answers: nat -> Option<byte>
    var trace: seq<Event>

    constructor (answers: nat -> Option<byte>)
      ensures this.answers == answers && trace == []
    {
      this.answers := answers;
      trace := [];
    }

    method Call(event: Event) returns (answer: Option<byte>)
      modifies this
      ensures trace == old(trace) + [event] && answer == answers(|old(trace)|)
    {
      answer := answers(|trace|);
      trace := trace + [event];
    }
  }

  // ----- What the engine does, operation by operation

  /** More bytes are to be read before the run of reads that continues at `i` ends. */
  predicate MoreToRead(ops: seq<Operation>, i: nat)
    decreases |ops| - i
  {
    i < |ops| && ops[i].Read? && (ops[i].Length() > 0 || MoreToRead(ops, i + 1))
  }

  function Head(address: byte, ops: seq<Operation>, i: nat): seq<Event>
    requires i < |ops|
  {
    if i == 0 || ops[i - 1].Read? != ops[i].Read? then
      [if i == 0 then Start else RepeatedStart, Put(AddressByte(address, ops[i].Read?))]
    else []
  }

  function ByteEvent(ops: seq<Operation>, i: nat, j: nat): Event
    requires i < |ops| && j < ops[i].Length()
  {
    if ops[i].Read? then Get(j + 1 < ops[i].Length() || MoreToRead(ops, i + 1)) else Put(ops[i].bytes[j])
  }

  function Body(ops: seq<Operation>, i: nat, j: nat): seq<Event>
    requires i < |ops| && j <= ops[i].Length()
  {
    if j == 0 then [] else Body(ops, i, j - 1) + [ByteEvent(ops, i, j - 1)]
  }

  function Before(address: byte, ops: seq<Operation>, i: nat): seq<Event>
    requires i <= |ops|
    decreases i, 0
  {
    if i == 0 then [] else Upto(address, ops, i - 1, ops[i - 1].Length())
  }

  function Upto(address: byte, ops: seq<Operation>, i: nat, j: nat): seq<Event>
    requires i < |ops| && j <= ops[i].Length()
    decreases i, 1
  {
    Before(address, ops, i) + Head(address, ops, i) + Body(ops, i, j)
  }

  /** All the calls of a transaction that meets no fault, empty operations included. */
  function Calls(address: byte, ops: seq<Operation>): seq<Event> {
    Before(address, ops, |ops|) + [Stop]
  }

  lemma {:induction false} BodyPrefix(ops: seq<Operation>, i: nat, j: nat, k: nat)
    requires i < |ops| && j <= k <= ops[i].Length()
    ensures Body(ops, i, j) <= Body(ops, i, k)
  {
    if j < k { BodyPrefix(ops, i, j, k - 1); }
  }

  lemma {:induction false} BeforePrefix(address: byte, ops: seq<Operation>, i: nat, k: nat)
    requires i <= k <= |ops|
    ensures Before(address, ops, i) <= Before(address, ops, k)
  {
    if i < k { BeforePrefix(address, ops, i, k - 1); }
  }

  lemma UptoPrefix(address: byte, ops: seq<Operation>, i: nat, j: nat)
    requires i < |ops| && j <= ops[i].Length()
    ensures Upto(address, ops, i, j) <= Calls(address, ops)
    ensures Before(address, ops, i) + Head(address, ops, i) <= Calls(address, ops)
    ensures Before(address, ops, i) <= Calls(address, ops)
  {
    hide Body, Head;
    BodyPrefix(ops, i, j, ops[i].Length());
    assert Upto(address, ops, i, j) <= Upto(address, ops, i, ops[i].Length()) == Before(address, ops, i + 1);
    BeforePrefix(address, ops, i + 1, |ops|);
  }

  // ----- What has been received

  function Received(trace: seq<Event>, answers: nat -> Option<byte>): seq<byte> {
    if trace == [] then []
    else
      var n := |trace| - 1;
      Received(trace[..n], answers) + (if trace[n].Get? && answers(n).Some? then [answers(n).value] else [])
  }

  lemma ReceivedNext(trace: seq<Event>, e: Event, answers: nat -> Option<byte>)
    ensures Received(trace + [e], answers) ==
      Received(trace, answers) + (if e.Get? && answers(|trace|).Some? then [answers(|trace|).value] else [])
  {
    assert (trace + [e])[..|trace|] == trace;
  }

  ghost predicate Answered(answers: nat -> Option<byte>, n: nat) {
    forall k :: 0 <= k < n ==> answers(k).Some?
  }

  lemma ReceivedHead(address: byte, ops: seq<Operation>, i: nat, trace: seq<Event>, answers: nat -> Option<byte>)
    requires i < |ops|
    ensures Received(trace + Head(address, ops, i), answers) == Received(trace, answers)
  {
    var h := Head(address, ops, i);
    if h == [] {
      assert trace + h == trace;
    } else {
      ReceivedNext(trace, h[0], answers);
      ReceivedNext(trace + [h[0]], h[1], answers);
      assert trace + h == trace + [h[0]] + [h[1]];
    }
  }

  /** The bytes received when byte j of operation i is next. */
  lemma {:induction false} ReceivedUpto(address: byte, ops: seq<Operation>, i: nat, j: nat,
                                        answers: nat -> Option<byte>)
    requires i < |ops| && j <= ops[i].Length() && Answered(answers, |Upto(address, ops, i, j)|)
    ensures |Received(Upto(address, ops, i, j), answers)| == ReadsTo(ops, i) + (if ops[i].Read? then j else 0)
    decreases i, j
  {
    hide Head, Received;
    var t := Upto(address, ops, i, j);
    if j > 0 {
      var s := Upto(address, ops, i, j - 1);
      assert t == s + [ByteEvent(ops, i, j - 1)];
      ReceivedUpto(address, ops, i, j - 1, answers);
      ReceivedNext(s, ByteEvent(ops, i, j - 1), answers);
    } else {
      assert t == Before(address, ops, i) + Head(address, ops, i);
      ReceivedHead(address, ops, i, Before(address, ops, i), answers);
      if i > 0 { ReceivedUpto(address, ops, i - 1, ops[i - 1].Length(), answers); } else { NoneReceived(answers); }
    }
  }

  lemma NoneReceived(answers: nat -> Option<byte>)
    ensures Received([], answers) == []
  {}

  // ----- The engine

  /** The calls `done` were all answered, and what they received is stored. */
  ghost predicate Reached(bus: Bus, operations: array<Operation>, ops: seq<Operation>, done: seq<Event>)
    reads bus, operations
  {
    bus.trace == done && Answered(bus.answers, |done|) && operations[..] == Fill(ops, Received(done, bus.answers))
  }

  /** The last call met a fault; the calls before it were answered, and what they received is stored. */
  ghost predicate Failed(bus: Bus, operations: array<Operation>, ops: seq<Operation>, all: seq<Event>)
    reads bus, operations
  {
    && bus.trace != [] && bus.trace <= all
    && var n := |bus.trace| - 1;
       bus.answers(n).None? && Answered(bus.answers, n)
       && operations[..] == Fill(ops, Received(bus.trace[..n], bus.answers))
  }

  /** One call that reads nothing. */
  method Perform(bus: Bus, operations: array<Operation>, event: Event, ghost ops: seq<Operation>,
                 ghost all: seq<Event>)
    returns (ok: bool)
    requires Reached(bus, operations, ops, bus.trace) && !event.Get? && bus.trace + [event] <= all
    modifies bus
    ensures ok ==> Reached(bus, operations, ops, old(bus.trace) + [event])
    ensures !ok ==> Failed(bus, operations, ops, all)
  {
    hide Fill;
    ghost var before := bus.trace;
    var answer := bus.Call(event);
    ReceivedNext(before, event, bus.answers);
    assert Received(before + [event], bus.answers) == Received(before, bus.answers);
    assert bus.trace[..|before|] == before;
    ok := answer.Some?;
  }

  /** A start, repeated or not, and the address. */
  method OpenRun(bus: Bus, address: byte, operations: array<Operation>, index: nat, first: bool, reading: bool,
                 ghost ops: seq<Operation>) returns (ok: bool)
    requires index < |ops| == operations.Length && first == (index == 0) && reading == ops[index].Read?
    requires index > 0 ==> ops[index - 1].Read? != reading
    requires Reached(bus, operations, ops, Before(address, ops, index))
    modifies bus
    ensures ok ==> Reached(bus, operations, ops, Upto(address, ops, index, 0))
    ensures !ok ==> Failed(bus, operations, ops, Calls(address, ops))
  {
    hide Fill, Received, Before, Reached, Failed;
    ghost var all, before := Calls(address, ops), Before(address, ops, index);
    UptoPrefix(address, ops, index, 0);
    ghost var h := Head(address, ops, index);
    assert before + [h[0]] <= before + h && before + h == before + [h[0]] + [h[1]];
    assert Upto(address, ops, index, 0) == before + h;
    ReachedTrace(bus, operations, ops, before);
    ok := Perform(bus, operations, if first then Start else RepeatedStart, ops, all);
    if ok {
      ReachedTrace(bus, operations, ops, before + [h[0]]);
      ok := Perform(bus, operations, Put(AddressByte(address, reading)), ops, all);
    }
  }

  lemma ReachedTrace(bus: Bus, operations: array<Operation>, ops: seq<Operation>, done: seq<Event>)
    requires Reached(bus, operations, ops, done)
    ensures bus.trace == done
  {}

  lemma ReachedShape(bus: Bus, operations: array<Operation>, ops: seq<Operation>, done: seq<Event>, i: nat)
    requires Reached(bus, operations, ops, done) && i < |ops|
    ensures operations.Length == |ops|
    ensures operations[i].Read? == ops[i].Read? && operations[i].Length() == ops[i].Length()
    ensures ops[i].Write? ==> operations[i] == ops[i]
  {
    assert operations.Length == |operations[..]|;
    FillShape(ops, Received(done, bus.answers), i);
    assert operations[i] == operations[..][i];
  }

  /** The writes of one operation. */
  method WriteOperation(bus: Bus, ghost address: byte, operations: array<Operation>, index: nat,
                        ghost ops: seq<Operation>)
    returns (ok: bool)
    requires index < |ops| == operations.Length && ops[index].Write?
    requires Reached(bus, operations, ops, Upto(address, ops, index, 0))
    modifies bus
    ensures ok ==> Reached(bus, operations, ops, Before(address, ops, index + 1))
    ensures !ok ==> Failed(bus, operations, ops, Calls(address, ops))
  {
    hide Fill, Received, Reached, Failed, Calls;
    ReachedShape(bus, operations, ops, Upto(address, ops, index, 0), index);
    var bytes := operations[index].bytes;
    var j := 0;
    while j < |bytes|
      invariant j <= |bytes| && operations[index] == ops[index] && bytes == ops[index].bytes
      invariant Reached(bus, operations, ops, Upto(address, ops, index, j))
    {
      ReachedTrace(bus, operations, ops, Upto(address, ops, index, j));
      UptoPrefix(address, ops, index, j + 1);
      assert Upto(address, ops, index, j + 1) == Upto(address, ops, index, j) + [Put(bytes[j])];
      ok := Perform(bus, operations, Put(bytes[j]), ops, Calls(address, ops));
      if !ok {
        return;
      }
      j := j + 1;
    }
    return true;
  }

  /** One byte read and stored. */
  method ReadByte(bus: Bus, ghost address: byte, operations: array<Operation>, index: nat, j: nat, acknowledge: bool,
                  ghost ops: seq<Operation>)
    returns (ok: bool)
    requires index < |ops| == operations.Length && ops[index].Read? && j < ops[index].Length()
    requires ByteEvent(ops, index, j) == Get(acknowledge)
    requires Reached(bus, operations, ops, Upto(address, ops, index, j))
    modifies bus, operations
    ensures ok ==> Reached(bus, operations, ops, Upto(address, ops, index, j + 1))
    ensures !ok ==> Failed(bus, operations, ops, Calls(address, ops))
  {
    hide Fill, Received, Calls, Before, Head, ByteEvent;
    ghost var before := Upto(address, ops, index, j);
    ReachedShape(bus, operations, ops, before, index);
    UptoPrefix(address, ops, index, j + 1);
    assert Upto(address, ops, index, j + 1) == before + [Get(acknowledge)];
    ReceivedNext(before, Get(acknowledge), bus.answers);
    var answer := bus.Call(Get(acknowledge));
    assert bus.trace[..|before|] == before;
    match answer {
      case None =>
        return false;
      case Some(b) =>
        ReceivedUpto(address, ops, index, j, bus.answers);
        FillNext(ops, Received(before, bus.answers), index, j, b);
        ghost var was := operations[..];
        operations[index] := Read(operations[index].buffer[j := b]);
        assert operations[..] == was[index := Read(was[index].buffer[j := b])];
        return true;
    }
  }

  // ----- Runs

  ghost predicate IsRun(ops: seq<Operation>, from: nat, to: nat) {
    && from < to <= |ops|
    && (forall i :: from <= i < to ==> ops[i].Read? == ops[from].Read?)
    && (to < |ops| ==> ops[to].Read? != ops[from].Read?)
  }

  function RunLength(ops: seq<Operation>, i: nat, to: nat): nat
    requires i <= to <= |ops|
    decreases |ops| - i
  {
    if i == to then 0 else ops[i].Length() + RunLength(ops, i + 1, to)
  }

  lemma {:induction false} MoreIsLength(ops: seq<Operation>, from: nat, i: nat, to: nat)
    requires IsRun(ops, from, to) && from <= i <= to && ops[from].Read?
    ensures MoreToRead(ops, i) <==> RunLength(ops, i, to) > 0
    decreases |ops| - i
  {
    if i < to { MoreIsLength(ops, from, i + 1, to); }
  }

  /** Where the run that starts at `index` ends. */
  method FindRunEnd(operations: array<Operation>, index: nat) returns (runEnd: nat)
    requires index < operations.Length
    ensures IsRun(operations[..], index, runEnd)
  {
    var reading := operations[index].Read?;
    runEnd := index + 1;
    while runEnd < operations.Length && operations[runEnd].Read? == reading
      invariant index < runEnd <= operations.Length
      invariant forall i :: index <= i < runEnd ==> operations[i].Read? == reading
    {
      runEnd := runEnd + 1;
    }
  }

  /** The bytes a run of reads asks for. */
  method TotalOf(operations: array<Operation>, index: nat, runEnd: nat) returns (total: nat)
    requires index <= runEnd <= operations.Length && forall i :: index <= i < runEnd ==> operations[i].Read?
    ensures total == RunLength(operations[..], index, runEnd)
  {
    total := 0;
    var i := index;
    while i < runEnd
      invariant index <= i <= runEnd
      invariant total + RunLength(operations[..], i, runEnd) == RunLength(operations[..], index, runEnd)
    {
      total := total + |operations[i].buffer|;
      i := i + 1;
    }
  }

  lemma {:induction false} SameLength(a: seq<Operation>, b: seq<Operation>, i: nat, to: nat)
    requires i <= to <= |a| == |b| && forall k :: 0 <= k < |a| ==> a[k].Length() == b[k].Length()
    ensures RunLength(a, i, to) == RunLength(b, i, to)
    decreases |a| - i
  {
    if i < to { SameLength(a, b, i + 1, to); }
  }

  /** The reads of one operation of a run; `readIndex` counts through the run. */
  method ReadOperation(bus: Bus, ghost address: byte, operations: array<Operation>, index: nat, readIndex: nat,
                       total: nat,
                       ghost ops: seq<Operation>, ghost from: nat, ghost to: nat) returns (ok: bool, newIndex: nat)
    requires IsRun(ops, from, to) && ops[from].Read? && from <= index < to && |ops| == operations.Length
    requires readIndex + RunLength(ops, index, to) == total
    requires Reached(bus, operations, ops, Upto(address, ops, index, 0))
    modifies bus, operations
    ensures ok ==> Reached(bus, operations, ops, Before(address, ops, index + 1))
    ensures ok ==> newIndex + RunLength(ops, index + 1, to) == total
    ensures !ok ==> Failed(bus, operations, ops, Calls(address, ops))
  {
    hide Fill, Received, Reached, Failed, Calls, Upto, MoreToRead;
    ReachedShape(bus, operations, ops, Upto(address, ops, index, 0), index);
    MoreIsLength(ops, from, index + 1, to);
    var length := |operations[index].buffer|;
    newIndex := readIndex;
    var j := 0;
    while j < length
      invariant j <= length == ops[index].Length()
      invariant newIndex == readIndex + j
      invariant Reached(bus, operations, ops, Upto(address, ops, index, j))
    {
      newIndex := newIndex + 1;
      ok := ReadByte(bus, address, operations, index, j, newIndex < total, ops);
      if !ok {
        return;
      }
      j := j + 1;
    }
    ok := true;
  }

  lemma NextInRun(address: byte, ops: seq<Operation>, from: nat, i: nat, to: nat)
    requires IsRun(ops, from, to) && from < i < to
    ensures Upto(address, ops, i, 0) == Before(address, ops, i)
  {}

  method ReadRun(bus: Bus, ghost address: byte, operations: array<Operation>, index: nat, runEnd: nat,
                 ghost ops: seq<Operation>)
    returns (ok: bool)
    requires IsRun(ops, index, runEnd) && ops[index].Read? && |ops| == operations.Length
    requires forall k :: 0 <= k < |ops| ==>
              operations[k].Read? == ops[k].Read? && operations[k].Length() == ops[k].Length()
    requires Reached(bus, operations, ops, Upto(address, ops, index, 0))
    modifies bus, operations
    ensures ok ==> Reached(bus, operations, ops, Before(address, ops, runEnd))
    ensures !ok ==> Failed(bus, operations, ops, Calls(address, ops))
  {
    hide Fill, Received, Reached, Failed, Calls, Upto, Before;
    var total := TotalOf(operations, index, runEnd);
    SameLength(operations[..], ops, index, runEnd);
    var readIndex: nat := 0;
    var i := index;
    while i < runEnd
      invariant index <= i <= runEnd
      invariant readIndex + RunLength(ops, i, runEnd) == total
      invariant Reached(bus, operations, ops, if i < runEnd then Upto(address, ops, i, 0) else Before(address, ops, i))
    {
      ok, readIndex := ReadOperation(bus, address, operations, i, readIndex, total, ops, index, runEnd);
      if !ok {
        return;
      }
      i := i + 1;
      if i < runEnd { NextInRun(address, ops, index, i, runEnd); }
    }
    return true;
  }

  method WriteRun(bus: Bus, ghost address: byte, operations: array<Operation>, index: nat, runEnd: nat,
                  ghost ops: seq<Operation>)
    returns (ok: bool)
    requires IsRun(ops, index, runEnd) && ops[index].Write? && |ops| == operations.Length
    requires Reached(bus, operations, ops, Upto(address, ops, index, 0))
    modifies bus
    ensures ok ==> Reached(bus, operations, ops, Before(address, ops, runEnd))
    ensures !ok ==> Failed(bus, operations, ops, Calls(address, ops))
  {
    hide Fill, Received, Reached, Failed, Calls, Upto, Before;
    var i := index;
    while i < runEnd
      invariant index <= i <= runEnd
      invariant Reached(bus, operations, ops, if i < runEnd then Upto(address, ops, i, 0) else Before(address, ops, i))
    {
      ok := WriteOperation(bus, address, operations, i, ops);
      if !ok {
        return;
      }
      i := i + 1;
      if i < runEnd { NextInRun(address, ops, index, i, runEnd); }
    }
    return true;
  }

  lemma ReachedShapes(bus: Bus, operations: array<Operation>, ops: seq<Operation>, done: seq<Event>)
    requires Reached(bus, operations, ops, done)
    ensures operations.Length == |ops|
    ensures forall k :: 0 <= k < |ops| ==>
              operations[k].Read? == ops[k].Read? && operations[k].Length() == ops[k].Length()
  {
    assert operations.Length == |operations[..]|;
    forall k | 0 <= k < |ops| ensures operations[k].Read? == ops[k].Read? && operations[k].Length() == ops[k].Length() {
      ReachedShape(bus, operations, ops, done, k);
    }
  }

  /** `execute_transaction`: every call of `Calls`, in order, up to the first that meets a fault. */
  method ExecuteTransaction(bus: Bus, address: byte, operations: array<Operation>) returns (ok: bool)
    requires bus.trace == []
    modifies bus, operations
    ensures ok ==> Reached(bus, operations, old(operations[..]), Calls(address, old(operations[..])))
    ensures !ok ==> Failed(bus, operations, old(operations[..]), Calls(address, old(operations[..])))
  {
    hide Fill, Reached, Failed, Calls, Upto, Before;
    ghost var ops := operations[..];
    var index, first := 0, true;
    StartsReached(bus, address, operations);
    while index < operations.Length
      invariant index <= operations.Length == |ops| && first == (index == 0)
      invariant 0 < index < operations.Length ==> ops[index - 1].Read? != ops[index].Read?
      invariant Reached(bus, operations, ops, Before(address, ops, index))
    {
      ReachedShapes(bus, operations, ops, Before(address, ops, index));
      var reading := operations[index].Read?;
      var runEnd := FindRunEnd(operations, index);
      assert IsRun(ops, index, runEnd) by { SameRun(operations[..], ops, index, runEnd); }
      ok := OpenRun(bus, address, operations, index, first, reading, ops);
      if !ok {
        return;
      }
      first := false;
      if reading {
        ok := ReadRun(bus, address, operations, index, runEnd, ops);
      } else {
        ok := WriteRun(bus, address, operations, index, runEnd, ops);
      }
      if !ok {
        return;
      }
      index := runEnd;
    }
    ReachedTrace(bus, operations, ops, Before(address, ops, |ops|));
    StopIsLast(address, ops);
    ok := Perform(bus, operations, Stop, ops, Calls(address, ops));
  }

  lemma StopIsLast(address: byte, ops: seq<Operation>)
    ensures Before(address, ops, |ops|) + [Stop] == Calls(address, ops)
  {}

  lemma StartsReached(bus: Bus, address: byte, operations: array<Operation>)
    requires bus.trace == []
    ensures Reached(bus, operations, operations[..], Before(address, operations[..], 0))
  {
    FillNothing(operations[..]);
  }

  lemma SameRun(a: seq<Operation>, b: seq<Operation>, from: nat, to: nat)
    requires IsRun(a, from, to) && |a| == |b| && forall k :: 0 <= k < |a| ==> a[k].Read? == b[k].Read?
    ensures IsRun(b, from, to)
  {}
}
