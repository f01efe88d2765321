/**
 The controller transaction engine of cc2340r5-hal/src/i2c.rs:116-208, for every sequence of controller
 statuses, and what its register accesses put on the bus.
 */
module Cc2340I2c {
  import opened Wrappers
  import opened Bytes
  import opened I2cWire

  const CSTA_BUSBSY: nat := 0x40
  const CSTA_ARBLST: nat := 0x10
  const CSTA_ADRACKN: nat := 0x04
  const CSTA_ERR: nat := 0x02

  const CCTL_ACK: nat := 0x08
  const CCTL_STOP: nat := 0x04
  const CCTL_START: nat := 0x02
  const CCTL_RUN: nat := 0x01

  /** A one-bit mask is set in a word. */
  predicate Has(word: nat, mask: nat)
    requires mask > 0
  {
    word / mask % 2 == 1
  }

  datatype Error = BusBusy | ArbitrationLost | AddressNack | DataNack | Timeout | EmptyOperation

  /** What `wait_idle` returns. */
  datatype Reply = Status(word: nat) | Fault(error: Error)

  datatype Access = Target(address: byte, read: bool) | Data(data: byte) | Command(word: nat) | Fetch

  /** The controller: its register accesses are recorded; `replies(n)` is what the n-th wait returns and
      `received(n)` what the n-th read of the data register returns. */
  class Controller {
    const status: nat
    const replies: nat -> Reply
    const received: nat -> byte
    var log: seq<Access>
    var waits: nat
    var fetches: nat

    constructor (status: nat, replies: nat -> Reply, received: nat -> byte)
      ensures this.status == status && this.replies == replies && this.received == received
      ensures log == [] && waits == 0 && fetches == 0
    {
      this.status, this.replies, this.received := status, replies, received;
      log, waits, fetches := [], 0, 0;
    }

    method Record(access: Access)
      modifies this`log
      ensures log == old(log) + [access]
    {
      log := log + [access];
    }

    method WaitIdle() returns (r: Reply)
      modifies this`waits
      ensures r == replies(old(waits)) && waits == old(waits) + 1
    {
      r := replies(waits);
      waits := waits + 1;
    }

    method ReadData() returns (b: byte)
      modifies this`log, this`fetches
      ensures log == old(log) + [Fetch] && b == received(old(fetches)) && fetches == old(fetches) + 1
    {
      log := log + [Fetch];
      b := received(fetches);
      fetches := fetches + 1;
    }
  }

  /** `check_step`. */
  function CheckStep(status: nat, read: bool): Option<Error> {
    if !Has(status, CSTA_ERR) && !Has(status, CSTA_ARBLST) then None
    else if Has(status, CSTA_ARBLST) then Some(ArbitrationLost)
    else if Has(status, CSTA_ADRACKN) then Some(AddressNack)
    else if read then None
    else Some(DataNack)
  }

  function StepError(reply: Reply, read: bool): Option<Error> {
    match reply
    case Fault(e) => Some(e)
    case Status(word) => CheckStep(word, read)
  }

  // ----- What the engine does, byte by byte

  function CommandWord(start: bool, stop: bool, ack: bool): nat {
    CCTL_RUN + (if start then CCTL_START else 0) + (if stop then CCTL_STOP else 0) + (if ack then CCTL_ACK else 0)
  }

  /** What is issued for a byte. */
  function Issue(address: byte, steps: seq<Step>, k: nat): seq<Access>
    requires k < |steps|
  {
    (if Opens(steps, k) then [Target(address, steps[k].Receive?)] else [])
    + (if steps[k].Send? then [Data(steps[k].data)] else [])
    + [Command(CommandWord(Opens(steps, k), k + 1 == |steps|, steps[k].Receive? && !Closes(steps, k)))]
  }

  /** All accesses for the first n bytes. */
  function LogTo(address: byte, steps: seq<Step>, n: nat): seq<Access>
    requires n <= |steps|
  {
    if n == 0 then []
    else LogTo(address, steps, n - 1) + Issue(address, steps, n - 1) + (if steps[n - 1].Receive? then [Fetch] else [])
  }

  /** The log of a run that fails at byte k. */
  function FailedLog(address: byte, steps: seq<Step>, k: nat): seq<Access>
    requires k < |steps|
  {
    LogTo(address, steps, k) + Issue(address, steps, k) + [Command(CCTL_STOP)]
  }

  /** The first byte, from k on, that fails; the number of bytes if none does. */
  function FirstError(replies: nat -> Reply, steps: seq<Step>, k: nat): (r: nat)
    requires k <= |steps|
    ensures k <= r <= |steps|
    decreases |steps| - k
  {
    if k == |steps| || StepError(replies(k), steps[k].Receive?).Some? then k else FirstError(replies, steps, k + 1)
  }

  function ReceivesTo(steps: seq<Step>, n: nat): nat
    requires n <= |steps|
  {
    if n == 0 then 0 else ReceivesTo(steps, n - 1) + (if steps[n - 1].Receive? then 1 else 0)
  }

  function Got(received: nat -> byte, n: nat): seq<byte> {
    seq(n, i requires 0 <= i < n => received(i))
  }

  lemma {:induction false} LogPrefix(address: byte, steps: seq<Step>, k: nat, n: nat)
    requires k <= n <= |steps|
    ensures LogTo(address, steps, k) <= LogTo(address, steps, n)
  {
    hide Issue;
    if k < n { LogPrefix(address, steps, k, n - 1); }
  }

  /** A failing run is the successful run cut short, and one bare stop. */
  lemma FailureIsPrefixAndStop(address: byte, steps: seq<Step>, k: nat)
    requires k < |steps|
    ensures var log := FailedLog(address, steps, k);
            && log[|log| - 1] == Command(CCTL_STOP)
            && log[..|log| - 1] == LogTo(address, steps, k) + Issue(address, steps, k)
            && log[..|log| - 1] <= LogTo(address, steps, |steps|)
  {
    hide Issue;
    LogPrefix(address, steps, k + 1, |steps|);
    var log := FailedLog(address, steps, k);
    assert log[..|log| - 1] == LogTo(address, steps, k) + Issue(address, steps, k);
    assert LogTo(address, steps, k) + Issue(address, steps, k) <= LogTo(address, steps, k + 1);
  }

  // ----- The engine

  lemma {:induction false} ReceivesFlatten(ops: seq<Operation>, i: nat, j: nat)
    requires AllMove(ops) && i < |ops| && j <= ops[i].Length()
    ensures Offset(ops, i) + j <= |Flatten(ops)|
    ensures ReceivesTo(Flatten(ops), Offset(ops, i) + j) == ReadsTo(ops, i) + (if ops[i].Read? then j else 0)
    decreases i, j
  {
    hide Flatten;
    if j > 0 {
      FlattenAt(ops, i, j - 1);
      ReceivesFlatten(ops, i, j - 1);
    } else if i > 0 {
      ReceivesFlatten(ops, i - 1, ops[i - 1].Length());
    }
  }

  /** The first k bytes have been moved without error. */
  ghost predicate At(c: Controller, operations: array<Operation>, address: byte, ops: seq<Operation>, k: nat)
    reads c, operations
  {
    var steps := Flatten(ops);
    && k <= |steps| && c.waits == k && c.log == LogTo(address, steps, k) && c.fetches == ReceivesTo(steps, k)
    && operations[..] == Fill(ops, Got(c.received, c.fetches))
    && FirstError(c.replies, steps, 0) == FirstError(c.replies, steps, k)
  }

  /** Byte k failed with `error`. */
  ghost predicate Aborted(c: Controller, operations: array<Operation>, address: byte, ops: seq<Operation>, k: nat,
                          error: Error)
    reads c, operations
  {
    var steps := Flatten(ops);
    && k < |steps| && c.log == FailedLog(address, steps, k) && StepError(c.replies(k), steps[k].Receive?) == Some(error)
    && operations[..] == Fill(ops, Got(c.received, ReceivesTo(steps, k)))
    && FirstError(c.replies, steps, 0) == k
  }

  lemma AtShape(c: Controller, operations: array<Operation>, address: byte, ops: seq<Operation>, k: nat, i: nat)
    requires At(c, operations, address, ops, k) && i < |ops|
    ensures operations.Length == |ops|
    ensures operations[i].Read? == ops[i].Read? && operations[i].Length() == ops[i].Length()
    ensures ops[i].Write? ==> operations[i] == ops[i]
  {
    hide Flatten, FirstError, LogTo;
    assert operations.Length == |operations[..]|;
    FillShape(ops, Got(c.received, c.fetches), i);
    assert operations[i] == operations[..][i];
  }

  lemma GotNext(received: nat -> byte, n: nat)
    ensures Got(received, n + 1) == Got(received, n) + [received(n)]
  {}

  /** One byte: its target, data and command, the wait, and the byte received. */
  method MoveByte(c: Controller, address: byte, operations: array<Operation>, index: nat, position: nat,
                  first: bool, last: bool, ends: bool, ghost ops: seq<Operation>) returns (error: Option<Error>)
    requires AllMove(ops) && index < |ops| == operations.Length && position < ops[index].Length()
    requires var steps, k := Flatten(ops), Offset(ops, index) + position;
             && k < |steps| && steps[k] == StepOf(ops[index], position)
             && first == Opens(steps, k) && last == Closes(steps, k) && (last && ends <==> k + 1 == |steps|)
             && At(c, operations, address, ops, k)
    modifies c, operations
    ensures error.None? ==> At(c, operations, address, ops, Offset(ops, index) + position + 1)
    ensures error.Some? ==> Aborted(c, operations, address, ops, Offset(ops, index) + position, error.value)
  {
    hide Flatten, Fill, Opens, Closes, CommandWord, CheckStep;
    ghost var steps, k := Flatten(ops), Offset(ops, index) + position;
    AtShape(c, operations, address, ops, k, index);
    var read := operations[index].Read?;
    if first {
      c.Record(Target(address, read));
    }
    if operations[index].Write? {
      c.Record(Data(operations[index].bytes[position]));
    }
    c.Record(Command(CommandWord(first, last && ends, read && !last)));
    assert c.log == LogTo(address, steps, k) + Issue(address, steps, k);
    var reply := c.WaitIdle();
    if reply.Fault? {
      c.Record(Command(CCTL_STOP));
      return Some(reply.error);
    }
    var failure := CheckStep(reply.word, read);
    if failure.Some? {
      c.Record(Command(CCTL_STOP));
      var _ := c.WaitIdle();
      return failure;
    }
    if read {
      StoreByte(c, operations, index, position, ops);
    }
    return None;
  }

  /** Fetch one byte into its place. */
  method StoreByte(c: Controller, operations: array<Operation>, index: nat, position: nat, ghost ops: seq<Operation>)
    requires AllMove(ops) && index < |ops| == operations.Length && ops[index].Read? && position < ops[index].Length()
    requires Offset(ops, index) + position < |Flatten(ops)|
    requires c.fetches == ReceivesTo(Flatten(ops), Offset(ops, index) + position)
    requires operations[..] == Fill(ops, Got(c.received, c.fetches))
    modifies c`log, c`fetches, operations
    ensures c.log == old(c.log) + [Fetch] && c.fetches == old(c.fetches) + 1
    ensures operations[..] == Fill(ops, Got(c.received, c.fetches))
  {
    hide Flatten, Fill, ReceivesTo;
    ghost var was, got := operations[..], c.fetches;
    FillShape(ops, Got(c.received, got), index);
    assert operations[index] == was[index];
    ReceivesFlatten(ops, index, position);
    var b := c.ReadData();
    GotNext(c.received, got);
    FillNext(ops, Got(c.received, got), index, position, b);
    operations[index] := Read(operations[index].buffer[position := b]);
    assert operations[..] == was[index := Read(was[index].buffer[position := b])];
  }

  /** The bytes of one operation. */
  method MoveOperation(c: Controller, address: byte, operations: array<Operation>, index: nat,
                       segmentStart: bool, segmentContinues: bool, transactionEnds: bool, ghost ops: seq<Operation>)
    returns (error: Option<Error>)
    requires AllMove(ops) && index < |ops| == operations.Length
    requires segmentStart == (index == 0 || ops[index - 1].Read? != ops[index].Read?)
    requires segmentContinues == (index + 1 < |ops| && ops[index + 1].Read? == ops[index].Read?)
    requires transactionEnds == (index + 1 == |ops|)
    requires At(c, operations, address, ops, Offset(ops, index))
    modifies c, operations
    ensures error.None? ==> At(c, operations, address, ops, Offset(ops, index + 1))
    ensures error.Some? ==> exists k :: Aborted(c, operations, address, ops, k, error.value)
  {
    hide Flatten, At, Aborted, Opens, Closes;
    AtShape(c, operations, address, ops, Offset(ops, index), index);
    var length := operations[index].Length();
    var position := 0;
    while position < length
      invariant position <= length == ops[index].Length()
      invariant At(c, operations, address, ops, Offset(ops, index) + position)
    {
      Borders(ops, index, position);
      error := MoveByte(c, address, operations, index, position, segmentStart && position == 0,
                        position + 1 == length && !segmentContinues, transactionEnds, ops);
      if error.Some? {
        return;
      }
      position := position + 1;
    }
    return None;
  }

  method AnyEmpty(operations: array<Operation>) returns (empty: bool)
    ensures empty <==> !AllMove(operations[..])
  {
    for i := 0 to operations.Length
      invariant forall j :: 0 <= j < i ==> operations[j].Length() > 0
    {
      if operations[i].Length() == 0 {
        return true;
      }
    }
    return false;
  }

  /** What a transaction does to the controller's log and to the operations, for every start status and
      every sequence of replies. */
  ghost predicate Outcome(c: Controller, address: byte, ops: seq<Operation>, log: seq<Access>, after: seq<Operation>,
                          error: Option<Error>) {
    if ops == [] then log == [] && after == ops && error == None
    else if !AllMove(ops) then log == [] && after == ops && error == Some(EmptyOperation)
    else if Has(c.status, CSTA_BUSBSY) then log == [] && after == ops && error == Some(BusBusy)
    else
      var steps := Flatten(ops);
      var k := FirstError(c.replies, steps, 0);
      && after == Fill(ops, Got(c.received, ReceivesTo(steps, k)))
      && log == (if k == |steps| then LogTo(address, steps, k) else FailedLog(address, steps, k))
      && error == (if k == |steps| then None else StepError(c.replies(k), steps[k].Receive?))
  }

  /** `run_transaction`. */
  method RunTransaction(c: Controller, address: byte, operations: array<Operation>) returns (error: Option<Error>)
    requires c.log == [] && c.waits == 0 && c.fetches == 0
    modifies c, operations
    ensures Outcome(c, address, old(operations[..]), c.log, operations[..], error)
  {
    hide Flatten, At, Fill, Has, AllMove;
    ghost var ops := operations[..];
    if operations.Length == 0 {
      return None;
    }
    var empty := AnyEmpty(operations);
    if empty {
      return Some(EmptyOperation);
    }
    if Has(c.status, CSTA_BUSBSY) {
      return Some(BusBusy);
    }
    var previous: Option<bool> := None;
    var index := 0;
    AtStart(c, operations, address);
    while index < operations.Length
      invariant index <= operations.Length == |ops|
      invariant previous == if index == 0 then None else Some(ops[index - 1].Read?)
      invariant At(c, operations, address, ops, Offset(ops, index))
    {
      AtShape(c, operations, address, ops, Offset(ops, index), index);
      if index + 1 < operations.Length { AtShape(c, operations, address, ops, Offset(ops, index), index + 1); }
      var read := operations[index].Read?;
      var segmentStart := previous != Some(read);
      var segmentContinues := index + 1 < operations.Length && operations[index + 1].Read? == read;
      previous := Some(read);
      var transactionEnds := index + 1 == operations.Length;
      error := MoveOperation(c, address, operations, index, segmentStart, segmentContinues, transactionEnds, ops);
      if error.Some? {
        return;
      }
      index := index + 1;
    }
    AtEnd(c, operations, address, ops);
    return None;
  }

  lemma AtStart(c: Controller, operations: array<Operation>, address: byte)
    requires c.log == [] && c.waits == 0 && c.fetches == 0
    ensures At(c, operations, address, operations[..], 0)
  {
    FillNothing(operations[..]);
    assert Got(c.received, 0) == [];
  }

  lemma AtEnd(c: Controller, operations: array<Operation>, address: byte, ops: seq<Operation>)
    requires At(c, operations, address, ops, Offset(ops, |ops|))
    ensures var steps := Flatten(ops);
            && FirstError(c.replies, steps, 0) == |steps| && c.log == LogTo(address, steps, |steps|)
            && operations[..] == Fill(ops, Got(c.received, ReceivesTo(steps, |steps|)))
  {
    FlattenTo(ops, |ops|);
    assert ops[..|ops|] == ops;
  }

  // ----- What the accesses put on the bus

  /** The controller's registers and whether it holds the bus. */
  datatype Registers = Registers(address: byte, read: bool, data: byte, owner: bool)

  function Next(r: Registers, a: Access): Registers {
    match a
    case Target(address, read) => r.(address := address, read := read)
    case Data(b) => r.(data := b)
    case Command(word) => r.(owner := (r.owner || Has(word, CCTL_START)) && !Has(word, CCTL_STOP))
    case Fetch => r
  }

  function Emits(r: Registers, a: Access): seq<Event> {
    if a.Command? then
      (if Has(a.word, CCTL_START) then
         [if r.owner then RepeatedStart else Start, Put(AddressByte(r.address, r.read))]
       else [])
      + (if Has(a.word, CCTL_RUN) then [if r.read then Get(Has(a.word, CCTL_ACK)) else Put(r.data)] else [])
      + (if Has(a.word, CCTL_STOP) then [Stop] else [])
    else []
  }

  function After(r: Registers, log: seq<Access>): Registers {
    if log == [] then r else Next(After(r, log[..|log| - 1]), log[|log| - 1])
  }

  function OnBus(r: Registers, log: seq<Access>): seq<Event> {
    if log == [] then [] else OnBus(r, log[..|log| - 1]) + Emits(After(r, log[..|log| - 1]), log[|log| - 1])
  }

  lemma {:induction false} RunsOn(r: Registers, a: seq<Access>, b: seq<Access>)
    ensures After(r, a + b) == After(After(r, a), b)
    ensures OnBus(r, a + b) == OnBus(r, a) + OnBus(After(r, a), b)
  {
    hide Emits, Next;
    if b == [] {
      assert a + b == a;
    } else {
      var c := b[..|b| - 1];
      assert (a + b)[..|a + b| - 1] == a + c;
      RunsOn(r, a, c);
    }
  }

  lemma RunsOne(r: Registers, a: Access)
    ensures After(r, [a]) == Next(r, a) && OnBus(r, [a]) == Emits(r, a)
  {
    hide Next, Emits;
    assert [a][..0] == [];
    assert OnBus(r, [a]) == [] + Emits(r, a);
  }

  lemma CommandBits(start: bool, stop: bool, ack: bool)
    ensures var w := CommandWord(start, stop, ack);
            Has(w, CCTL_RUN) && Has(w, CCTL_START) == start && Has(w, CCTL_STOP) == stop && Has(w, CCTL_ACK) == ack
  {}

  /** What a byte's accesses put on the bus, from registers that point at its segment. */
  lemma IssueOnBus(r: Registers, address: byte, steps: seq<Step>, k: nat)
    requires k < |steps|
    requires !Opens(steps, k) ==> r.address == address && r.read == steps[k].Receive?
    requires r.owner == (k > 0)
    ensures OnBus(r, Issue(address, steps, k))
              == StepEvents(address, steps, k) + (if k + 1 == |steps| then [Stop] else [])
    ensures var s := After(r, Issue(address, steps, k));
            s.address == address && s.read == steps[k].Receive? && s.owner == (k + 1 < |steps|)
  {
    hide Has, CommandWord, After, OnBus, AddressByte;
    var opens, read := Opens(steps, k), steps[k].Receive?;
    var c := Command(CommandWord(opens, k + 1 == |steps|, read && !Closes(steps, k)));
    CommandBits(opens, k + 1 == |steps|, read && !Closes(steps, k));
    var setup := (if opens then [Target(address, read)] else []) + (if read then [] else [Data(steps[k].data)]);
    assert Issue(address, steps, k) == setup + [c];
    SetupOnBus(r, address, steps, k, setup);
    RunsOn(r, setup, [c]);
    RunsOne(After(r, setup), c);
    assert [] + Emits(After(r, setup), c) == Emits(After(r, setup), c);
    var e := if read then Get(!Closes(steps, k)) else Put(steps[k].data);
    var h := if opens then [if k == 0 then Start else RepeatedStart, Put(AddressByte(address, read))] else [];
    assert Emits(After(r, setup), c) == h + [e] + (if k + 1 == |steps| then [Stop] else []);
  }

  lemma SetupOnBus(r: Registers, address: byte, steps: seq<Step>, k: nat, setup: seq<Access>)
    requires k < |steps|
    requires setup == (if Opens(steps, k) then [Target(address, steps[k].Receive?)] else [])
                      + (if steps[k].Receive? then [] else [Data(steps[k].data)])
    requires !Opens(steps, k) ==> r.address == address && r.read == steps[k].Receive?
    ensures OnBus(r, setup) == []
    ensures After(r, setup)
              == Registers(address, steps[k].Receive?, if steps[k].Send? then steps[k].data else r.data, r.owner)
  {
    hide Opens;
    var t, d := Target(address, steps[k].Receive?), if steps[k].Send? then Data(steps[k].data) else Fetch;
    RunsOne(r, t);
    RunsOne(r, d);
    RunsOne(Next(r, t), d);
    RunsOn(r, [t], [d]);
    assert [t] + [d] == [t, d];
  }

  const RESET: Registers := Registers(0, false, 0, false)

  lemma {:induction false} LogOnBus(address: byte, steps: seq<Step>, n: nat)
    requires n <= |steps|
    ensures OnBus(RESET, LogTo(address, steps, n))
              == EventsTo(address, steps, n) + (if n == |steps| > 0 then [Stop] else [])
    ensures var s := After(RESET, LogTo(address, steps, n));
            s.owner == (0 < n < |steps|) && (n > 0 ==> s.address == address && s.read == steps[n - 1].Receive?)
  {
    hide Issue, StepEvents, OnBus, After, Opens, LogTo, EventsTo;
    if n == 0 {
      NothingOnBus(address, steps);
    } else {
      var k := n - 1;
      LogOnBus(address, steps, k);
      var log, issue := LogTo(address, steps, k), Issue(address, steps, k);
      var fetch := if steps[k].Receive? then [Fetch] else [];
      var r := After(RESET, log);
      if !Opens(steps, k) { OpensOrContinues(steps, k); }
      IssueOnBus(r, address, steps, k);
      RunsOn(RESET, log, issue);
      RunsOn(RESET, log + issue, fetch);
      FetchOnBus(After(r, issue), fetch);
      LastByte(address, steps, n);
      Regroup(EventsTo(address, steps, k), StepEvents(address, steps, k), if n == |steps| then [Stop] else []);
    }
  }

  lemma NothingOnBus(address: byte, steps: seq<Step>)
    ensures LogTo(address, steps, 0) == [] && EventsTo(address, steps, 0) == []
    ensures OnBus(RESET, []) == [] && After(RESET, []) == RESET
  {}

  lemma OpensOrContinues(steps: seq<Step>, k: nat)
    requires k < |steps| && !Opens(steps, k)
    ensures k > 0 && steps[k - 1].Receive? == steps[k].Receive?
  {}

  lemma LastByte(address: byte, steps: seq<Step>, n: nat)
    requires 0 < n <= |steps|
    ensures LogTo(address, steps, n)
            == LogTo(address, steps, n - 1) + Issue(address, steps, n - 1)
               + (if steps[n - 1].Receive? then [Fetch] else [])
    ensures EventsTo(address, steps, n) == EventsTo(address, steps, n - 1) + StepEvents(address, steps, n - 1)
  {}

  lemma Regroup(a: seq<Event>, b: seq<Event>, c: seq<Event>)
    ensures a + [] + (b + c) + [] == a + b + c
  {}

  lemma FetchOnBus(r: Registers, fetch: seq<Access>)
    requires fetch == [] || fetch == [Fetch]
    ensures OnBus(r, fetch) == [] && After(r, fetch) == r
  {
    RunsOne(r, Fetch);
  }

  /** The bus conditions of a transaction on a free bus that meets no error. */
  ghost function CleanBus(address: byte, ops: seq<Operation>): seq<Event> {
    if ops == [] || !AllMove(ops) then [] else OnBus(RESET, LogTo(address, Flatten(ops), |Flatten(ops)|))
  }
}
