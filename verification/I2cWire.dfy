/**
 An I2C transaction as a list of operations, the bytes it moves, and the sequence of bus conditions
 those bytes stand for: the reference both drivers are compared with.
 */
module I2cWire {
  import opened Bytes

  datatype Operation = Read(buffer: seq<byte>) | Write(bytes: seq<byte>) {
    function Length(): nat {
      if Read? then |buffer| else |bytes|
    }
  }

  /** One byte on the bus: sent to the target, or asked of it. */
  datatype Step = Send(data: byte) | Receive

  function StepOf(op: Operation, j: nat): Step
    requires j < op.Length()
  {
    if op.Read? then Receive else Send(op.bytes[j])
  }

  function Steps(op: Operation): (r: seq<Step>)
    ensures |r| == op.Length()
  {
    seq(op.Length(), j requires 0 <= j < op.Length() => StepOf(op, j))
  }

  /** The bytes of a transaction, without the borders between operations. */
  function Flatten(ops: seq<Operation>): seq<Step> {
    if ops == [] then [] else Flatten(ops[..|ops| - 1]) + Steps(ops[|ops| - 1])
  }

  ghost predicate AllMove(ops: seq<Operation>) {
    forall i :: 0 <= i < |ops| ==> ops[i].Length() > 0
  }

  // ----- The reference

  datatype Event = Start | RepeatedStart | Put(data: byte) | Get(acknowledge: bool) | Stop

  /** Seven address bits, and the direction below them. */
  function AddressByte(address: byte, read: bool): (r: byte)
    ensures address < 128 ==> r / 2 == address
    ensures r % 2 == 1 <==> read
  {
    (address * 2) % 256 + (if read then 1 else 0)
  }

  /** A byte that opens a segment: the first, or the first of its direction. */
  predicate Opens(steps: seq<Step>, k: nat)
    requires k < |steps|
  {
    k == 0 || steps[k - 1].Receive? != steps[k].Receive?
  }

  /** A byte that closes a segment. */
  predicate Closes(steps: seq<Step>, k: nat)
    requires k < |steps|
  {
    k + 1 == |steps| || steps[k + 1].Receive? != steps[k].Receive?
  }

  /** A byte's events: an opening byte is preceded by a start and the address, and only the last byte
      of a segment of reads is not acknowledged. */
  function StepEvents(address: byte, steps: seq<Step>, k: nat): seq<Event>
    requires k < |steps|
  {
    (if Opens(steps, k) then
       [if k == 0 then Start else RepeatedStart, Put(AddressByte(address, steps[k].Receive?))]
     else [])
    + [if steps[k].Receive? then Get(!Closes(steps, k)) else Put(steps[k].data)]
  }

  function EventsTo(address: byte, steps: seq<Step>, n: nat): seq<Event>
    requires n <= |steps|
  {
    if n == 0 then [] else EventsTo(address, steps, n - 1) + StepEvents(address, steps, n - 1)
  }

  /** The bus conditions of a whole transaction. */
  function Wire(address: byte, steps: seq<Step>): seq<Event> {
    EventsTo(address, steps, |steps|) + [Stop]
  }

  // ----- Borders between operations do not show

  lemma {:induction false} FlattenConcat(a: seq<Operation>, b: seq<Operation>)
    ensures Flatten(a + b) == Flatten(a) + Flatten(b)
  {
    if b == [] {
      assert a + b == a;
    } else {
      var c := b[..|b| - 1];
      assert (a + b)[..|a + b| - 1] == a + c;
      FlattenConcat(a, c);
    }
  }

  lemma FlattenOne(op: Operation)
    ensures Flatten([op]) == Steps(op)
  {
    assert [op][..0] == [];
  }

  /** `joint` is the two neighbours in one. */
  predicate Joins(first: Operation, second: Operation, joint: Operation) {
    || (first.Read? && second.Read? && joint.Read? && |joint.buffer| == |first.buffer| + |second.buffer|)
    || (first.Write? && second.Write? && joint.Write? && joint.bytes == first.bytes + second.bytes)
  }

  lemma JointSteps(first: Operation, second: Operation, joint: Operation)
    requires Joins(first, second, joint)
    ensures Flatten([first, second]) == Flatten([joint])
  {
    hide Flatten;
    assert [first, second] == [first] + [second];
    FlattenConcat([first], [second]);
    FlattenOne(first);
    FlattenOne(second);
    FlattenOne(joint);
    var s := Steps(first) + Steps(second);
    assert Steps(joint) == s by {
      assert |Steps(joint)| == |s|;
      forall k | 0 <= k < |s| ensures Steps(joint)[k] == s[k] {}
    }
  }

  /** Splitting or joining neighbours of one direction leaves the bus conditions as they are. */
  lemma SplitInvisible(address: byte, before: seq<Operation>, first: Operation, second: Operation, joint: Operation,
                       after: seq<Operation>)
    requires Joins(first, second, joint)
    ensures Wire(address, Flatten(before + [first, second] + after)) == Wire(address, Flatten(before + [joint] + after))
  {
    hide Flatten, Wire;
    JointSteps(first, second, joint);
    FlattenConcat(before, [first, second]);
    FlattenConcat(before, [joint]);
    FlattenConcat(before + [first, second], after);
    FlattenConcat(before + [joint], after);
  }

  // ----- Where an operation's bytes are

  function Offset(ops: seq<Operation>, i: nat): nat
    requires i <= |ops|
  {
    if i == 0 then 0 else Offset(ops, i - 1) + ops[i - 1].Length()
  }

  lemma {:induction false} FlattenTo(ops: seq<Operation>, i: nat)
    requires i <= |ops|
    ensures |Flatten(ops[..i])| == Offset(ops, i)
  {
    if i > 0 {
      FlattenTo(ops, i - 1);
      assert ops[..i][..i - 1] == ops[..i - 1];
    }
  }

  lemma FlattenAt(ops: seq<Operation>, i: nat, j: nat)
    requires i < |ops| && j < ops[i].Length()
    ensures Offset(ops, i) + j < |Flatten(ops)| == Offset(ops, |ops|)
    ensures Flatten(ops)[Offset(ops, i) + j] == StepOf(ops[i], j)
  {
    FlattenTo(ops, i);
    FlattenTo(ops, i + 1);
    FlattenTo(ops, |ops|);
    assert ops[..|ops|] == ops;
    assert ops[..i + 1][..i] == ops[..i];
    assert ops == ops[..i + 1] + ops[i + 1..];
    FlattenConcat(ops[..i + 1], ops[i + 1..]);
  }

  lemma {:induction false} OffsetMonotone(ops: seq<Operation>, i: nat, k: nat)
    requires i <= k <= |ops| && AllMove(ops)
    ensures Offset(ops, i) + (k - i) <= Offset(ops, k)
  {
    if i < k { OffsetMonotone(ops, i, k - 1); }
  }

  /** A byte opens or closes a segment where its operation borders on one of the other direction. */
  lemma Borders(ops: seq<Operation>, i: nat, j: nat)
    requires AllMove(ops) && i < |ops| && j < ops[i].Length()
    ensures var steps, k := Flatten(ops), Offset(ops, i) + j;
            && k < |steps| == Offset(ops, |ops|) && steps[k] == StepOf(ops[i], j)
            && (Opens(steps, k) <==> j == 0 && (i == 0 || ops[i - 1].Read? != ops[i].Read?))
            && (Closes(steps, k) <==> j + 1 == ops[i].Length() && (i + 1 == |ops| || ops[i + 1].Read? != ops[i].Read?))
            && (k + 1 == |steps| <==> j + 1 == ops[i].Length() && i + 1 == |ops|)
            && (k == 0 <==> i == 0 && j == 0)
  {
    hide Flatten;
    FlattenAt(ops, i, j);
    OffsetMonotone(ops, 0, i);
    OffsetMonotone(ops, i + 1, |ops|);
    if j > 0 { FlattenAt(ops, i, j - 1); } else if i > 0 { FlattenAt(ops, i - 1, ops[i - 1].Length() - 1); }
    if j + 1 < ops[i].Length() { FlattenAt(ops, i, j + 1); } else if i + 1 < |ops| { FlattenAt(ops, i + 1, 0); }
  }

  // ----- Where received bytes are stored

  /** How many of the received bytes an operation takes, and what it holds then. */
  function Taken(op: Operation, received: seq<byte>): (n: nat)
    ensures n <= |received| && n <= op.Length()
  {
    if op.Write? then 0 else if |op.buffer| < |received| then |op.buffer| else |received|
  }

  function Store(op: Operation, received: seq<byte>): (r: Operation)
    ensures r.Read? == op.Read? && r.Length() == op.Length() && (op.Write? ==> r == op)
  {
    if op.Write? then op else
      var n := Taken(op, received);
      Read(received[..n] + op.buffer[n..])
  }

  /** The operations with `received` stored in the read buffers, in order. */
  function Fill(ops: seq<Operation>, received: seq<byte>): (r: seq<Operation>)
    ensures |r| == |ops|
  {
    if ops == [] then [] else [Store(ops[0], received)] + Fill(ops[1..], received[Taken(ops[0], received)..])
  }

  lemma {:induction false} FillShape(ops: seq<Operation>, received: seq<byte>, i: nat)
    requires i < |ops|
    ensures var op := Fill(ops, received)[i];
            op.Read? == ops[i].Read? && op.Length() == ops[i].Length() && (op.Write? ==> op == ops[i])
  {
    hide Store, Taken;
    if i > 0 { FillShape(ops[1..], received[Taken(ops[0], received)..], i - 1); }
  }

  lemma {:induction false} FillNothing(ops: seq<Operation>)
    ensures Fill(ops, []) == ops
  {
    if ops != [] {
      FillNothing(ops[1..]);
      assert Store(ops[0], []) == ops[0];
    }
  }

  /** How many bytes the operations before i receive. */
  function ReadsTo(ops: seq<Operation>, i: nat): nat
    requires i <= |ops|
  {
    if i == 0 then 0 else ReadsTo(ops, i - 1) + (if ops[i - 1].Read? then ops[i - 1].Length() else 0)
  }

  lemma {:induction false} ReadsFromFront(ops: seq<Operation>, i: nat)
    requires 0 < i <= |ops|
    ensures ReadsTo(ops, i) == (if ops[0].Read? then ops[0].Length() else 0) + ReadsTo(ops[1..], i - 1)
  {
    if i > 1 { ReadsFromFront(ops, i - 1); }
  }

  lemma StoreNext(op: Operation, received: seq<byte>, b: byte)
    requires op.Read? && |received| < |op.buffer|
    ensures Taken(op, received) == |received| && Taken(op, received + [b]) == |received| + 1
    ensures Store(op, received + [b]) == Read(Store(op, received).buffer[|received| := b])
  {
    var j := |received|;
    assert (received + [b])[..j + 1] == received + [b] && received[..j] == received;
    assert (received + [b]) + op.buffer[j + 1..] == (received + op.buffer[j..])[j := b];
  }

  lemma StoreFull(op: Operation, received: seq<byte>, b: byte)
    requires op.Write? || |op.buffer| <= |received|
    ensures var n := Taken(op, received);
            && n == (if op.Read? then op.Length() else 0) == Taken(op, received + [b])
            && Store(op, received + [b]) == Store(op, received)
            && (received + [b])[n..] == received[n..] + [b]
  {
    var n := Taken(op, received);
    assert (received + [b])[..n] == received[..n];
  }

  lemma {:induction false} ReadsFull(ops: seq<Operation>, i: nat, n: nat)
    requires 0 < i <= |ops| && n >= ReadsTo(ops, i)
    ensures ops[0].Write? || |ops[0].buffer| <= n
  {
    ReadsFromFront(ops, i);
  }

  /** Storing the next byte. */
  lemma {:induction false} FillNext(ops: seq<Operation>, received: seq<byte>, i: nat, j: nat, b: byte)
    requires i < |ops| && ops[i].Read? && j < |ops[i].buffer| && |received| == ReadsTo(ops, i) + j
    ensures var now := Fill(ops, received);
            && now[i].Read? && |now[i].buffer| == |ops[i].buffer|
            && Fill(ops, received + [b]) == now[i := Read(now[i].buffer[j := b])]
  {
    hide Store, Taken, ReadsTo;
    FillShape(ops, received, i);
    var op := ops[0];
    var now, n := Fill(ops, received), Taken(op, received);
    if i == 0 {
      ReadsNone(ops);
      StoreNext(op, received, b);
      assert received[n..] == [] == (received + [b])[n + 1..];
    } else {
      ReadsFull(ops, i, |received|);
      StoreFull(op, received, b);
      ReadsFromFront(ops, i);
      FillNext(ops[1..], received[n..], i - 1, j, b);
    }
  }

  lemma ReadsNone(ops: seq<Operation>)
    ensures ReadsTo(ops, 0) == 0
  {}

  /** Received bytes go to the read buffers in order, and nothing else changes. */
  lemma {:induction false} FillAt(ops: seq<Operation>, received: seq<byte>, i: nat, j: nat)
    requires i < |ops| && ops[i].Read? && j < |ops[i].buffer|
    ensures var op, at := Fill(ops, received)[i], ReadsTo(ops, i) + j;
            && op.Read? && |op.buffer| == |ops[i].buffer|
            && op.buffer[j] == if at < |received| then received[at] else ops[i].buffer[j]
  {
    hide ReadsTo, Store, Taken;
    FillShape(ops, received, i);
    var n := Taken(ops[0], received);
    if i == 0 {
      ReadsNone(ops);
      StoreAt(ops[0], received, j);
    } else {
      ReadsFromFront(ops, i);
      var rest, at := received[n..], ReadsTo(ops[1..], i - 1) + j;
      FillAt(ops[1..], rest, i - 1, j);
      TakenOf(ops[0], received);
      if at < |rest| { assert rest[at] == received[n + at]; }
    }
  }

  lemma StoreAt(op: Operation, received: seq<byte>, j: nat)
    requires op.Read? && j < |op.buffer|
    ensures Store(op, received).buffer[j] == if j < |received| then received[j] else op.buffer[j]
  {}

  lemma TakenOf(op: Operation, received: seq<byte>)
    ensures var n, m := Taken(op, received), if op.Read? then op.Length() else 0;
            n == if m < |received| then m else if op.Read? then |received| else 0
  {}
}
