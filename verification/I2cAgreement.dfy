/** Two drivers, one bus: the bit-bang engine and the controller engine produce the same bus conditions. */
module I2cAgreement {
  import opened Bytes
  import opened I2cWire
  import Bl702I2c
  import Cc2340I2c

  lemma MoreWhereNext(ops: seq<Operation>, i: nat)
    requires AllMove(ops)
    ensures Bl702I2c.MoreToRead(ops, i) <==> i < |ops| && ops[i].Read?
  {}

  /** The calls of one byte, with the start and address that come before the first byte of a run. */
  lemma ByteIsStep(address: byte, ops: seq<Operation>, i: nat, j: nat)
    requires AllMove(ops) && i < |ops| && j < ops[i].Length()
    ensures Offset(ops, i) + j < |Flatten(ops)|
    ensures StepEvents(address, Flatten(ops), Offset(ops, i) + j)
            == (if j == 0 then Bl702I2c.Head(address, ops, i) else []) + [Bl702I2c.ByteEvent(ops, i, j)]
  {
    hide Flatten, Opens, Closes, AddressByte;
    Borders(ops, i, j);
    MoreWhereNext(ops, i + 1);
  }

  lemma {:induction false} CallsAreSteps(address: byte, ops: seq<Operation>, i: nat, j: nat)
    requires AllMove(ops) && i < |ops| && 0 < j <= ops[i].Length()
    ensures Offset(ops, i) + j <= |Flatten(ops)|
    ensures Bl702I2c.Upto(address, ops, i, j) == EventsTo(address, Flatten(ops), Offset(ops, i) + j)
    decreases i, j
  {
    hide Flatten, StepEvents, Bl702I2c.Head, Bl702I2c.ByteEvent;
    ByteIsStep(address, ops, i, j - 1);
    var head := Bl702I2c.Head(address, ops, i);
    assert Bl702I2c.Body(ops, i, 1) == [Bl702I2c.ByteEvent(ops, i, 0)];
    assert Bl702I2c.Before(address, ops, i) + head + [Bl702I2c.ByteEvent(ops, i, 0)]
        == Bl702I2c.Before(address, ops, i) + (head + [Bl702I2c.ByteEvent(ops, i, 0)]);
    if j > 1 {
      CallsAreSteps(address, ops, i, j - 1);
    } else if i > 0 {
      CallsAreSteps(address, ops, i - 1, ops[i - 1].Length());
    }
  }

  /** Without empty operations, the bit-bang engine produces the reference sequence. */
  lemma BitBangIsWire(address: byte, ops: seq<Operation>)
    requires AllMove(ops)
    ensures Bl702I2c.Calls(address, ops) == Wire(address, Flatten(ops))
  {
    if ops != [] {
      var i := |ops| - 1;
      CallsAreSteps(address, ops, i, ops[i].Length());
      FlattenAt(ops, i, 0);
    }
  }

  /** The controller engine produces it too. */
  lemma ControllerIsWire(address: byte, ops: seq<Operation>)
    requires ops != [] && AllMove(ops)
    ensures Cc2340I2c.CleanBus(address, ops) == Wire(address, Flatten(ops))
  {
    var steps := Flatten(ops);
    FlattenAt(ops, 0, 0);
    Cc2340I2c.LogOnBus(address, steps, |steps|);
  }

  /** The engines agree exactly on the lists that both take: not empty, and without empty operations. */
  lemma EnginesAgree(address: byte, ops: seq<Operation>)
    ensures Bl702I2c.Calls(address, ops) == Cc2340I2c.CleanBus(address, ops) <==> ops != [] && AllMove(ops)
  {
    hide Flatten, Wire, Cc2340I2c.OnBus, Cc2340I2c.LogTo, Bl702I2c.Before;
    if ops != [] && AllMove(ops) {
      BitBangIsWire(address, ops);
      ControllerIsWire(address, ops);
    }
  }

  /** On both buses, borders between neighbours of one direction do not show. */
  lemma SplitOnBothBuses(address: byte, before: seq<Operation>, first: Operation, second: Operation, joint: Operation,
                         after: seq<Operation>)
    requires Joins(first, second, joint) && AllMove(before) && AllMove(after) && first.Length() > 0
    requires second.Length() > 0
    ensures Bl702I2c.Calls(address, before + [first, second] + after)
              == Bl702I2c.Calls(address, before + [joint] + after)
    ensures Cc2340I2c.CleanBus(address, before + [first, second] + after)
              == Cc2340I2c.CleanBus(address, before + [joint] + after)
  {
    hide Flatten, Wire, Bl702I2c.Calls, Cc2340I2c.CleanBus;
    var split, whole := before + [first, second] + after, before + [joint] + after;
    SplitInvisible(address, before, first, second, joint, after);
    BitBangIsWire(address, split);
    BitBangIsWire(address, whole);
    ControllerIsWire(address, split);
    ControllerIsWire(address, whole);
  }
}
