/**
 The bus from the other end: a target that follows the I2C protocol, addressed by both engines, hears exactly the
 bytes that the operations stand for.
 */
module I2cTarget {
  import opened Bytes
  import opened I2cWire
  import opened I2cAgreement
  import Bl702I2c
  import Cc2340I2c

  /** Where a target is in the protocol: before a start, before the address byte, taking bytes, giving bytes (with
      more to give if the last was acknowledged), after the stop, or confused. */
  datatype Mode = Idle | Called | Taking | Giving(more: bool) | Ended | Confused

  datatype Ear = Ear(mode: Mode, heard: seq<Step>)

  /** The protocol: a repeated start or a stop comes after a byte that was sent, or after one that was not
      acknowledged; the next byte is asked for only after an acknowledged one. */
  function Hear(address: byte, e: Ear, event: Event): Ear {
    match (e.mode, event)
    case (Idle, Start) => e.(mode := Called)
    case (Called, Put(b)) =>
      e.(mode := if b / 2 != address then Confused else if b % 2 == 1 then Giving(true) else Taking)
    case (Taking, Put(b)) => e.(heard := e.heard + [Send(b)])
    case (Giving(true), Get(acknowledge)) => Ear(Giving(acknowledge), e.heard + [Receive])
    case (Taking, RepeatedStart) => e.(mode := Called)
    case (Giving(false), RepeatedStart) => e.(mode := Called)
    case (Taking, Stop) => e.(mode := Ended)
    case (Giving(false), Stop) => e.(mode := Ended)
    case _ => e.(mode := Confused)
  }

  function HearAll(address: byte, e: Ear, events: seq<Event>): Ear {
    if events == [] then e
    else Hear(address, HearAll(address, e, events[..|events| - 1]), events[|events| - 1])
  }

  const SILENCE: Ear := Ear(Idle, [])

  lemma {:induction false} HearsOn(address: byte, e: Ear, a: seq<Event>, b: seq<Event>)
    ensures HearAll(address, e, a + b) == HearAll(address, HearAll(address, e, a), b)
  {
    hide Hear;
    if b == [] {
      assert a + b == a;
    } else {
      var c := b[..|b| - 1];
      assert (a + b)[..|a + b| - 1] == a + c;
      HearsOn(address, e, a, c);
    }
  }

  lemma HearOne(address: byte, e: Ear, event: Event)
    ensures HearAll(address, e, [event]) == Hear(address, e, event)
  {
    hide Hear;
    assert [event][..0] == [];
  }

  lemma HearThree(address: byte, e: Ear, a: Event, b: Event, c: Event)
    ensures HearAll(address, e, [a, b] + [c]) == Hear(address, Hear(address, Hear(address, e, a), b), c)
  {
    hide Hear;
    HearOne(address, e, a);
    HearOne(address, Hear(address, e, a), b);
    HearOne(address, Hear(address, Hear(address, e, a), b), c);
    assert [a, b] == [a] + [b];
    HearsOn(address, e, [a], [b]);
    HearsOn(address, e, [a, b], [c]);
  }

  /** What the target has heard of the first n bytes. */
  function HeardTo(steps: seq<Step>, n: nat): Ear
    requires n <= |steps|
  {
    if n == 0 then SILENCE
    else Ear(if steps[n - 1].Receive? then Giving(!Closes(steps, n - 1)) else Taking, steps[..n])
  }

  /** One byte, with what comes before it. */
  lemma StepHeard(address: byte, steps: seq<Step>, k: nat)
    requires k < |steps| && address < 128
    ensures HearAll(address, HeardTo(steps, k), StepEvents(address, steps, k)) == HeardTo(steps, k + 1)
  {
    hide AddressByte, HearAll;
    var e, read := HeardTo(steps, k), steps[k].Receive?;
    var start := if k == 0 then Start else RepeatedStart;
    var event := if read then Get(!Closes(steps, k)) else Put(steps[k].data);
    assert steps[..k + 1] == steps[..k] + [steps[k]];
    if Opens(steps, k) {
      HearThree(address, e, start, Put(AddressByte(address, read)), event);
    } else {
      assert StepEvents(address, steps, k) == [event];
      HearOne(address, e, event);
    }
  }

  lemma {:induction false} EventsHeard(address: byte, steps: seq<Step>, n: nat)
    requires n <= |steps| && address < 128
    ensures HearAll(address, SILENCE, EventsTo(address, steps, n)) == HeardTo(steps, n)
  {
    hide HearAll, StepEvents, HeardTo;
    if n == 0 {
      NothingHeard(address, steps);
    } else {
      EventsHeard(address, steps, n - 1);
      HearsOn(address, SILENCE, EventsTo(address, steps, n - 1), StepEvents(address, steps, n - 1));
      StepHeard(address, steps, n - 1);
    }
  }

  lemma NothingHeard(address: byte, steps: seq<Step>)
    ensures HearAll(address, SILENCE, []) == HeardTo(steps, 0)
  {}

  /** The reference sequence is understood: nothing confuses the target, and it hears exactly the bytes. */
  lemma WireHeard(address: byte, steps: seq<Step>)
    requires address < 128 && steps != []
    ensures HearAll(address, SILENCE, Wire(address, steps)) == Ear(Ended, steps)
  {
    hide HearAll, EventsTo;
    var n := |steps|;
    EventsHeard(address, steps, n);
    HearsOn(address, SILENCE, EventsTo(address, steps, n), [Stop]);
    HearOne(address, HeardTo(steps, n), Stop);
    assert steps[..n] == steps;
  }

  /** Both engines are understood, byte for byte. */
  lemma TargetHears(address: byte, ops: seq<Operation>)
    requires address < 128 && ops != [] && AllMove(ops)
    ensures HearAll(address, SILENCE, Bl702I2c.Calls(address, ops)) == Ear(Ended, Flatten(ops))
    ensures HearAll(address, SILENCE, Cc2340I2c.CleanBus(address, ops)) == Ear(Ended, Flatten(ops))
  {
    hide HearAll, Wire, Bl702I2c.Calls, Cc2340I2c.CleanBus, Flatten;
    BitBangIsWire(address, ops);
    ControllerIsWire(address, ops);
    FlattenAt(ops, 0, 0);
    WireHeard(address, Flatten(ops));
  }
}
