/**
 64-bit time on the EFR32 Series 2 RTCC (efr32s2-hal/src/rtcc.rs, efr32s2-hal/src/time_driver.rs):
 a lock-free sample of a wrapping counter, its overflow flag and a software epoch, taken by a
 thread that the overflow interrupt may pre-empt between any two reads, and by the interrupt
 handler itself. The hardware counter may tick between any two steps.
 */
module RtccTime {
  import opened Wrappers

  /** The counter's range. */
  const WRAP: nat := 0x1_0000_0000

  function Low(time: nat): nat {
    time % WRAP
  }

  function Epoch(time: nat): nat {
    time / WRAP
  }

  /** `rtcc::extend`. */
  function Extend(epochBefore: nat, epochAfter: nat, lowBefore: nat, lowAfter: nat, pending: bool): Option<nat> {
    if epochBefore != epochAfter then None
    else Some((epochBefore + if pending || lowAfter < lowBefore then 1 else 0) * WRAP + lowAfter)
  }

  // ----- One call of now64

  /** Where a call of `now64` stands. `began`, `first` and `at` are true times, kept to state what
      the call returns; the code itself holds only the epoch, the two low words and the flag. */
  datatype Call =
    | Idle
    | Begun(began: nat)
    | HaveEpoch(began: nat, epoch: nat)
    | HaveLow(began: nat, epoch: nat, low: nat, first: nat)
    | HaveFlag(began: nat, epoch: nat, low: nat, first: nat, pending: bool)
    | HaveBoth(began: nat, epoch: nat, low: nat, first: nat, pending: bool, again: nat, at: nat)

  datatype Context = Thread | Handler

  /** A finished call: the value it returned, and the true times of its start, its two counter
      reads and its return. */
  datatype Sample = Sample(who: Context, value: nat, began: nat, first: nat, pending: bool, at: nat, done: nat)

  /** The RTCC handler: entered, flags read, flags cleared, and overflow noted. */
  datatype Isr = Out | Entered | Took(overflow: bool) | Cleared(overflow: bool) | Noted

  datatype State = State(
    time: nat,          // ticks since start: the true 64-bit time
    wraps: nat,         // WRAPS
    flag: bool,         // RTCC_IF.OF
    masked: bool,       // the thread is in a critical section
    isr: Isr,
    thread: Call,
    handler: Call,
    log: seq<Sample>)

  datatype Step =
    | Tick
    | Mask | Unmask
    | EnterIsr | TakeFlags | ClearFlags | NoteOverflow | LeaveIsr
    | Read(who: Context)   // the next read, or the return, of the context's now64

  const START := State(0, 0, false, false, Out, Idle, Idle, [])

  /** Every read of `now64` but the last. */
  function Advance(s: State, c: Call): Call
    requires !c.HaveBoth?
  {
    match c
    case Idle => Begun(s.time)
    case Begun(b) => HaveEpoch(b, s.wraps)
    case HaveEpoch(b, e) => HaveLow(b, e, Low(s.time), s.time)
    case HaveLow(b, e, l, f) => HaveFlag(b, e, l, f, s.flag)
    case HaveFlag(b, e, l, f, p) => HaveBoth(b, e, l, f, p, Low(s.time), s.time)
  }

  /** The last read of `now64`: return the resolved value, or take the sample again. */
  function Resolve(s: State, who: Context, c: Call): (Call, seq<Sample>)
    requires c.HaveBoth?
  {
    match Extend(c.epoch, s.wraps, c.low, c.again, c.pending)
    case None => (Begun(c.began), s.log)
    case Some(v) => (Idle, s.log + [Sample(who, v, c.began, c.first, c.pending, c.at, s.time)])
  }

  function ReadStep(s: State, who: Context): State {
    var c := if who == Thread then s.thread else s.handler;
    var (c', log') := if c.HaveBoth? then Resolve(s, who, c) else (Advance(s, c), s.log);
    if who == Thread then s.(thread := c', log := log') else s.(handler := c', log := log')
  }

  /** An overflow that WRAPS does not count yet. */
  predicate Owed(s: State) {
    s.flag || s.isr == Cleared(true)
  }

  /** The pre-emption rules, and the two facts about the hardware that the code relies on: the
      overflow interrupt is serviced before the next wrap, and 64 bits of ticks do not run out. */
  predicate Enabled(s: State, step: Step) {
    match step
    case Tick => s.time + 1 < WRAP * WRAP && (Low(s.time + 1) == 0 ==> !Owed(s))
    case Mask => s.isr == Out
    case Unmask => s.isr == Out
    case EnterIsr => s.isr == Out && !s.masked
    case TakeFlags => s.isr == Entered
    case ClearFlags => s.isr.Took?
    case NoteOverflow => s.isr.Cleared?
    case LeaveIsr => s.isr == Noted && s.handler == Idle
    case Read(who) => if who == Thread then s.isr == Out else s.isr == Noted
  }

  function Next(s: State, step: Step): State
    requires Enabled(s, step)
  {
    match step
    case Tick => s.(time := s.time + 1, flag := s.flag || Low(s.time + 1) == 0)
    case Mask => s.(masked := true)
    case Unmask => s.(masked := false)
    case EnterIsr => s.(isr := Entered)
    case TakeFlags => s.(isr := Took(s.flag))
    case ClearFlags => s.(isr := Cleared(s.isr.overflow), flag := s.flag && !s.isr.overflow)
    case NoteOverflow =>
      s.(isr := Noted, wraps := if s.isr.overflow then (s.wraps + 1) % WRAP else s.wraps)
    case LeaveIsr => s.(isr := Out)
    case Read(who) => ReadStep(s, who)
  }

  /** Runs, as the list of their steps. */
  ghost predicate Run(s: State, steps: seq<Step>, t: State)
    decreases |steps|
  {
    if steps == [] then s == t
    else Enabled(s, steps[0]) && Run(Next(s, steps[0]), steps[1..], t)
  }

  // ----- The invariant

  /** The epoch law: hardware time is what WRAPS counts plus the overflow it does not count yet. */
  predicate EpochLaw(s: State) {
    && s.time < WRAP * WRAP
    && (s.isr == Took(true) ==> s.flag)
    && !(s.flag && s.isr == Cleared(true))
    && Epoch(s.time) == s.wraps + if Owed(s) then 1 else 0
  }

  /** What an unfinished sample knows as long as the epoch it read is still the epoch. */
  predicate CallInv(time: nat, wraps: nat, c: Call) {
    match c
    case Idle => true
    case Begun(b) => b <= time
    case HaveEpoch(b, e) => b <= time && e <= wraps
    case HaveLow(b, e, l, f) =>
      && b <= f <= time && e <= wraps && l == Low(f)
      && (e == wraps ==> e <= Epoch(f))
    case HaveFlag(b, e, l, f, p) =>
      && b <= f <= time && e <= wraps && l == Low(f)
      && (e == wraps ==> if p then Epoch(time) == e + 1 else Epoch(f) == e)
    case HaveBoth(b, e, l, f, p, g, a) =>
      && b <= f <= a <= time && e <= wraps && l == Low(f) && g == Low(a)
      && (e == wraps ==> if p then Epoch(a) == e + 1 else Epoch(f) == e <= Epoch(a) <= e + 1)
  }

  /** A returned value is the true time of the second counter read, unless the sample took a whole
      wrap of the counter and saw no flag; then, and only then, it is wrong, by one wrap too early. */
  predicate SampleOk(x: Sample) {
    && x.began <= x.first <= x.at <= x.done
    && x.value == if Sound(x) then x.at else x.at - WRAP
  }

  /** The sample saw the overflow flag, or took less than one wrap of the counter. */
  predicate Sound(x: Sample) {
    x.pending || x.at - x.first < WRAP
  }

  /** The calls of one context follow one another. */
  predicate LogInv(log: seq<Sample>, who: Context, c: Call) {
    && (forall i, j :: 0 <= i < j < |log| && log[i].who == log[j].who == who ==> log[i].done <= log[j].began)
    && (!c.Idle? ==> forall i :: 0 <= i < |log| && log[i].who == who ==> log[i].done <= c.began)
  }

  predicate Inv(s: State) {
    && EpochLaw(s)
    && CallInv(s.time, s.wraps, s.thread) && CallInv(s.time, s.wraps, s.handler)
    && (forall x :: x in s.log ==> SampleOk(x) && x.done <= s.time)
    && LogInv(s.log, Thread, s.thread) && LogInv(s.log, Handler, s.handler)
  }

  lemma EpochTick(time: nat)
    ensures Epoch(time + 1) == Epoch(time) + if Low(time + 1) == 0 then 1 else 0
  {}

  lemma EpochMonotone(a: nat, b: nat)
    requires a <= b
    ensures Epoch(a) <= Epoch(b)
  {}

  /** Two reads one epoch apart: the low word went backwards exactly when less than a wrap passed. */
  lemma WentBackwards(f: nat, a: nat)
    requires f <= a && Epoch(f) <= Epoch(a) <= Epoch(f) + 1
    ensures Epoch(a) == Epoch(f) + (if Low(a) < Low(f) then 1 else 0) <==> a - f < WRAP
  {
    assert a == WRAP * Epoch(a) + Low(a) && f == WRAP * Epoch(f) + Low(f);
  }

  lemma ResolveOk(s: State, who: Context, c: Call)
    requires EpochLaw(s) && CallInv(s.time, s.wraps, c) && c.HaveBoth? && c.epoch == s.wraps
    ensures SampleOk(Returned(s, who, c))
  {
    assert c.at == WRAP * Epoch(c.at) + Low(c.at);
    if !c.pending {
      WentBackwards(c.first, c.at);
    }
  }

  lemma TickKeeps(s: State)
    requires Inv(s) && Enabled(s, Tick)
    ensures Inv(Next(s, Tick))
  {
    EpochTick(s.time);
  }

  lemma AdvanceKeeps(s: State, c: Call)
    requires EpochLaw(s) && CallInv(s.time, s.wraps, c) && !c.HaveBoth? && (s.isr == Out || s.isr == Noted)
    ensures CallInv(s.time, s.wraps, Advance(s, c))
  {
    if c.HaveLow? || c.HaveFlag? { EpochMonotone(c.first, s.time); }
  }

  /** Appending the sample of a call that returns now keeps the order of each context's calls. */
  lemma AppendKeeps(log: seq<Sample>, who: Context, c: Call, x: Sample)
    requires LogInv(log, who, c) && !c.Idle? && x.who == who && x.began == c.began
    ensures LogInv(log + [x], who, Idle)
  {}

  lemma OtherKeeps(log: seq<Sample>, who: Context, c: Call, x: Sample)
    requires LogInv(log, who, c) && x.who != who
    ensures LogInv(log + [x], who, c)
  {}

  function Returned(s: State, who: Context, c: Call): Sample
    requires c.HaveBoth? && c.epoch == s.wraps
  {
    Sample(who, Extend(c.epoch, s.wraps, c.low, c.again, c.pending).value, c.began, c.first, c.pending, c.at, s.time)
  }

  lemma ReturnKeeps(s: State, who: Context, c: Call)
    requires Inv(s) && c.HaveBoth? && c.epoch == s.wraps
    requires if who == Thread then s.thread == c else s.handler == c
    ensures Inv(ReadStep(s, who))
  {
    var x := Returned(s, who, c);
    ResolveOk(s, who, c);
    AppendKeeps(s.log, who, c, x);
    if who == Thread {
      OtherKeeps(s.log, Handler, s.handler, x);
    } else {
      OtherKeeps(s.log, Thread, s.thread, x);
    }
    assert ReadStep(s, who).log == s.log + [x];
    assert forall y :: y in s.log + [x] ==> y in s.log || y == x;
  }

  lemma ReadKeeps(s: State, who: Context)
    requires Inv(s) && Enabled(s, Read(who))
    ensures Inv(Next(s, Read(who)))
  {
    hide Inv, EpochLaw;
    var c := if who == Thread then s.thread else s.handler;
    if !c.HaveBoth? {
      OnwardKeeps(s, who, c);
    } else if c.epoch == s.wraps {
      ReturnKeeps(s, who, c);
    } else {
      AgainKeeps(s, who, c);
    }
  }

  /** A read that does not finish the sample. */
  lemma OnwardKeeps(s: State, who: Context, c: Call)
    requires Inv(s) && !c.HaveBoth? && (s.isr == Out || s.isr == Noted)
    requires if who == Thread then s.thread == c else s.handler == c
    ensures Inv(ReadStep(s, who))
  {
    hide EpochLaw, CallInv, SampleOk;
    AdvanceKeeps(s, c);
    EpochIgnoresCalls(s, ReadStep(s, who));
  }

  /** A sample that is taken again. */
  lemma AgainKeeps(s: State, who: Context, c: Call)
    requires Inv(s) && c.HaveBoth? && c.epoch != s.wraps
    requires if who == Thread then s.thread == c else s.handler == c
    ensures Inv(ReadStep(s, who))
  {
    hide EpochLaw, SampleOk;
    EpochIgnoresCalls(s, ReadStep(s, who));
  }

  lemma EpochIgnoresCalls(s: State, t: State)
    requires EpochLaw(s) && s.time == t.time && s.wraps == t.wraps && s.flag == t.flag && s.isr == t.isr
    ensures EpochLaw(t)
  {}

  lemma NoteKeeps(s: State)
    requires Inv(s) && Enabled(s, NoteOverflow)
    ensures Inv(Next(s, NoteOverflow))
  {
    assert Epoch(s.time) < WRAP;
  }

  lemma StepKeeps(s: State, step: Step)
    requires Inv(s) && Enabled(s, step)
    ensures Inv(Next(s, step))
  {
    match step
    case Tick => TickKeeps(s);
    case Read(who) => ReadKeeps(s, who);
    case NoteOverflow => NoteKeeps(s);
    case _ =>
  }

  lemma {:induction false} RunKeeps(s: State, steps: seq<Step>, t: State)
    requires Inv(s) && Run(s, steps, t)
    ensures Inv(t)
    decreases |steps|
  {
    if steps != [] {
      StepKeeps(s, steps[0]);
      RunKeeps(Next(s, steps[0]), steps[1..], t);
    }
  }

  /** In every run, every value `now64` has returned, to the thread or to the handler, is the true
      64-bit time at its second counter read exactly when the sample saw the overflow flag or took
      less than one wrap of the counter. */
  lemma SamplesAreTrueTime(steps: seq<Step>, t: State)
    requires Run(START, steps, t)
    ensures forall x :: x in t.log ==> x.began <= x.first <= x.at <= x.done && (x.value == x.at <==> Sound(x))
    ensures forall x :: x in t.log && !Sound(x) ==> x.value == x.at - WRAP
  {
    RunKeeps(START, steps, t);
  }

  /** A sound call that begins after another has returned never returns less, whoever makes the calls. */
  lemma NeverBackwards(steps: seq<Step>, t: State, a: Sample, b: Sample)
    requires Run(START, steps, t) && a in t.log && b in t.log
    requires Sound(b) && a.done <= b.began
    ensures a.value <= b.value
  {
    RunKeeps(START, steps, t);
  }

  /** In particular a sound result of one context is never below its earlier results. */
  lemma SuccessiveResults(steps: seq<Step>, t: State, i: nat, j: nat)
    requires Run(START, steps, t) && i < j < |t.log| && t.log[i].who == t.log[j].who
    requires Sound(t.log[j])
    ensures t.log[i].value <= t.log[j].value
  {
    RunKeeps(START, steps, t);
    assert t.log[i] in t.log && t.log[j] in t.log;
  }
}
