/**
 The alarm side of the EFR32 Series 2 time driver (efr32s2-hal/src/time_driver.rs, rtcc.rs): one compare
 channel of a free-running counter, armed relative to a reading that is already old when it is used, must
 not miss a queued deadline. Time passes between any two register accesses.
 */
module RtccAlarm {
  import opened Wrappers
  import opened TimerQueues
  import opened SystimDriver
  import RtccTime

  const MIN_ARM_TICKS: nat := 3
  const MAX_ARM_TICKS: nat := 0x7FFF_FFFF

  /** The ticks that may pass between two register accesses made with interrupts masked: `arm` relies on
      fewer than `MIN_ARM_TICKS` in its two steps from reading the counter to clearing the flag. */
  const ACCESS_TICKS: nat := 1

  /** How late an alarm may be: two accesses between the reading and arming, and the minimum distance. */
  const LATENCY: nat := 2 * ACCESS_TICKS + MIN_ARM_TICKS - 1

  /** The tick at which the model's clock stops: 64 bits are about to run out. */
  const LAST_TICK: nat := 0xFFFF_FFF0_0000_0000

  // ----- rtcc.rs

  /** `compare_value`. */
  function CompareValue(deadline: nat): (r: nat)
    ensures r < WRAP && (r + 1) % WRAP == deadline % WRAP
  {
    (deadline % WRAP + WRAP - 1) % WRAP
  }

  /** `ticks_until`. */
  function TicksUntil(now: nat, deadline: nat): (r: Option<nat>)
    ensures r.None? <==> deadline <= now
    ensures r.Some? ==> MIN_ARM_TICKS <= r.value <= MAX_ARM_TICKS && now + r.value < deadline + MIN_ARM_TICKS
    ensures r.Some? ==> deadline <= now + r.value || r.value == MAX_ARM_TICKS
  {
    if deadline <= now then None
    else if deadline - now > MAX_ARM_TICKS then Some(MAX_ARM_TICKS)
    else if deadline - now < MIN_ARM_TICKS then Some(MIN_ARM_TICKS)
    else Some(deadline - now)
  }

  /** `reached`. */
  function Reached(now: nat, deadline: nat): bool
    requires now < WRAP && deadline < WRAP
  {
    (now + WRAP - deadline) % WRAP < 0x8000_0000
  }

  /** On low words, `reached` decides a deadline that is less than half the range away, either way. */
  lemma ReachedDecides(now: nat, deadline: nat)
    requires deadline <= now + MAX_ARM_TICKS && now < deadline + 0x8000_0000
    ensures Reached(now % WRAP, deadline % WRAP) <==> deadline <= now
  {
    assert now == WRAP * (now / WRAP) + now % WRAP && deadline == WRAP * (deadline / WRAP) + deadline % WRAP;
    var d: int := now / WRAP - deadline / WRAP;
    assert now - deadline == WRAP * d + now % WRAP - deadline % WRAP;
    assert -1 <= d <= 1;
  }

  /** A compare value that makes the flag rise at times congruent to `target`. */
  ghost predicate Aims(ocvalue: nat, target: nat) {
    ocvalue < WRAP && (ocvalue + 1) % WRAP == target % WRAP
  }

  /** When the flag rises next: as the counter steps past the compare value. */
  ghost function NextRise(time: nat, ocvalue: nat): nat {
    NextMatch(time, (ocvalue + 1) % WRAP)
  }

  lemma RisesAtTarget(time: nat, ocvalue: nat, target: nat)
    requires Aims(ocvalue, target) && time < target <= time + WRAP
    ensures NextRise(time, ocvalue) == target
  {
    MatchIsTarget(time, target);
  }

  /** Besides the late effect of a compare write, which this model leaves out, a second reason for a minimum
      distance: an alarm whose target has come before `arm` clears the flag waits for the counter to wrap. */
  lemma LateClearLosesAlarm(cleared: nat, ocvalue: nat, target: nat)
    requires Aims(ocvalue, target) && target <= cleared < target + WRAP
    ensures NextRise(cleared, ocvalue) == target + WRAP
  {
    assert (target + WRAP) % WRAP == target % WRAP;
    RisesAtTarget(cleared, ocvalue, target + WRAP);
  }

  lemma AimsAhead(time: nat, ticks: nat)
    ensures Aims(CompareValue(time % WRAP + ticks), time + ticks)
  {}

  class Alarm {
    // The hardware: the true time, whose low word is the counter, its overflow flag, and compare channel 0.
    var time: nat
    var overflow: bool
    var ocvalue: nat
    var flag: bool
    var enabled: bool
    // WRAPS: the overflows handled.
    var wraps: nat
    const queue: TimerQueue
    // The 64-bit time at which the armed compare raises the flag, and the reading it was armed from.
    ghost var target: nat
    ghost var armedAt: nat

    /** Hardware time is what `wraps` counts, plus the one overflow that may not be handled yet. */
    ghost predicate Ticking()
      reads this
    {
      ocvalue < WRAP && time < LAST_TICK && time / WRAP == wraps + if overflow then 1 else 0
    }

    ghost predicate Ready()
      reads this, queue, queue.entries
    {
      queue.Valid() && queue.entries.Length > 0 && Ticking()
    }

    /** The channel is armed for `target`: the flag is raised exactly when the target has come. */
    ghost predicate Armed()
      reads this
    {
      && enabled && Aims(ocvalue, target)
      && target < time + WRAP && (flag <==> target <= time)
    }

    /** The invariant between operations: the compare is armed for a moment at most `LATENCY` past every deadline, and
        not before the first of them unless that is too far; or there is no deadline that 64 bits can reach, and the
        alarm is off. */
    ghost predicate Valid()
      reads this, queue, queue.entries
    {
      && Ready()
      && if enabled then Armed() && InTime(target, queue.deadlines) && NotEarly(target, armedAt, queue.deadlines)
         else NoLaterThan(U64_MAX, queue.deadlines)
    }

    constructor (capacity: nat)
      requires capacity > 0
      ensures Valid() && fresh(queue) && fresh(queue.entries) && queue.deadlines == map[]
    {
      queue := new TimerQueue(capacity);
      time, overflow, wraps := 0, false, 0;
      ocvalue, flag, enabled, target, armedAt := 0, false, false, 0, 0;
    }

    /** No second overflow comes before the first is handled. */
    ghost predicate InEpoch(dt: nat)
      reads this
    {
      time + dt < LAST_TICK && (time + dt) / WRAP <= wraps + 1
    }

    /** The hardware: `dt` ticks pass; the flags are raised as the counter steps past the compare value, and
        as it wraps. */
    method Advance(dt: nat)
      requires Ticking() && InEpoch(dt)
      modifies `time, `flag, `overflow
      ensures Ticking() && time == old(time) + dt
      ensures flag == (old(flag) || NextRise(old(time), ocvalue) <= time)
      ensures old(overflow) ==> overflow
      ensures old(Armed()) ==> Armed()
    {
      hide Aims;
      if Armed() && time < target { RisesAtTarget(time, ocvalue, target); }
      if NextMatch(time, (ocvalue + 1) % WRAP) <= time + dt {
        flag := true;
      }
      EpochGrows(time, dt);
      if (time + dt) / WRAP > time / WRAP {
        overflow := true;
      }
      time := time + dt;
    }

    /** Time passes between operations, as long as the overflow interrupt is serviced before the next wrap. A
        deadline that is `LATENCY` overdue always shows as a raised interrupt; and none is raised before a deadline has
        come, or the longest alarm has run out. */
    method Elapse(dt: nat)
      requires Valid() && InEpoch(dt)
      modifies `time, `flag, `overflow
      ensures Valid() && time == old(time) + dt
      ensures forall w :: w in queue.deadlines && queue.deadlines[w] + LATENCY <= time ==> enabled && flag
      ensures enabled && flag ==> SomeDue(queue.deadlines, time) || armedAt + MAX_ARM_TICKS <= time
    {
      Advance(dt);
    }

    /** Time passes between two register accesses. */
    method Pause()
      requires Ticking()
      modifies `time, `flag, `overflow
      ensures Ticking() && old(time) <= time <= old(time) + ACCESS_TICKS
      ensures flag == (old(flag) || NextRise(old(time), ocvalue) <= time)
      ensures old(overflow) ==> overflow
      ensures old(Armed()) ==> Armed()
    {
      var dt: nat :| dt <= ACCESS_TICKS && time + dt < LAST_TICK && (time + dt) / WRAP <= wraps + 1 by {
        assert 0 <= ACCESS_TICKS && time + 0 < LAST_TICK && (time + 0) / WRAP <= wraps + 1;
      }
      Advance(dt);
    }

    /** `now64`, with interrupts masked: five reads, resolved to the true time at the second counter read, one
        access before it returns. */
    method Now64() returns (now: nat)
      requires Ticking()
      modifies `time, `flag, `overflow
      ensures Ticking() && old(time) <= now <= time <= now + ACCESS_TICKS
    {
      hide NextRise, Armed;
      var value: Option<nat> := None;
      ghost var at := time;
      while value.None?
        invariant Ticking() && old(time) <= time
        invariant value.Some? ==> value.value == at && old(time) <= at <= time <= at + ACCESS_TICKS
        decreases value.None?
      {
        var epochBefore := wraps;
        Pause();
        var lowBefore := time % WRAP;
        ghost var first := time;
        Pause();
        var pending := overflow;
        ghost var between := time;
        Pause();
        var lowAfter := time % WRAP;
        at := time;
        SampleIsTime(wraps, first, between, at, pending);
        Pause();
        value := RtccTime.Extend(epochBefore, wraps, lowBefore, lowAfter, pending);
      }
      now := value.value;
    }

    /** `arm`: the flag will be raised `ticks` after the counter was read, but not before `MIN_ARM_TICKS`. */
    method Arm(ticks: nat) returns (ghost reading: nat)
      requires Ticking() && ticks <= MAX_ARM_TICKS
      modifies `time, `flag, `overflow, `ocvalue, `enabled, `target, `armedAt
      ensures Ticking() && Armed() && old(time) <= reading <= old(time) + ACCESS_TICKS && reading <= time
      ensures enabled && armedAt == reading
      ensures target == reading + if ticks < MIN_ARM_TICKS then MIN_ARM_TICKS else ticks
    {
      hide NextRise, CompareValue, Aims;
      var ahead: nat := if ticks < MIN_ARM_TICKS then MIN_ARM_TICKS else ticks;
      Pause();
      reading := time;
      var deadline := time % WRAP + ahead;
      target, armedAt := time + ahead, time;
      AimsAhead(time, ahead);
      Pause();
      ocvalue := CompareValue(deadline);
      Pause();
      flag := false;
      ghost var cleared := time;
      Pause();
      RisesAtTarget(cleared, ocvalue, target);
      enabled := true;
    }

    /** `set_alarm`: false only when the deadline has passed. */
    method SetAlarm(deadline: nat) returns (done: bool)
      requires Ticking() && deadline <= U64_MAX
      modifies `time, `flag, `overflow, `ocvalue, `enabled, `target, `armedAt
      ensures Ticking() && old(time) <= time
      ensures done ==> (enabled <==> deadline < U64_MAX)
      ensures done && enabled ==>
                && Armed() && target <= deadline + LATENCY && old(time) <= armedAt <= time
                && (deadline <= target || target == armedAt + MAX_ARM_TICKS)
      ensures !done ==> deadline <= time
    {
      hide Armed;
      if deadline == U64_MAX {
        enabled := false;
        return true;
      }
      var now := Now64();
      match TicksUntil(now, deadline) {
        case None =>
          return false;
        case Some(ticks) =>
          ghost var reading := Arm(ticks);
          return true;
      }
    }

    /** One round of `rearm`: wake what has expired, and try to arm for the earliest that remains. */
    method Round() returns (done: bool, ghost since: nat)
      requires Ready()
      modifies this, queue, queue.entries
      ensures Ready() && old(time) <= since <= time
      ensures queue.deadlines == Remaining(old(queue.deadlines), since)
      ensures old(queue.history) <= queue.history
      ensures done ==> Valid()
      ensures !done ==> SomeDue(queue.deadlines, time)
    {
      hide Aims, Armed;
      var now := Now64();
      var next := queue.NextExpiration(now);
      since := now;
      done := SetAlarm(next);
    }

    /** `rearm`: round after round, if the deadline slips by. */
    method Rearm() returns (ghost since: nat)
      requires Ready()
      modifies this, queue, queue.entries
      ensures Valid() && old(time) <= since <= time
      ensures queue.deadlines == Remaining(old(queue.deadlines), since)
      ensures old(queue.history) <= queue.history
    {
      ghost var before := queue.deadlines;
      var done;
      done, since := Round();
      while !done
        invariant Ready() && old(time) <= since <= time
        invariant queue.deadlines == Remaining(before, since)
        invariant old(queue.history) <= queue.history
        invariant if done then Valid() else SomeDue(queue.deadlines, time)
        decreases |queue.deadlines|, !done
      {
        hide Armed, NoLaterThan, InTime;
        ghost var first := queue.deadlines;
        RemainingShrinks(first, time);
        done, since := Round();
        RemainingShrinks(first, since);
      }
    }

    /** `Driver::schedule_wake`: queueing and arming are two critical sections, and a pending interrupt is
        taken between them. */
    method ScheduleWake(at: nat, waker: Waker)
      requires Valid()
      modifies this, queue, queue.entries
      ensures Valid()
      ensures old(queue.history) + [Requested(at, waker)] <= queue.history
    {
      hide Armed, NoLaterThan, InTime;
      var changed := queue.ScheduleWake(at, waker);
      if changed {
        Pause();
        if overflow || (enabled && flag) {
          ghost var served := OnInterrupt();
        }
        ghost var since := Rearm();
      }
    }

    /** The RTCC handler: an overflow is counted, and with it or an alarm pending, whatever was due on entry is
        woken. */
    method OnInterrupt() returns (ghost since: nat)
      requires Ready() && (overflow || flag || Valid())
      modifies this, queue, queue.entries
      ensures Valid() && old(queue.history) <= queue.history && old(time) <= since <= time
      ensures old(overflow || flag) ==> queue.deadlines == Remaining(old(queue.deadlines), since)
      ensures !old(overflow || flag) ==> queue.deadlines == old(queue.deadlines)
    {
      var of, cc0 := overflow, flag;
      Pause();
      since := time;
      if cc0 {
        flag := false;
      }
      if of {
        overflow, wraps := false, wraps + 1;
      }
      if cc0 || of {
        since := Rearm();
      }
    }
  }

  lemma EpochGrows(time: nat, dt: nat)
    ensures time / WRAP <= (time + dt) / WRAP
  {}

  /** Five reads within one unhandled overflow, with less than a wrap between the counter reads: the sample
      resolves to the time of the second. */
  lemma SampleIsTime(wraps: nat, first: nat, between: nat, at: nat, pending: bool)
    requires first <= between <= at < first + WRAP && wraps <= first / WRAP && at / WRAP <= wraps + 1
    requires pending == (between / WRAP == wraps + 1)
    ensures RtccTime.Extend(wraps, wraps, first % WRAP, at % WRAP, pending) == Some(at)
  {
    RtccTime.EpochMonotone(first, between);
    RtccTime.EpochMonotone(between, at);
    if !pending { RtccTime.WentBackwards(first, at); }
    assert at == WRAP * (at / WRAP) + at % WRAP;
  }

  /** `target` is not before the first deadline, or it is as far ahead as the compare goes. */
  ghost predicate NotEarly(target: nat, armedAt: nat, deadlines: map<Waker, nat>) {
    SomeDue(deadlines, target) || target == armedAt + MAX_ARM_TICKS
  }

  /** `target` is at most `LATENCY` past every deadline. */
  ghost predicate InTime(target: nat, deadlines: map<Waker, nat>) {
    forall w :: w in deadlines ==> target <= deadlines[w] + LATENCY
  }
}
