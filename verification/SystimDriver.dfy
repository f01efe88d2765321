/**
 The tickless CC2340 clock of cc2340r5-hal/src/time.rs: a 32-bit microsecond counter extended to
 64 bits, a timer queue, and one compare channel that must never miss a deadline. Time passes
 between any two register accesses.
 */
module SystimDriver {
  import opened TimerQueues

  /** The range of `SYSTIM.TIME1U` and of the compare register. */
  const WRAP: nat := 0x1_0000_0000
  const MAX_ALARM_DELTA_US: nat := 30 * 60 * 1_000_000

  /** How long a pending compare interrupt may stay unserviced: half the counter's range. */
  const SERVICE_LIMIT: nat := 0x8000_0000

  /** How long may pass between two register accesses of one operation: a minute. */
  const ACCESS_LIMIT: nat := 60 * 1_000_000

  /** The microsecond at which the model's clock stops: 64 bits are about to run out. */
  const END_OF_TIME: nat := 0xFFFF_FFF0_0000_0000

  const QUEUE_DEPTH: nat := 4

  // ----- timebase.rs

  /** `extend`: the new 64-bit state for the low word `low`. */
  function Extend(state: nat, low: nat): nat {
    var high := state - state % WRAP;
    (if low < state % WRAP then (high + WRAP) % (U64_MAX + 1) else high) + low
  }

  function Min(a: nat, b: nat): nat {
    if a <= b then a else b
  }

  /** `compare_target`. */
  function CompareTarget(now: nat, deadline: nat): nat {
    Min(deadline, Min(now + MAX_ALARM_DELTA_US, U64_MAX))
  }

  /** Less than a wrap after the last reading, the extension is the true time. */
  lemma ExtendIsExact(state: nat, time: nat)
    requires state <= time < state + WRAP && time <= U64_MAX
    ensures Extend(state, time % WRAP) == time
  {
    var high := state - state % WRAP;
    assert high == WRAP * (state / WRAP);
    assert time == WRAP * (time / WRAP) + time % WRAP;
    if time % WRAP < state % WRAP {
      assert time / WRAP == state / WRAP + 1;
      assert high + WRAP <= time;
    } else {
      assert time / WRAP == state / WRAP;
    }
  }

  /** The first moment after `time` at which the counter equals `cc`. */
  function NextMatch(time: nat, cc: nat): (t: nat)
    requires cc < WRAP
    ensures time < t <= time + WRAP && t % WRAP == cc
    ensures forall u :: time < u < t ==> u % WRAP != cc
  {
    var low := time % WRAP;
    var t := time - low + cc + if cc <= low then WRAP else 0;
    MatchIsFirst(time, cc, t);
    t
  }

  lemma MatchIsFirst(time: nat, cc: nat, t: nat)
    requires cc < WRAP && time < t <= time + WRAP
    requires t == time - time % WRAP + cc + if cc <= time % WRAP then WRAP else 0
    ensures t % WRAP == cc
    ensures forall u :: time < u < t ==> u % WRAP != cc
  {
    assert time == WRAP * (time / WRAP) + time % WRAP;
    forall u | time < u < t ensures u % WRAP != cc {
      assert u == WRAP * (u / WRAP) + u % WRAP;
    }
  }

  /** A target at most a wrap ahead is where its low word first matches. */
  lemma MatchIsTarget(time: nat, target: nat)
    requires time < target <= time + WRAP
    ensures NextMatch(time, target % WRAP) == target
  {
    var t := NextMatch(time, target % WRAP);
    assert t == WRAP * (t / WRAP) + t % WRAP;
    assert target == WRAP * (target / WRAP) + target % WRAP;
  }

  lemma RemainingShrinks(deadlines: map<Waker, nat>, now: nat)
    ensures |Remaining(deadlines, now)| <= |deadlines|
    ensures (exists w :: w in deadlines && deadlines[w] <= now) ==> |Remaining(deadlines, now)| < |deadlines|
  {
    var rest := Remaining(deadlines, now);
    assert rest.Keys <= deadlines.Keys;
    Smaller(rest.Keys, deadlines.Keys);
  }

  lemma Smaller<A>(a: set<A>, b: set<A>)
    requires a <= b
    ensures |a| <= |b| && (a != b ==> |a| < |b|)
  {
    assert b == a + (b - a);
    assert a != b ==> b - a != {};
  }

  ghost predicate SomeDue(deadlines: map<Waker, nat>, now: nat) {
    exists w :: w in deadlines && deadlines[w] <= now
  }

  class Driver {
    // The hardware: the true time, whose low word is TIME1U, and compare channel 0.
    var time: nat
    var cc: nat
    var armed: bool
    var irq: bool
    // The driver's state.
    var extended: nat
    const queue: TimerQueue
    // The 64-bit time that `cc` stands for, and the reading it was computed from.
    ghost var target: nat
    ghost var since: nat

    /** The last reading is recent enough for the next one to be extended correctly. */
    ghost predicate Ready()
      reads this, queue, queue.entries
    {
      && queue.Valid() && queue.entries.Length > 0
      && cc < WRAP
      && extended <= time < END_OF_TIME
      && time - extended < MAX_ALARM_DELTA_US + SERVICE_LIMIT
    }

    /** The invariant between operations: the channel is armed for the earliest deadline, or for 30 minutes past the
        reading it was computed from if that comes first, and the interrupt is raised exactly when that moment has
        come. */
    ghost predicate Valid()
      reads this, queue, queue.entries
    {
      && Ready()
      && cc == target % WRAP
      && since <= extended && since < target <= since + MAX_ALARM_DELTA_US
      && NoLaterThan(target, queue.deadlines)
      && (Attained(target, queue.deadlines) || target == since + MAX_ALARM_DELTA_US)
      && (irq <==> target <= time)
      && (armed <==> time < target)
      && time < target + SERVICE_LIMIT
    }

    /** `init`: the clock's origin is chosen so that the counter has not wrapped yet. */
    constructor (counter: nat)
      requires counter < WRAP
      ensures Valid() && fresh(queue) && fresh(queue.entries)
      ensures queue.deadlines == map[]
    {
      var q := new TimerQueue(QUEUE_DEPTH);
      queue := q;
      time, extended := counter, counter;
      cc, armed, irq := 0, false, false;
      target, since := 0, 0;
      new;
      Rearm();
      assert queue.deadlines == map[];
    }

    /** The hardware: `dt` microseconds pass, and an armed channel fires on the first match. */
    method Advance(dt: nat)
      requires cc < WRAP
      modifies `time, `irq, `armed
      ensures time == old(time) + dt
      ensures irq == (old(irq) || (old(armed) && NextMatch(old(time), cc) <= time))
      ensures armed == (old(armed) && time < NextMatch(old(time), cc))
    {
      if armed && NextMatch(time, cc) <= time + dt {
        irq, armed := true, false;
      }
      time := time + dt;
    }

    /** Time passes between operations, as long as a raised interrupt is serviced in time. A due
        deadline always shows as a raised interrupt, and none is raised before a deadline has come or 30 minutes have
        passed. */
    method Elapse(dt: nat)
      requires Valid() && time + dt < END_OF_TIME && time + dt < target + SERVICE_LIMIT
      modifies `time, `irq, `armed
      ensures Valid() && time == old(time) + dt
      ensures SomeDue(queue.deadlines, time) ==> irq
      ensures irq ==> SomeDue(queue.deadlines, time) || since + MAX_ALARM_DELTA_US <= time
    {
      if time < target {
        MatchIsTarget(time, target);
      }
      Advance(dt);
    }

    /** Time passes between two register accesses of one operation. */
    method Pause()
      requires cc < WRAP && time < END_OF_TIME
      modifies `time, `irq, `armed
      ensures old(time) <= time <= old(time) + ACCESS_LIMIT && time < END_OF_TIME
      ensures irq == (old(irq) || (old(armed) && NextMatch(old(time), cc) <= time))
      ensures armed == (old(armed) && time < NextMatch(old(time), cc))
    {
      var dt: nat :| dt <= ACCESS_LIMIT && time + dt < END_OF_TIME by {
        assert 0 <= ACCESS_LIMIT && time + 0 < END_OF_TIME;
      }
      Advance(dt);
    }

    /** `now_locked`: the reading is the true time. */
    method NowLocked() returns (now: nat)
      requires extended <= time < extended + WRAP && time < END_OF_TIME
      modifies `extended
      ensures now == extended == time
    {
      ExtendIsExact(extended, time);
      extended := Extend(extended, time % WRAP);
      now := extended;
    }

    /** `Driver::now`. */
    method Now() returns (now: nat)
      requires Valid()
      modifies `extended
      ensures Valid() && now == time
    {
      now := NowLocked();
    }

    /** Un-arm, drop a stale interrupt, write the compare register, and read the time again. */
    method SetCompare(goal: nat) returns (again: nat)
      requires cc < WRAP && extended == time < END_OF_TIME && time < goal <= time + MAX_ALARM_DELTA_US
      modifies `time, `irq, `armed, `cc, `extended
      ensures again == extended == time < END_OF_TIME && old(time) <= time < old(time) + MAX_ALARM_DELTA_US
      ensures cc == goal % WRAP
      ensures time < goal ==> armed && !irq
    {
      Pause();
      armed, irq := false, false;
      Pause();
      cc, armed := goal % WRAP, true;
      if time < goal { MatchIsTarget(time, goal); }
      Pause();
      again := NowLocked();
    }

    /** One round of `rearm`; `done` when the programmed moment was still ahead. */
    method Program() returns (done: bool)
      requires Ready()
      modifies this, queue, queue.entries
      ensures Ready() && extended == time
      ensures old(time) <= since <= time
      ensures queue.deadlines == Remaining(old(queue.deadlines), since)
      ensures old(queue.history) <= queue.history
      ensures done ==> Valid() && time < target
      ensures !done ==> SomeDue(queue.deadlines, time)
    {
      Pause();
      var now := NowLocked();
      since := now;
      var next := queue.NextExpiration(now);
      var goal := CompareTarget(now, next);
      target := goal;
      assert now < next && (goal < now + MAX_ALARM_DELTA_US ==> Attained(next, queue.deadlines) && goal == next);
      var again := SetCompare(goal);
      done := again < goal;
      if !done {
        assert Attained(next, queue.deadlines);
      }
    }

    /** `rearm`: wake what has expired and program the channel, again if the moment slips by. */
    method Rearm()
      requires Ready()
      modifies this, queue, queue.entries
      ensures Valid() && time < target
      ensures old(time) <= since
      ensures old(queue.history) <= queue.history
      ensures queue.deadlines == Remaining(old(queue.deadlines), since)
    {
      ghost var before := queue.deadlines;
      var done := Program();
      while !done
        invariant Ready() && old(time) <= since <= time
        invariant done ==> Valid() && time < target
        invariant !done ==> SomeDue(queue.deadlines, time)
        invariant old(queue.history) <= queue.history
        invariant queue.deadlines == Remaining(before, since)
        decreases |queue.deadlines|, !done
      {
        RemainingShrinks(queue.deadlines, time);
        ghost var first := queue.deadlines;
        done := Program();
        RemainingShrinks(first, since);
      }
    }

    /** `Driver::schedule_wake`. */
    method ScheduleWake(at: nat, waker: Waker)
      requires Valid()
      modifies this, queue, queue.entries
      ensures Valid()
      ensures old(queue.history) + [Requested(at, waker)] <= queue.history
    {
      var changed := queue.ScheduleWake(at, waker);
      if changed {
        Rearm();
      }
    }

    /** The `CPUIRQ16` handler: afterwards nothing that is due is still waiting. */
    method OnInterrupt()
      requires Valid()
      modifies this, queue, queue.entries
      ensures Valid() && !irq
      ensures queue.deadlines == Remaining(old(queue.deadlines), since) && old(time) <= since
      ensures old(queue.history) <= queue.history
    {
      irq := false;
      Rearm();
    }
  }
}
