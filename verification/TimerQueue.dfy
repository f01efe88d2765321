/**
 The fixed-capacity timer queue of cc2340r5-hal/src/timebase.rs: an array of optional entries,
 one per waker, that merges, evicts when full, and expires. Its meaning is a map from wakers to
 deadlines; its promise is that no requested wake is ever lost.
 */
module TimerQueues {

  /** Wakers are compared by `will_wake` only, so an identifier is all that is left of one. */
  type Waker = int

  const U64_MAX: nat := 0xFFFF_FFFF_FFFF_FFFF

  datatype Slot = Empty | Entry(at: nat, waker: Waker)

  /** What the outside world sees of the queue: requests made and wakers woken. */
  datatype Event = Requested(at: nat, waker: Waker) | Woken(waker: Waker)

  // ----- The array against its meaning

  /** `slots` holds exactly the entries of `deadlines`, each waker once. */
  ghost predicate Holds(slots: seq<Slot>, deadlines: map<Waker, nat>) {
    && (forall i :: 0 <= i < |slots| && slots[i].Entry? ==>
          slots[i].waker in deadlines && deadlines[slots[i].waker] == slots[i].at)
    && (forall i, j :: 0 <= i < j < |slots| && slots[i].Entry? && slots[j].Entry? ==> slots[i].waker != slots[j].waker)
    && (forall w :: w in deadlines ==> Entry(deadlines[w], w) in slots)
  }

  /** Every request is followed by a wake, or covered by an entry that is no later. */
  ghost predicate NoneLost(history: seq<Event>, deadlines: map<Waker, nat>) {
    forall i :: 0 <= i < |history| && history[i].Requested? ==>
      || Woken(history[i].waker) in history[i + 1..]
      || (history[i].waker in deadlines && deadlines[history[i].waker] <= history[i].at)
  }

  ghost predicate NoLaterThan(at: nat, deadlines: map<Waker, nat>) {
    forall w :: w in deadlines ==> at <= deadlines[w]
  }

  ghost predicate Attained(at: nat, deadlines: map<Waker, nat>) {
    exists w :: w in deadlines && deadlines[w] == at
  }

  ghost predicate IsLatest(w: Waker, deadlines: map<Waker, nat>) {
    w in deadlines && forall v :: v in deadlines ==> deadlines[v] <= deadlines[w]
  }

  ghost function Remaining(deadlines: map<Waker, nat>, now: nat): map<Waker, nat> {
    map w | w in deadlines && deadlines[w] > now :: deadlines[w]
  }

  /** `woken` are the wakers due at `now`, each once. */
  ghost predicate Expired(woken: seq<Waker>, deadlines: map<Waker, nat>, now: nat) {
    && (forall i, j :: 0 <= i < j < |woken| ==> woken[i] != woken[j])
    && (forall w :: w in woken <==> w in deadlines && deadlines[w] <= now)
  }

  lemma {:induction false} FullMeansFull(slots: seq<Slot>, deadlines: map<Waker, nat>)
    requires Holds(slots, deadlines)
    ensures |deadlines| <= |slots|
    ensures |deadlines| == |slots| <==> Empty !in slots
  {
    if slots == [] {
      assert forall w :: w !in deadlines;
      assert deadlines == map[];
    } else {
      var last, init := slots[|slots| - 1], slots[..|slots| - 1];
      assert slots == init + [last];
      if last.Empty? {
        FullMeansFull(init, deadlines);
      } else {
        var rest := deadlines - {last.waker};
        assert Holds(init, rest);
        FullMeansFull(init, rest);
        assert deadlines.Keys == rest.Keys + {last.waker};
      }
    }
  }

  /** The deadlines once the slot that held `slot` holds `waker` at `at`. */
  ghost function After(slot: Slot, deadlines: map<Waker, nat>, at: nat, waker: Waker): map<Waker, nat> {
    (if slot.Entry? then deadlines - {slot.waker} else deadlines)[waker := at]
  }

  lemma PutHolds(slots: seq<Slot>, deadlines: map<Waker, nat>, k: nat, at: nat, waker: Waker)
    requires Holds(slots, deadlines) && k < |slots|
    requires slots[k].Empty? ==> waker !in deadlines
    requires slots[k].Entry? ==> slots[k].waker == waker || waker !in deadlines
    ensures Holds(slots[k := Entry(at, waker)], After(slots[k], deadlines, at, waker))
  {
    var slots', after := slots[k := Entry(at, waker)], After(slots[k], deadlines, at, waker);
    forall w | w in after ensures Entry(after[w], w) in slots' {
      if w == waker {
        assert slots'[k] == Entry(at, waker);
      } else {
        var i :| 0 <= i < |slots| && slots[i] == Entry(deadlines[w], w);
        assert slots'[i] == slots[i];
      }
    }
  }

  lemma HistoryGrows(history: seq<Event>, more: seq<Event>, before: map<Waker, nat>, after: map<Waker, nat>)
    requires NoneLost(history, before)
    requires forall w :: w in before ==> Woken(w) in more || (w in after && after[w] <= before[w])
    requires forall i :: 0 <= i < |more| && more[i].Requested? ==>
               more[i].waker in after && after[more[i].waker] <= more[i].at
    ensures NoneLost(history + more, after)
  {
    var all := history + more;
    forall i | 0 <= i < |all| && all[i].Requested?
      ensures Woken(all[i].waker) in all[i + 1..] || (all[i].waker in after && after[all[i].waker] <= all[i].at)
    {
      if i < |history| {
        assert all[i + 1..] == history[i + 1..] + more;
      }
    }
  }

  /** The wakers due at `now`, in slot order. */
  function Due(slots: seq<Slot>, now: nat): seq<Waker> {
    if slots == [] then []
    else
      var last := slots[|slots| - 1];
      Due(slots[..|slots| - 1], now) + if last.Entry? && last.at <= now then [last.waker] else []
  }

  lemma {:induction false} DueMembers(slots: seq<Slot>, now: nat)
    ensures forall w :: w in Due(slots, now) <==>
              exists i :: 0 <= i < |slots| && slots[i].Entry? && slots[i].at <= now && slots[i].waker == w
  {
    if slots != [] {
      DueMembers(slots[..|slots| - 1], now);
    }
  }

  lemma {:induction false} DueDistinct(slots: seq<Slot>, now: nat)
    requires forall i, j :: 0 <= i < j < |slots| && slots[i].Entry? && slots[j].Entry? ==>
              slots[i].waker != slots[j].waker
    ensures forall i, j :: 0 <= i < j < |Due(slots, now)| ==> Due(slots, now)[i] != Due(slots, now)[j]
  {
    if slots != [] {
      var init := slots[..|slots| - 1];
      DueDistinct(init, now);
      DueMembers(init, now);
      assert forall k :: 0 <= k < |Due(init, now)| ==> Due(init, now)[k] in Due(init, now);
    }
  }

  lemma DueIsExpired(slots: seq<Slot>, deadlines: map<Waker, nat>, now: nat)
    requires Holds(slots, deadlines)
    ensures Expired(Due(slots, now), deadlines, now)
  {
    DueDistinct(slots, now);
    DueMembers(slots, now);
    forall w | w in deadlines && deadlines[w] <= now ensures w in Due(slots, now) {
      assert Entry(deadlines[w], w) in slots;
    }
  }

  lemma ExpiryHolds(slots: seq<Slot>, kept: seq<Slot>, deadlines: map<Waker, nat>, now: nat)
    requires Holds(slots, deadlines) && |kept| == |slots|
    requires forall j :: 0 <= j < |slots| ==>
              kept[j] == if slots[j].Entry? && slots[j].at <= now then Empty else slots[j]
    ensures Holds(kept, Remaining(deadlines, now))
  {
    forall w | w in Remaining(deadlines, now) ensures Entry(deadlines[w], w) in kept {
      var i :| 0 <= i < |slots| && slots[i] == Entry(deadlines[w], w);
      assert kept[i] == slots[i];
    }
  }

  function WokenEvents(ws: seq<Waker>): (r: seq<Event>)
    ensures |r| == |ws| && forall i :: 0 <= i < |ws| ==> r[i] == Woken(ws[i])
  {
    seq(|ws|, i requires 0 <= i < |ws| => Woken(ws[i]))
  }

  lemma ExpiryLosesNone(history: seq<Event>, deadlines: map<Waker, nat>, due: seq<Waker>, now: nat)
    requires NoneLost(history, deadlines) && Expired(due, deadlines, now)
    ensures NoneLost(history + WokenEvents(due), Remaining(deadlines, now))
  {
    var rest := Remaining(deadlines, now);
    forall w | w in deadlines ensures Woken(w) in WokenEvents(due) || (w in rest && rest[w] <= deadlines[w]) {
      if deadlines[w] <= now {
        var j :| 0 <= j < |due| && due[j] == w;
        assert WokenEvents(due)[j] == Woken(w);
      }
    }
    HistoryGrows(history, WokenEvents(due), deadlines, rest);
  }

  // ----- The queue

  class TimerQueue {
    const entries: array<Slot>
    var woken: seq<Waker>            // the wakers on which `wake` was called, in order
    ghost var deadlines: map<Waker, nat>
    ghost var history: seq<Event>

    ghost predicate Valid()
      reads this, entries
    {
      && Holds(entries[..], deadlines)
      && NoneLost(history, deadlines)
      && |deadlines| <= entries.Length
    }

    constructor (capacity: nat)
      ensures Valid() && fresh(entries) && entries.Length == capacity
      ensures deadlines == map[] && history == [] && woken == []
    {
      entries := new Slot[capacity](_ => Empty);
      woken, deadlines, history := [], map[], [];
    }

    method IndexOf(waker: Waker) returns (k: nat)
      requires Valid()
      ensures k <= entries.Length
      ensures k < entries.Length <==> waker in deadlines
      ensures k < entries.Length ==> entries[k] == Entry(deadlines[waker], waker)
    {
      k := 0;
      while k < entries.Length && !(entries[k].Entry? && entries[k].waker == waker)
        invariant k <= entries.Length
        invariant forall i :: 0 <= i < k ==> entries[i].Empty? || entries[i].waker != waker
      {
        k := k + 1;
      }
      if waker in deadlines {
        assert Entry(deadlines[waker], waker) in entries[..];
      }
    }

    method IndexOfEmpty() returns (k: nat)
      requires Valid()
      ensures k <= entries.Length
      ensures k < entries.Length <==> |deadlines| < entries.Length
      ensures k < entries.Length ==> entries[k] == Empty
    {
      k := 0;
      while k < entries.Length && entries[k].Entry?
        invariant k <= entries.Length
        invariant forall i :: 0 <= i < k ==> entries[i].Entry?
      {
        k := k + 1;
      }
      FullMeansFull(entries[..], deadlines);
    }

    /** `max_by_key`: the last of the latest entries. */
    method IndexOfLatest() returns (k: nat)
      requires Valid() && |deadlines| == entries.Length > 0
      ensures k < entries.Length && entries[k].Entry? && IsLatest(entries[k].waker, deadlines)
    {
      FullMeansFull(entries[..], deadlines);
      assert forall i :: 0 <= i < entries.Length ==> entries[i] in entries[..];
      k := 0;
      var i := 1;
      while i < entries.Length
        invariant k < i <= entries.Length
        invariant forall j :: 0 <= j < i ==> entries[j].at <= entries[k].at
      {
        if entries[i].at >= entries[k].at {
          k := i;
        }
        i := i + 1;
      }
      forall v | v in deadlines ensures deadlines[v] <= deadlines[entries[k].waker] {
        assert Entry(deadlines[v], v) in entries[..];
      }
    }

    /** Write one entry, dropping whatever the slot held. */
    method Put(k: nat, at: nat, waker: Waker)
      requires k < entries.Length && Holds(entries[..], deadlines)
      requires entries[k].Empty? || entries[k].waker == waker || waker !in deadlines
      requires entries[k].Empty? ==> waker !in deadlines
      modifies entries, `deadlines
      ensures entries[..] == old(entries[..])[k := Entry(at, waker)]
      ensures deadlines == After(old(entries[k]), old(deadlines), at, waker)
      ensures Holds(entries[..], deadlines)
    {
      PutHolds(entries[..], deadlines, k, at, waker);
      entries[k] := Entry(at, waker);
      deadlines := After(old(entries[k]), deadlines, at, waker);
      assert entries[..] == old(entries[..])[k := Entry(at, waker)];
    }

    method Lower(k: nat, at: nat, waker: Waker)
      requires Valid() && k < entries.Length && entries[k].Entry? && entries[k].waker == waker && at < entries[k].at
      modifies entries, `deadlines, `history
      ensures Valid() && deadlines == old(deadlines)[waker := at]
      ensures history == old(history) + [Requested(at, waker)]
    {
      Put(k, at, waker);
      HistoryGrows(history, [Requested(at, waker)], old(deadlines), deadlines);
      history := history + [Requested(at, waker)];
      FullMeansFull(entries[..], deadlines);
    }

    method Insert(k: nat, at: nat, waker: Waker)
      requires Valid() && k < entries.Length && entries[k].Empty? && waker !in deadlines
      modifies entries, `deadlines, `history
      ensures Valid() && deadlines == old(deadlines)[waker := at]
      ensures history == old(history) + [Requested(at, waker)]
    {
      Put(k, at, waker);
      HistoryGrows(history, [Requested(at, waker)], old(deadlines), deadlines);
      history := history + [Requested(at, waker)];
      FullMeansFull(entries[..], deadlines);
    }

    method Evict(k: nat, at: nat, waker: Waker)
      requires Valid() && k < entries.Length && entries[k].Entry? && waker !in deadlines
      modifies entries, this
      ensures Valid() && deadlines == (old(deadlines) - {old(entries[k]).waker})[waker := at]
      ensures woken == old(woken) + [old(entries[k]).waker]
      ensures history == old(history) + [Requested(at, waker), Woken(old(entries[k]).waker)]
    {
      var evicted := entries[k].waker;
      Put(k, at, waker);
      woken := woken + [evicted];
      HistoryGrows(history, [Requested(at, waker), Woken(evicted)], old(deadlines), deadlines);
      history := history + [Requested(at, waker), Woken(evicted)];
      FullMeansFull(entries[..], deadlines);
    }

    /** Ask for `waker` to be woken at `at`; `true` when the earliest deadline may have changed. Eviction from
        a queue of no slots would panic. */
    method ScheduleWake(at: nat, waker: Waker) returns (changed: bool)
      requires Valid() && entries.Length > 0
      modifies this, entries
      ensures Valid()
      ensures old(woken) <= woken
      ensures history == old(history) + [Requested(at, waker)] + WokenEvents(woken[|old(woken)|..])
      // The waker had an entry: keep the earlier of the two times.
      ensures waker in old(deadlines) ==>
                && woken == old(woken)
                && deadlines == old(deadlines)[waker :=
                                  if at < old(deadlines)[waker] then at else old(deadlines)[waker]]
                && (changed <==> at < old(deadlines)[waker])
      // There was room.
      ensures waker !in old(deadlines) && |old(deadlines)| < entries.Length ==>
                changed && woken == old(woken) && deadlines == old(deadlines)[waker := at]
      // Full: the latest entry is woken early and gives up its place.
      ensures waker !in old(deadlines) && |old(deadlines)| == entries.Length ==>
                && changed && |woken| == |old(woken)| + 1
                && IsLatest(woken[|old(woken)|], old(deadlines))
                && deadlines == (old(deadlines) - {woken[|old(woken)|]})[waker := at]
      ensures !changed ==> deadlines == old(deadlines) && entries[..] == old(entries[..])
    {
      var k := IndexOf(waker);
      if k < entries.Length {
        if at < entries[k].at {
          Lower(k, at, waker);
          return true;
        }
        HistoryGrows(history, [Requested(at, waker)], deadlines, deadlines);
        history := history + [Requested(at, waker)];
        return false;
      }
      k := IndexOfEmpty();
      if k < entries.Length {
        Insert(k, at, waker);
        return true;
      }
      k := IndexOfLatest();
      Evict(k, at, waker);
      return true;
    }

    /** The loop of `next_expiration`. */
    method Sweep(now: nat) returns (next: nat)
      modifies entries, `woken
      ensures forall j :: 0 <= j < entries.Length ==>
                entries[j] == if old(entries[j]).Entry? && old(entries[j]).at <= now then Empty else old(entries[j])
      ensures woken == old(woken) + Due(old(entries[..]), now)
      ensures next <= U64_MAX && forall j :: 0 <= j < entries.Length && entries[j].Entry? ==> next <= entries[j].at
      ensures next == U64_MAX || exists j :: 0 <= j < entries.Length && entries[j].Entry? && entries[j].at == next
    {
      ghost var slots := entries[..];
      next := U64_MAX;
      var i := 0;
      while i < entries.Length
        invariant i <= entries.Length
        invariant forall j :: i <= j < entries.Length ==> entries[j] == slots[j]
        invariant forall j :: 0 <= j < i ==>
          entries[j] == if slots[j].Entry? && slots[j].at <= now then Empty else slots[j]
        invariant next <= U64_MAX && forall j :: 0 <= j < i && entries[j].Entry? ==> next <= entries[j].at
        invariant next == U64_MAX || exists j :: 0 <= j < i && entries[j].Entry? && entries[j].at == next
        invariant woken == old(woken) + Due(slots[..i], now)
      {
        assert slots[..i + 1][..i] == slots[..i];
        match entries[i] {
          case Empty =>
          case Entry(at, w) =>
            if at <= now {
              entries[i] := Empty;
              woken := woken + [w];
            } else if at < next {
              next := at;
              assert entries[i].Entry? && entries[i].at == next;
            }
        }
        i := i + 1;
      }
      assert slots[..i] == slots;
    }

    /** Wake every expired entry; the earliest remaining deadline, `U64_MAX` when there is none. */
    method NextExpiration(now: nat) returns (next: nat)
      requires Valid()
      modifies this, entries
      ensures Valid()
      ensures deadlines == Remaining(old(deadlines), now)
      ensures old(woken) <= woken && Expired(woken[|old(woken)|..], old(deadlines), now)
      ensures history == old(history) + WokenEvents(woken[|old(woken)|..])
      ensures next <= U64_MAX && NoLaterThan(next, deadlines)
      ensures next == U64_MAX || Attained(next, deadlines)
    {
      ghost var slots := entries[..];
      next := Sweep(now);
      ghost var due := Due(slots, now);
      assert woken[|old(woken)|..] == due;
      DueIsExpired(slots, deadlines, now);
      ExpiryHolds(slots, entries[..], deadlines, now);
      ExpiryLosesNone(history, deadlines, due, now);
      deadlines := Remaining(deadlines, now);
      history := history + WokenEvents(due);
      FullMeansFull(entries[..], deadlines);
      forall w | w in deadlines ensures next <= deadlines[w] {
        assert Entry(deadlines[w], w) in entries[..];
      }
    }
  }
}
