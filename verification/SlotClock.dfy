/** Voting and block slots on the clock. Times are milliseconds since the epoch. */
module SlotClock {
  import opened Arithmetic

  /** A slot length and the time slot 0 began. */
  datatype SlotTimeTracker = SlotTimeTracker(interval: nat, start: nat) {
    predicate Valid() { interval > 0 }

    /** The slot `now` lies in. */
    function LastSlot(now: nat): nat
      requires Valid() && start <= now
    {
      (now - start) / interval
    }

    /** How long to wait for the current slot to end. */
    function DurationUntilEndOfCurrentSlot(now: nat): int
      requires Valid() && start <= now
    {
      start + LastSlot(now) * interval + interval - now
    }
  }

  lemma SlotBounds(t: SlotTimeTracker, now: nat)
    requires t.Valid() && t.start <= now
    ensures t.start + t.LastSlot(now) * t.interval <= now < t.start + t.LastSlot(now) * t.interval + t.interval
  {
    var q, r := DivModParts(now - t.start, t.interval);
  }

  lemma SlotUnique(t: SlotTimeTracker, now: nat, slot: nat)
    requires t.Valid() && t.start <= now
    requires t.start + slot * t.interval <= now < t.start + slot * t.interval + t.interval
    ensures t.LastSlot(now) == slot
  {
    DivModUnique(now - t.start, t.interval, slot, now - t.start - slot * t.interval);
  }

  lemma SlotMonotone(t: SlotTimeTracker, now: nat, later: nat)
    requires t.Valid() && t.start <= now <= later
    ensures t.LastSlot(now) <= t.LastSlot(later)
  {
    SlotBounds(t, now);
    SlotBounds(t, later);
    if t.LastSlot(later) < t.LastSlot(now) {
      MulLeMul(t.LastSlot(later) + 1, t.interval, t.LastSlot(now), t.interval);
    }
  }

  /** The wait is positive, at most one slot, and ends exactly where the next slot begins. */
  lemma WaitEndsTheSlot(t: SlotTimeTracker, now: nat)
    requires t.Valid() && t.start <= now
    ensures 0 < t.DurationUntilEndOfCurrentSlot(now) <= t.interval
    ensures t.LastSlot(now + t.DurationUntilEndOfCurrentSlot(now)) == t.LastSlot(now) + 1
  {
    SlotBounds(t, now);
    var slot := t.LastSlot(now);
    assert (slot + 1) * t.interval == slot * t.interval + t.interval;
    SlotUnique(t, now + t.DurationUntilEndOfCurrentSlot(now), slot + 1);
  }

  /** The slot does not change before the wait is over. */
  lemma SlotLasts(t: SlotTimeTracker, now: nat, later: nat)
    requires t.Valid() && t.start <= now <= later < now + t.DurationUntilEndOfCurrentSlot(now)
    ensures t.LastSlot(later) == t.LastSlot(now)
  {
    SlotBounds(t, now);
    SlotUnique(t, later, t.LastSlot(now));
  }

  /** A timer that does not fire early wakes in a later slot than the one it was set in. */
  lemma WakesInLaterSlot(t: SlotTimeTracker, now: nat, woken: nat)
    requires t.Valid() && t.start <= now && now + t.DurationUntilEndOfCurrentSlot(now) <= woken
    ensures t.LastSlot(woken) > t.LastSlot(now)
  {
    WaitEndsTheSlot(t, now);
    SlotMonotone(t, now + t.DurationUntilEndOfCurrentSlot(now), woken);
  }

  //
  // Which reports count
  //

  datatype Relevance = Relevant | NonRelevantOld | NonRelevantInFuture

  /** Judges a report's timestamp against the slot that is current when it arrives. */
  function CheckReportRelevance(t: SlotTimeTracker, now: nat, timestamp: nat): Relevance
    requires t.Valid() && t.start <= now
  {
    var begin := t.start + t.LastSlot(now) * t.interval;
    if timestamp < begin then NonRelevantOld
    else if timestamp > begin + t.interval then NonRelevantInFuture
    else Relevant
  }

  /** A report counts for its own slot, and the one stamped exactly at a boundary also for the slot
      that ends there. None stamped before the first slot counts. */
  lemma RelevantIff(t: SlotTimeTracker, now: nat, timestamp: nat)
    requires t.Valid() && t.start <= now
    ensures CheckReportRelevance(t, now, timestamp).Relevant? <==>
            t.start <= timestamp &&
            (t.LastSlot(timestamp) == t.LastSlot(now) || timestamp == now + t.DurationUntilEndOfCurrentSlot(now))
    ensures CheckReportRelevance(t, now, timestamp).NonRelevantInFuture? <==> timestamp > now + t.DurationUntilEndOfCurrentSlot(now)
    ensures CheckReportRelevance(t, now, timestamp).NonRelevantOld? ==> timestamp < now
  {
    var begin := t.start + t.LastSlot(now) * t.interval;
    SlotBounds(t, now);
    if t.start <= timestamp {
      SlotBounds(t, timestamp);
      if begin <= timestamp < begin + t.interval {
        SlotUnique(t, timestamp, t.LastSlot(now));
      }
    }
  }
}
