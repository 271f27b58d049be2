/** When an aggregate is published and when it is skipped, and what that means over a run. */
module PublishPolicy {
  import opened Arithmetic
  import opened Wrappers
  import opened AdfsLayout
  import opened FeedTypes
  import opened History

  datatype Criteria = Criteria(skipPublishIfLessThenPercentage: real, alwaysPublishHeartbeatMs: Option<nat>)

  datatype Candidate = Candidate(value: FeedType, endSlotTimestamp: nat)

  datatype SkipDecision =
    | ThresholdCrossed | HeartbeatTimedOut | NoHistory | NonNumericalFeed | HistoryError
    | TooSimilarTooSoon
  {
    predicate Skip() { TooSimilarTooSoon? }
  }

  /** The change is at least the threshold percentage of the last value's magnitude. */
  predicate CrossesThreshold(last: real, candidate: real, percent: real) {
    Abs(last - candidate) * 100.0 >= percent * Abs(last)
  }

  predicate TimedOut(heartbeat: Option<nat>, lastTime: nat, time: nat) {
    heartbeat.Some? && time >= heartbeat.value + lastTime
  }

  function ShouldSkip(c: Candidate, criteria: Criteria, last: Option<HistoryEntry>): SkipDecision {
    if !c.value.Numerical? then NonNumericalFeed
    else if last.None? then NoHistory
    else if !last.value.value.Numerical? then HistoryError
    else if CrossesThreshold(last.value.value.val, c.value.val, criteria.skipPublishIfLessThenPercentage) then ThresholdCrossed
    else if TimedOut(criteria.alwaysPublishHeartbeatMs, last.value.endSlotTimestamp, c.endSlotTimestamp) then HeartbeatTimedOut
    else TooSimilarTooSoon
  }

  //
  // Runs of one feed
  //

  /** The candidates that are published, decided against the last published one. */
  function Published(candidates: seq<Candidate>, criteria: Criteria): seq<Candidate> {
    if candidates == [] then []
    else
      var before, c := Published(candidates[..|candidates| - 1], criteria), candidates[|candidates| - 1];
      if ShouldSkip(c, criteria, LastEntry(before)).Skip() then before else before + [c]
  }

  function LastEntry(published: seq<Candidate>): Option<HistoryEntry> {
    if published == [] then None
    else
      var c := published[|published| - 1];
      Some(HistoryEntry(c.value, |published| - 1, c.endSlotTimestamp))
  }

  /** The history after a run in which every candidate that is not skipped is pushed. */
  function HistoryAfter(f: EncodedFeedId, capacity: nat, criteria: Criteria, candidates: seq<Candidate>): (rings: Rings)
    requires capacity > 0
    ensures ValidRings(rings)
  {
    if candidates == [] then Apply(map[], Register(f, capacity))
    else
      var rings := HistoryAfter(f, capacity, criteria, candidates[..|candidates| - 1]);
      var c := candidates[|candidates| - 1];
      if ShouldSkip(c, criteria, LastOf(rings, f)).Skip() then rings
      else Apply(rings, Push(f, c.value, c.endSlotTimestamp))
  }

  function Entries(published: seq<Candidate>): seq<HistoryEntry> {
    seq(|published|, k requires 0 <= k < |published| =>
          HistoryEntry(published[k].value, k, published[k].endSlotTimestamp))
  }

  lemma EntriesSnoc(published: seq<Candidate>, c: Candidate)
    ensures Entries(published + [c]) == Entries(published) + [HistoryEntry(c.value, |published|, c.endSlotTimestamp)]
  {
  }

  ghost predicate Records(rings: Rings, f: EncodedFeedId, capacity: nat, published: seq<Candidate>)
    requires ValidRings(rings)
  {
    Agrees(rings, f, Some(FeedLog(capacity, Entries(published))))
  }

  lemma RecordsStart(f: EncodedFeedId, capacity: nat)
    requires capacity > 0
    ensures Records(Apply(map[], Register(f, capacity)), f, capacity, [])
  {
  }

  lemma RecordsPush(rings: Rings, f: EncodedFeedId, capacity: nat, published: seq<Candidate>, c: Candidate)
    requires ValidRings(rings) && Records(rings, f, capacity, published)
    ensures Records(Apply(rings, Push(f, c.value, c.endSlotTimestamp)), f, capacity, published + [c])
  {
    PushKeepsAgreement(rings, f, FeedLog(capacity, Entries(published)), c.value, c.endSlotTimestamp);
    EntriesSnoc(published, c);
  }

  lemma RecordsLast(rings: Rings, f: EncodedFeedId, capacity: nat, published: seq<Candidate>)
    requires ValidRings(rings) && Records(rings, f, capacity, published)
    ensures LastOf(rings, f) == LastEntry(published)
  {
    LastIsNewest(rings, f, Some(FeedLog(capacity, Entries(published))));
  }

  /** The ring holds the newest published candidates, whatever its capacity, so that deciding against the
      ring is deciding against the last published value. */
  lemma {:induction false} HistoryIsPublished(f: EncodedFeedId, capacity: nat, criteria: Criteria, candidates: seq<Candidate>)
    requires capacity > 0
    ensures var rings, published := HistoryAfter(f, capacity, criteria, candidates), Published(candidates, criteria);
            Records(rings, f, capacity, published) && LastOf(rings, f) == LastEntry(published)
  {
    if candidates == [] {
      RecordsStart(f, capacity);
    } else {
      var front, c := candidates[..|candidates| - 1], candidates[|candidates| - 1];
      HistoryIsPublished(f, capacity, criteria, front);
      RecordsPush(HistoryAfter(f, capacity, criteria, front), f, capacity, Published(front, criteria), c);
    }
    RecordsLast(HistoryAfter(f, capacity, criteria, candidates), f, capacity, Published(candidates, criteria));
  }

  /** A candidate is skipped exactly when it is a number that differs from the last published number by less than
      the threshold percentage of its magnitude, and the heartbeat has not run out. */
  lemma SkippedIff(candidates: seq<Candidate>, criteria: Criteria, c: Candidate)
    ensures var before := Published(candidates, criteria);
            Published(candidates + [c], criteria) == before <==>
              before != [] && SkippedAfter(before[|before| - 1], criteria, c)
  {
    var before := Published(candidates, criteria);
    PublishedSnoc(candidates, criteria, c);
    if before != [] {
      SkipIff(c, criteria, HistoryEntry(before[|before| - 1].value, |before| - 1, before[|before| - 1].endSlotTimestamp));
    }
  }

  predicate SkippedAfter(last: Candidate, criteria: Criteria, c: Candidate) {
    && c.value.Numerical? && last.value.Numerical?
    && Abs(last.value.val - c.value.val) * 100.0 < criteria.skipPublishIfLessThenPercentage * Abs(last.value.val)
    && (criteria.alwaysPublishHeartbeatMs.Some? ==>
          c.endSlotTimestamp < criteria.alwaysPublishHeartbeatMs.value + last.endSlotTimestamp)
  }

  lemma SkipIff(c: Candidate, criteria: Criteria, last: HistoryEntry)
    ensures ShouldSkip(c, criteria, Some(last)).Skip() <==> SkippedAfter(Candidate(last.value, last.endSlotTimestamp), criteria, c)
  {
    if c.value.Numerical? && last.value.Numerical? {
      ThresholdIff(last.value.val, c.value.val, criteria.skipPublishIfLessThenPercentage);
    }
  }

  /** The reason a candidate is published for: what is not a number, or has no number to compare with, always is; a
      change that crosses the threshold counts ahead of the heartbeat. */
  lemma ReasonIff(c: Candidate, criteria: Criteria, last: Option<HistoryEntry>)
    ensures var reason := ShouldSkip(c, criteria, last);
            && (reason == NonNumericalFeed <==> !c.value.Numerical?)
            && (reason == NoHistory <==> c.value.Numerical? && last == None)
            && (reason == HistoryError <==> c.value.Numerical? && last.Some? && !last.value.value.Numerical?)
            && (reason == HeartbeatTimedOut ==>
                  criteria.alwaysPublishHeartbeatMs.Some? &&
                  c.endSlotTimestamp >= criteria.alwaysPublishHeartbeatMs.value + last.value.endSlotTimestamp)
            && (reason == ThresholdCrossed ==>
                  Abs(last.value.value.val - c.value.val) * 100.0
                  >= criteria.skipPublishIfLessThenPercentage * Abs(last.value.value.val))
            && (reason == HeartbeatTimedOut ==>
                  Abs(last.value.value.val - c.value.val) * 100.0
                  < criteria.skipPublishIfLessThenPercentage * Abs(last.value.value.val))
  {
  }

  lemma PublishedSnoc(candidates: seq<Candidate>, criteria: Criteria, c: Candidate)
    ensures var before := Published(candidates, criteria);
            Published(candidates + [c], criteria) == before <==> ShouldSkip(c, criteria, LastEntry(before)).Skip()
  {
    assert (candidates + [c])[..|candidates|] == candidates;
  }

  lemma ThresholdIff(last: real, candidate: real, percent: real)
    ensures CrossesThreshold(last, candidate, percent) <==> !(Abs(last - candidate) * 100.0 < percent * Abs(last))
  {
  }

  /** An unchanged value is skipped until the heartbeat runs out, unless the threshold or the value is 0. */
  lemma UnchangedSkippedIff(criteria: Criteria, last: HistoryEntry, c: Candidate)
    requires last.value.Numerical? && c.value == last.value
    requires !TimedOut(criteria.alwaysPublishHeartbeatMs, last.endSlotTimestamp, c.endSlotTimestamp)
    ensures ShouldSkip(c, criteria, Some(last)).Skip() <==>
            criteria.skipPublishIfLessThenPercentage > 0.0 && last.value.val != 0.0
  {
    var p, a := criteria.skipPublishIfLessThenPercentage, Abs(last.value.val);
    if p > 0.0 && a > 0.0 {
      assert p * a > 0.0;
    } else {
      assert p * a <= 0.0;
    }
  }

  //
  // The time between publications
  //

  /** Candidates arrive in order, at most `interval` apart. */
  ghost predicate Arriving(candidates: seq<Candidate>, interval: nat) {
    forall i :: 0 < i < |candidates| ==>
      candidates[i - 1].endSlotTimestamp <= candidates[i].endSlotTimestamp <= candidates[i - 1].endSlotTimestamp + interval
  }

  ghost predicate GapsBelow(published: seq<Candidate>, bound: nat) {
    forall i :: 0 < i < |published| ==> published[i].endSlotTimestamp < published[i - 1].endSlotTimestamp + bound
  }

  /** The newest candidate is the last publication, or the heartbeat since that has not run out. */
  ghost predicate Fresh(candidates: seq<Candidate>, published: seq<Candidate>, heartbeat: nat)
    requires candidates != []
  {
    && published != []
    && var newest, last := candidates[|candidates| - 1], published[|published| - 1];
    && last.endSlotTimestamp <= newest.endSlotTimestamp
    && (newest == last || newest.endSlotTimestamp < last.endSlotTimestamp + heartbeat)
  }

  lemma SkippedInTime(c: Candidate, criteria: Criteria, last: Option<HistoryEntry>)
    requires ShouldSkip(c, criteria, last).Skip()
    ensures last.Some? && !TimedOut(criteria.alwaysPublishHeartbeatMs, last.value.endSlotTimestamp, c.endSlotTimestamp)
  {
  }

  lemma PublishedNext(candidates: seq<Candidate>, criteria: Criteria, heartbeat: nat) returns (skip: bool)
    requires candidates != [] && criteria.alwaysPublishHeartbeatMs == Some(heartbeat)
    ensures var before, c := Published(candidates[..|candidates| - 1], criteria), candidates[|candidates| - 1];
            && Published(candidates, criteria) == (if skip then before else before + [c])
            && (skip ==> before != [] && !TimedOut(Some(heartbeat), before[|before| - 1].endSlotTimestamp, c.endSlotTimestamp))
  {
    var before, c := Published(candidates[..|candidates| - 1], criteria), candidates[|candidates| - 1];
    skip := ShouldSkip(c, criteria, LastEntry(before)).Skip();
    if skip {
      SkippedInTime(c, criteria, LastEntry(before));
    }
  }

  ghost predicate GapInv(candidates: seq<Candidate>, published: seq<Candidate>, heartbeat: nat, interval: nat) {
    && GapsBelow(published, heartbeat + interval)
    && (if candidates == [] then published == [] else Fresh(candidates, published, heartbeat))
  }

  lemma GapStep(front: seq<Candidate>, published: seq<Candidate>, c: Candidate, skip: bool, heartbeat: nat, interval: nat)
    requires heartbeat >= 1 && GapInv(front, published, heartbeat, interval) && Arriving(front + [c], interval)
    requires skip ==> published != [] && !TimedOut(Some(heartbeat), published[|published| - 1].endSlotTimestamp, c.endSlotTimestamp)
    ensures GapInv(front + [c], if skip then published else published + [c], heartbeat, interval)
  {
    if front != [] {
      var all := front + [c];
      assert all[|front| - 1] == front[|front| - 1] && all[|front|] == c;
    }
  }

  lemma {:induction false} RunKeepsGap(candidates: seq<Candidate>, criteria: Criteria, heartbeat: nat, interval: nat)
    requires criteria.alwaysPublishHeartbeatMs == Some(heartbeat) && heartbeat >= 1
    requires Arriving(candidates, interval)
    ensures GapInv(candidates, Published(candidates, criteria), heartbeat, interval)
  {
    if candidates == [] {
    } else {
      var front, c := candidates[..|candidates| - 1], candidates[|candidates| - 1];
      assert candidates == front + [c];
      RunKeepsGap(front, criteria, heartbeat, interval);
      var skip := PublishedNext(candidates, criteria, heartbeat);
      GapStep(front, Published(front, criteria), c, skip, heartbeat, interval);
    }
  }

  /** With a heartbeat of at least 1 ms, consecutive publications are less than heartbeat plus arrival
      interval apart, and a skipped candidate is never a whole heartbeat after the last publication. */
  lemma PublicationGap(candidates: seq<Candidate>, criteria: Criteria, heartbeat: nat, interval: nat)
    requires criteria.alwaysPublishHeartbeatMs == Some(heartbeat) && heartbeat >= 1
    requires Arriving(candidates, interval)
    ensures GapsBelow(Published(candidates, criteria), heartbeat + interval)
    ensures candidates != [] ==> Fresh(candidates, Published(candidates, criteria), heartbeat)
  {
    RunKeepsGap(candidates, criteria, heartbeat, interval);
  }

  lemma NeverSkippedAtZero(c: Candidate, criteria: Criteria, last: Option<HistoryEntry>)
    requires criteria.alwaysPublishHeartbeatMs == Some(0)
    requires last.Some? ==> last.value.endSlotTimestamp <= c.endSlotTimestamp
    ensures !ShouldSkip(c, criteria, last).Skip()
  {
  }

  /** With heartbeat 0 everything is published. */
  lemma {:induction false} ZeroHeartbeatPublishesAll(candidates: seq<Candidate>, criteria: Criteria, interval: nat)
    requires criteria.alwaysPublishHeartbeatMs == Some(0) && Arriving(candidates, interval)
    ensures Published(candidates, criteria) == candidates
  {
    if candidates == [] {
    } else {
      var front, c := candidates[..|candidates| - 1], candidates[|candidates| - 1];
      ZeroHeartbeatPublishesAll(front, criteria, interval);
      assert front != [] ==> front[|front| - 1].endSlotTimestamp <= c.endSlotTimestamp;
      NeverSkippedAtZero(c, criteria, LastEntry(front));
      assert candidates == front + [c];
    }
  }

  /** So the strict bound fails for heartbeat 0: a run whose publications are a whole interval apart. */
  lemma ZeroHeartbeatReachesBound(value: FeedType, criteria: Criteria, interval: nat)
    requires criteria.alwaysPublishHeartbeatMs == Some(0)
    ensures var candidates := [Candidate(value, 0), Candidate(value, interval)];
            Arriving(candidates, interval) && !GapsBelow(Published(candidates, criteria), 0 + interval)
  {
    var candidates := [Candidate(value, 0), Candidate(value, interval)];
    ZeroHeartbeatPublishesAll(candidates, criteria, interval);
    assert candidates[1].endSlotTimestamp == candidates[0].endSlotTimestamp + interval;
  }
}
