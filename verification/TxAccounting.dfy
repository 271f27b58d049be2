/** The second round over whole runs: what the in-progress counter and the ring indices of a network
    stand for while batches wait for signatures, time out, or are posted, and when a rollback leaves
    the ring slots of the batches still under way alone. */
module TxAccounting {
  import opened Sets
  import opened Wrappers
  import opened AdfsLayout
  import opened AdfsCalldata
  import opened AdfsStore
  import opened TxSender

  /** What became of an announced batch. Stranded: it is never posted and never rolled back. */
  datatype Status = Waiting | Posted(ok: bool) | Stranded | Discarded | RolledBack

  /** A batch as it went out to the reporters, serialized with the counters at that time. */
  datatype Announcement = Announcement(batch: Batch, rbs: RoundBufferIndices, status: Status) {
    /** Its increments of the ring indices stand. */
    predicate Live() { status.Waiting? || status.Posted? || status.Stranded? }

    /** It counts as a transaction in progress. */
    predicate Counted() { status.Waiting? || status.Stranded? || status.Discarded? }
  }

  /** The books of one network's provider, and all batches in the order they were announced. */
  datatype Books = Books(rbs: RoundBufferIndices, inProgress: nat, batches: seq<Announcement>)

  const START: Books := Books(map[], 0, [])

  datatype Event =
    /** A batch goes out to the reporters; `delivered` says whether the message stream took it. */
    | Announced(batch: Batch, delivered: bool)
    /** The batch waiting at this height is older than the retention period. */
    | Expired(height: nat)
    /** The batch waiting at this height got its signatures, and the task that posts it has ended. */
    | Ended(height: nat, exit: Exit)

  /** The batch waiting at a height. */
  function Find(batches: seq<Announcement>, height: nat): (r: Option<nat>)
    ensures r.Some? ==> r.value < |batches| && batches[r.value].status.Waiting? && batches[r.value].batch.blockHeight == height
    ensures r.None? ==> forall i :: 0 <= i < |batches| && batches[i].status.Waiting? ==> batches[i].batch.blockHeight != height
  {
    if batches == [] then None
    else
      var last := batches[|batches| - 1];
      if last.status.Waiting? && last.batch.blockHeight == height then Some(|batches| - 1)
      else Find(batches[..|batches| - 1], height)
  }

  /** What an event makes of the waiting batch it is about. */
  function Outcome(e: Event): Status
    requires !e.Announced?
  {
    match e
    case Expired(_) => Discarded
    case Ended(_, exit) =>
      match exit
      case Panicked => Stranded
      case Receipt(ok) => Posted(ok)
      case _ => RolledBack
  }

  /** A second batch for a height that is waiting already is counted but not tracked. */
  function Announce(b: Books, batch: Batch, delivered: bool): Books {
    var status := if delivered && Find(b.batches, batch.blockHeight).None? then Waiting else Stranded;
    Books(Incremented(b.rbs, FeedsOf(batch)), b.inProgress + 1, b.batches + [Announcement(batch, b.rbs, status)])
  }

  function Settle(b: Books, i: nat, status: Status): Books
    requires i < |b.batches|
  {
    var a := b.batches[i].(status := status);
    Books(if a.Live() then b.rbs else Decremented(b.rbs, FeedsOf(a.batch)),
          if a.Counted() then b.inProgress else Decreased(b.inProgress),
          b.batches[i := a])
  }

  function Step(b: Books, e: Event): Books {
    if e.Announced? then Announce(b, e.batch, e.delivered)
    else
      match Find(b.batches, e.height)
      case None => b
      case Some(i) => Settle(b, i, Outcome(e))
  }

  function Run(events: seq<Event>): Books {
    if events == [] then START else Step(Run(events[..|events| - 1]), events[|events| - 1])
  }

  /** No batch has two updates of one feed. */
  ghost predicate Fair(events: seq<Event>) {
    forall e :: e in events && e.Announced? ==> Distinct(FeedsOf(e.batch))
  }

  //
  // Counting batches
  //

  function CountOf(batches: seq<Announcement>, p: Announcement -> bool): nat {
    if batches == [] then 0
    else CountOf(batches[..|batches| - 1], p) + if p(batches[|batches| - 1]) then 1 else 0
  }

  function LiveWith(f: EncodedFeedId): Announcement -> bool {
    (a: Announcement) => a.Live() && f in FeedsOf(a.batch)
  }

  function PostedWith(f: EncodedFeedId): Announcement -> bool {
    (a: Announcement) => a.status.Posted? && f in FeedsOf(a.batch)
  }

  function StrandedWith(f: EncodedFeedId): Announcement -> bool {
    (a: Announcement) => a.status.Stranded? && f in FeedsOf(a.batch)
  }

  const COUNTED: Announcement -> bool := (a: Announcement) => a.Counted()

  const WAITING: Announcement -> bool := (a: Announcement) => a.status.Waiting?

  const LOST: Announcement -> bool := (a: Announcement) => a.status.Stranded? || a.status.Discarded?

  lemma CountSnoc(batches: seq<Announcement>, a: Announcement, p: Announcement -> bool)
    ensures CountOf(batches + [a], p) == CountOf(batches, p) + if p(a) then 1 else 0
  {
    assert (batches + [a])[..|batches|] == batches;
  }

  lemma {:induction false} CountUpdate(batches: seq<Announcement>, i: nat, a: Announcement, p: Announcement -> bool)
    requires i < |batches|
    ensures CountOf(batches[i := a], p) + (if p(batches[i]) then 1 else 0) == CountOf(batches, p) + if p(a) then 1 else 0
  {
    var last := |batches| - 1;
    if i == last {
      assert batches[i := a][..last] == batches[..last];
    } else {
      assert batches[i := a][..last] == batches[..last][i := a];
      CountUpdate(batches[..last], i, a, p);
    }
  }

  lemma {:induction false} CountSplit(batches: seq<Announcement>, p: Announcement -> bool, q: Announcement -> bool, r: Announcement -> bool)
    requires forall a :: a in batches ==> (p(a) <==> q(a) || r(a)) && !(q(a) && r(a))
    ensures CountOf(batches, p) == CountOf(batches, q) + CountOf(batches, r)
  {
    if batches == [] {
    } else {
      CountSplit(batches[..|batches| - 1], p, q, r);
    }
  }

  lemma {:induction false} CountZeroIff(batches: seq<Announcement>, p: Announcement -> bool)
    ensures CountOf(batches, p) == 0 <==> forall a :: a in batches ==> !p(a)
  {
    if batches == [] {
    } else {
      CountZeroIff(batches[..|batches| - 1], p);
      assert forall a :: a in batches <==> a in batches[..|batches| - 1] || a == batches[|batches| - 1];
    }
  }

  /** A prefix has no more of them than the whole, and fewer if one of them comes after it. */
  lemma {:induction false} CountPrefix(batches: seq<Announcement>, i: nat, p: Announcement -> bool)
    requires i < |batches|
    ensures CountOf(batches[..i], p) + (if p(batches[i]) then 1 else 0) <= CountOf(batches, p)
    ensures (forall j :: i < j < |batches| ==> !p(batches[j])) ==>
              CountOf(batches[..i], p) + (if p(batches[i]) then 1 else 0) == CountOf(batches, p)
  {
    var front := batches[..|batches| - 1];
    if i == |batches| - 1 {
    } else {
      assert front[..i] == batches[..i];
      CountPrefix(front, i, p);
    }
  }

  //
  // What the books stand for
  //

  /** The in-progress counter counts the waiting batches and the lost ones; a feed's index counts the batches
      with it that were posted, are waiting or are stranded. */
  ghost predicate BooksInv(b: Books, f: EncodedFeedId) {
    && b.inProgress == CountOf(b.batches, COUNTED)
    && RbFor(b.rbs, f) == CountOf(b.batches, LiveWith(f))
    && forall i :: 0 <= i < |b.batches| ==> Distinct(FeedsOf(b.batches[i].batch))
  }

  lemma AnnounceKeepsBooks(b: Books, batch: Batch, delivered: bool, f: EncodedFeedId)
    requires BooksInv(b, f) && Distinct(FeedsOf(batch))
    ensures BooksInv(Announce(b, batch, delivered), f)
  {
    var next := Announce(b, batch, delivered);
    var a := next.batches[|b.batches|];
    IncrementedCount(b.rbs, FeedsOf(batch), f);
    CountSnoc(b.batches, a, COUNTED);
    CountSnoc(b.batches, a, LiveWith(f));
  }

  lemma SettleKeepsBooks(b: Books, i: nat, status: Status, f: EncodedFeedId)
    requires BooksInv(b, f) && i < |b.batches| && b.batches[i].status.Waiting? && !status.Waiting?
    ensures BooksInv(Settle(b, i, status), f)
  {
    var a := b.batches[i].(status := status);
    CountUpdate(b.batches, i, a, COUNTED);
    CountUpdate(b.batches, i, a, LiveWith(f));
    DecrementedCount(b.rbs, FeedsOf(a.batch), f);
  }

  lemma StepKeepsBooks(b: Books, e: Event, f: EncodedFeedId)
    requires BooksInv(b, f) && (e.Announced? ==> Distinct(FeedsOf(e.batch)))
    ensures BooksInv(Step(b, e), f)
  {
    if e.Announced? {
      AnnounceKeepsBooks(b, e.batch, e.delivered, f);
    } else {
      match Find(b.batches, e.height)
      case None =>
      case Some(i) => SettleKeepsBooks(b, i, Outcome(e), f);
    }
  }

  /** Over every run the rollbacks never saturate: counter and indices are exact sums. */
  lemma {:induction false} RunKeepsBooks(events: seq<Event>, f: EncodedFeedId)
    requires Fair(events)
    ensures BooksInv(Run(events), f)
  {
    if events == [] {
    } else {
      RunKeepsBooks(events[..|events| - 1], f);
      StepKeepsBooks(Run(events[..|events| - 1]), events[|events| - 1], f);
    }
  }

  /** The counter is the number of waiting batches exactly as long as no batch was discarded for lack of
      signatures, failed to be delivered, or had its task panic. */
  lemma CounterCountsWaitingIff(events: seq<Event>)
    requires Fair(events)
    ensures var b := Run(events);
            b.inProgress == CountOf(b.batches, WAITING) <==> forall a :: a in b.batches ==> !LOST(a)
  {
    var b := Run(events);
    RunKeepsBooks(events, EncodedFeedId(0, 0));
    CountSplit(b.batches, COUNTED, WAITING, LOST);
    CountZeroIff(b.batches, LOST);
  }

  /** When nothing is waiting, a feed's index is the number of its batches that were posted exactly if none
      of its batches is stranded. */
  lemma IndexCountsPostedIff(events: seq<Event>, f: EncodedFeedId)
    requires Fair(events) && forall a :: a in Run(events).batches ==> !a.status.Waiting?
    ensures var b := Run(events);
            RbFor(b.rbs, f) == CountOf(b.batches, PostedWith(f)) <==> forall a :: a in b.batches ==> !StrandedWith(f)(a)
  {
    var b := Run(events);
    RunKeepsBooks(events, f);
    CountSplit(b.batches, LiveWith(f), PostedWith(f), StrandedWith(f));
    CountZeroIff(b.batches, StrandedWith(f));
  }

  //
  // Step by step
  //

  /** A batch that goes out raises counter and indices, whether or not the message stream took it, and waits for its
      signatures exactly if it did and no other batch waits at its height. */
  lemma AnnouncedRaises(b: Books, batch: Batch, delivered: bool, f: EncodedFeedId)
    requires Distinct(FeedsOf(batch))
    ensures var next := Step(b, Announced(batch, delivered));
            && next.inProgress == b.inProgress + 1
            && RbFor(next.rbs, f) == RbFor(b.rbs, f) + (if f in FeedsOf(batch) then 1 else 0)
            && |next.batches| == |b.batches| + 1 && next.batches[..|b.batches|] == b.batches
            && var a := next.batches[|b.batches|];
            && a.batch == batch && a.rbs == b.rbs
            && (if delivered && !AnyWaiting(b, batch.blockHeight) then a.status == Waiting else a.status == Stranded)
  {
    IncrementedCount(b.rbs, FeedsOf(batch), f);
  }

  predicate AnyWaiting(b: Books, height: nat) {
    exists i :: 0 <= i < |b.batches| && b.batches[i].status.Waiting? && b.batches[i].batch.blockHeight == height
  }

  /** A batch that runs out of its time for signatures gives its indices back and nothing else. */
  lemma ExpiredRollsBackOnly(b: Books, height: nat, i: nat)
    requires Find(b.batches, height) == Some(i)
    ensures var next := Step(b, Expired(height));
            next.inProgress == b.inProgress && next.rbs == Decremented(b.rbs, FeedsOf(b.batches[i].batch))
  {
  }

  /** A task that ends changes the books as `SendSafeTransaction` changes the provider, and leaves the batch posted
      exactly if it got a receipt. */
  lemma EndedLikeTask(b: Books, height: nat, exit: Exit, i: nat)
    requires Find(b.batches, height) == Some(i)
    ensures var next := Step(b, Ended(height, exit));
            && next.inProgress == (if exit == Panicked then b.inProgress else Decreased(b.inProgress))
            && next.rbs == (if exit.RollsBack() then Decremented(b.rbs, FeedsOf(b.batches[i].batch)) else b.rbs)
            && |next.batches| == |b.batches|
            && forall ok :: next.batches[i].status == Posted(ok) <==> exit == Receipt(ok)
  {
  }

  //
  // Overlapping batches
  //

  /** Whether a batch updates a feed, or, for the rows, also lists its index for a neighbour's sake. */
  predicate Concerns(a: Announcement, f: EncodedFeedId, rows: bool) {
    if rows then f in NeighbourSet(a.batch.updates) else f in FeedsOf(a.batch)
  }

  /** The counter a live batch was serialized with is the number of live batches with the feed announced
      before it: the live counters of a feed are 0, 1, 2 and so on, in order. */
  ghost predicate InStep(b: Books, f: EncodedFeedId, rows: bool) {
    forall i :: 0 <= i < |b.batches| && b.batches[i].Live() && Concerns(b.batches[i], f, rows) ==>
      RbFor(b.batches[i].rbs, f) == CountOf(b.batches[..i], LiveWith(f))
  }

  /** No live batch holds the slot the feed's next value goes to, or a later one. */
  ghost predicate Fresh(b: Books, f: EncodedFeedId) {
    forall i :: 0 <= i < |b.batches| && LiveWith(f)(b.batches[i]) ==> RbFor(b.batches[i].rbs, f) < RbFor(b.rbs, f)
  }

  /** The event takes the increments of a batch back. */
  predicate RollsBack(b: Books, e: Event, i: nat) {
    !e.Announced? && Find(b.batches, e.height) == Some(i) && (Outcome(e).Discarded? || Outcome(e).RolledBack?)
  }

  /** A rollback of a batch with the feed comes when no live batch announced later is concerned with it. */
  ghost predicate HitsNewest(b: Books, e: Event, f: EncodedFeedId, rows: bool) {
    forall i, j :: 0 <= i < j < |b.batches| && RollsBack(b, e, i) && f in FeedsOf(b.batches[i].batch) ==>
      !(b.batches[j].Live() && Concerns(b.batches[j], f, rows))
  }

  lemma AnnounceKeepsInStep(b: Books, batch: Batch, delivered: bool, f: EncodedFeedId, rows: bool)
    requires BooksInv(b, f) && InStep(b, f, rows)
    ensures InStep(Announce(b, batch, delivered), f, rows)
  {
    var next := Announce(b, batch, delivered);
    forall i | 0 <= i < |next.batches| && next.batches[i].Live() && Concerns(next.batches[i], f, rows)
      ensures RbFor(next.batches[i].rbs, f) == CountOf(next.batches[..i], LiveWith(f))
    {
      assert next.batches[..i] == b.batches[..i];
      assert b.batches[..|b.batches|] == b.batches;
    }
  }

  /** The batches before position `j`, after batch `i` was settled. */
  lemma PrefixSettled(b: Books, i: nat, status: Status, f: EncodedFeedId, j: nat)
    requires i < |b.batches| && j < |b.batches| && b.batches[i].status.Waiting?
    ensures var a := b.batches[i].(status := status);
            CountOf(Settle(b, i, status).batches[..j], LiveWith(f)) ==
            CountOf(b.batches[..j], LiveWith(f)) - if i < j && f in FeedsOf(a.batch) && !a.Live() then 1 else 0
  {
    var a := b.batches[i].(status := status);
    if i < j {
      assert b.batches[i := a][..j] == b.batches[..j][i := a];
      CountUpdate(b.batches[..j], i, a, LiveWith(f));
    } else {
      assert b.batches[i := a][..j] == b.batches[..j];
    }
  }

  lemma SettleKeepsInStep(b: Books, i: nat, status: Status, f: EncodedFeedId, rows: bool)
    requires InStep(b, f, rows) && i < |b.batches| && b.batches[i].status.Waiting?
    requires !b.batches[i].(status := status).Live() && f in FeedsOf(b.batches[i].batch) ==>
               forall j :: i < j < |b.batches| ==> !(b.batches[j].Live() && Concerns(b.batches[j], f, rows))
    ensures InStep(Settle(b, i, status), f, rows)
  {
    var next := Settle(b, i, status);
    forall j | 0 <= j < |next.batches| && next.batches[j].Live() && Concerns(next.batches[j], f, rows)
      ensures RbFor(next.batches[j].rbs, f) == CountOf(next.batches[..j], LiveWith(f))
    {
      PrefixSettled(b, i, status, f, j);
    }
  }

  lemma StepKeepsInStep(b: Books, e: Event, f: EncodedFeedId, rows: bool)
    requires BooksInv(b, f) && InStep(b, f, rows) && HitsNewest(b, e, f, rows)
    ensures InStep(Step(b, e), f, rows)
  {
    if e.Announced? {
      AnnounceKeepsInStep(b, e.batch, e.delivered, f, rows);
    } else {
      match Find(b.batches, e.height)
      case None =>
      case Some(i) =>
        assert !b.batches[i].(status := Outcome(e)).Live() ==> RollsBack(b, e, i);
        SettleKeepsInStep(b, i, Outcome(e), f, rows);
    }
  }

  lemma InStepIsFresh(b: Books, f: EncodedFeedId)
    requires BooksInv(b, f) && InStep(b, f, false)
    ensures Fresh(b, f)
  {
    forall i | 0 <= i < |b.batches| && LiveWith(f)(b.batches[i]) ensures RbFor(b.batches[i].rbs, f) < RbFor(b.rbs, f) {
      CountPrefix(b.batches, i, LiveWith(f));
    }
  }

  lemma {:induction false} NewestWith(batches: seq<Announcement>, j: nat, p: Announcement -> bool) returns (k: nat)
    requires j < |batches| && p(batches[j])
    ensures j <= k < |batches| && p(batches[k]) && forall i :: k < i < |batches| ==> !p(batches[i])
  {
    var last := |batches| - 1;
    if p(batches[last]) {
      k := last;
    } else {
      k := NewestWith(batches[..last], j, p);
    }
  }

  /** Rolling back a batch while a newer one is live frees the slot the newest one holds. */
  lemma OlderRollbackFreesNewestSlot(b: Books, e: Event, f: EncodedFeedId)
    requires BooksInv(b, f) && InStep(b, f, false) && !HitsNewest(b, e, f, false)
    ensures !Fresh(Step(b, e), f)
  {
    var i, j :| 0 <= i < j < |b.batches| && RollsBack(b, e, i) && f in FeedsOf(b.batches[i].batch)
                && b.batches[j].Live() && Concerns(b.batches[j], f, false);
    var k := NewestWith(b.batches, j, LiveWith(f));
    var next := Step(b, e);
    CountPrefix(b.batches, k, LiveWith(f));
    CountUpdate(b.batches, i, next.batches[i], LiveWith(f));
    SettleKeepsBooks(b, i, Outcome(e), f);
    assert next.batches[k] == b.batches[k] && LiveWith(f)(next.batches[k]);
  }

  /** At every point of the run. */
  ghost predicate AlwaysFresh(events: seq<Event>, f: EncodedFeedId) {
    Fresh(Run(events), f) && (events == [] || AlwaysFresh(events[..|events| - 1], f))
  }

  /** At every step of the run. */
  ghost predicate AlwaysHitsNewest(events: seq<Event>, f: EncodedFeedId, rows: bool) {
    events == [] ||
    (var front := events[..|events| - 1];
     AlwaysHitsNewest(front, f, rows) && HitsNewest(Run(front), events[|events| - 1], f, rows))
  }

  /** In a run whose rollbacks hit the newest batch, the live counters stay in step. */
  lemma {:induction false} RunKeepsInStep(events: seq<Event>, f: EncodedFeedId, rows: bool)
    requires Fair(events) && AlwaysHitsNewest(events, f, rows)
    ensures InStep(Run(events), f, rows)
  {
    if events == [] {
    } else {
      var front := events[..|events| - 1];
      RunKeepsInStep(front, f, rows);
      RunKeepsBooks(front, f);
      StepKeepsInStep(Run(front), events[|events| - 1], f, rows);
    }
  }

  /** Over every run: the slot a feed's next value goes to is never one that a live batch holds, or an
      earlier one, exactly if every rollback of a batch with the feed hits the newest live batch with it. */
  lemma {:induction false} SlotsStayFreshIff(events: seq<Event>, f: EncodedFeedId)
    requires Fair(events)
    ensures AlwaysFresh(events, f) <==> AlwaysHitsNewest(events, f, false)
  {
    if events == [] {
    } else {
      var front, e := events[..|events| - 1], events[|events| - 1];
      SlotsStayFreshIff(front, f);
      if AlwaysHitsNewest(front, f, false) {
        RunKeepsBooks(front, f);
        RunKeepsBooks(events, f);
        RunKeepsInStep(front, f, false);
        if HitsNewest(Run(front), e, f, false) {
          RunKeepsInStep(events, f, false);
          InStepIsFresh(Run(events), f);
        } else {
          OlderRollbackFreesNewestSlot(Run(front), e, f);
        }
      }
    }
  }

  /** Then no two live batches hold the same counter of a feed, and later ones hold higher ones. */
  lemma LiveCountersAscend(events: seq<Event>, f: EncodedFeedId, i: nat, j: nat)
    requires Fair(events) && AlwaysHitsNewest(events, f, false)
    requires i < j < |Run(events).batches| && LiveWith(f)(Run(events).batches[i]) && LiveWith(f)(Run(events).batches[j])
    ensures RbFor(Run(events).batches[i].rbs, f) < RbFor(Run(events).batches[j].rbs, f)
  {
    var batches := Run(events).batches;
    RunKeepsInStep(events, f, false);
    assert batches[..j][..i] == batches[..i];
    CountPrefix(batches[..j], i, LiveWith(f));
  }

  lemma RunSnoc(events: seq<Event>, e: Event)
    ensures Run(events + [e]) == Step(Run(events), e)
  {
    assert (events + [e])[..|events|] == events;
  }

  /** A run in which it happens: the older of two batches is rolled back while the newer is under way, the newer
      is posted, and the next value of the feed then goes to the slot the newer batch wrote. The Safe's nonce lets
      the newer one through only if the older transaction was executed although it was rolled back, as after a
      receipt that timed out (`SafeNonces.ReuseNeedsExecution`). */
  lemma OverlappingRollbackReusesSlot(f: EncodedFeedId, older: Batch, newer: Batch)
    requires FeedsOf(older) == [f] == FeedsOf(newer) && older.blockHeight != newer.blockHeight
    ensures var b := Run([Announced(older, true)] + [Announced(newer, true)] + [Ended(older.blockHeight, Rejected)]
                         + [Ended(newer.blockHeight, Receipt(true))]);
            && |b.batches| == 2 && b.batches[1].batch == newer && b.batches[1].status == Posted(true)
            && RbFor(b.rbs, f) == RbFor(b.batches[1].rbs, f)
  {
    var two := [Announced(older, true)] + [Announced(newer, true)];
    var three := two + [Ended(older.blockHeight, Rejected)];
    TwoAnnounced(f, older, newer);
    DecrementedCount(Run(two).rbs, [f], f);
    TwoWaiting(Run(two), older, newer);
    RunSnoc(two, Ended(older.blockHeight, Rejected));
    RunSnoc(three, Ended(newer.blockHeight, Receipt(true)));
  }

  lemma TwoAnnounced(f: EncodedFeedId, older: Batch, newer: Batch)
    requires FeedsOf(older) == [f] == FeedsOf(newer) && older.blockHeight != newer.blockHeight
    ensures var b := Run([Announced(older, true)] + [Announced(newer, true)]);
            && |b.batches| == 2 && b.batches[0].batch == older && b.batches[1].batch == newer
            && b.batches[0].status.Waiting? && b.batches[1].status.Waiting?
            && RbFor(b.batches[1].rbs, f) == 1 && RbFor(b.rbs, f) == 2
  {
    var one := [Announced(older, true)];
    OneAnnounced(f, older);
    RunSnoc(one, Announced(newer, true));
    IncrementedCount(Run(one).rbs, [f], f);
  }

  lemma OneAnnounced(f: EncodedFeedId, batch: Batch)
    requires FeedsOf(batch) == [f]
    ensures var b := Run([Announced(batch, true)]);
            b.batches == [Announcement(batch, map[], Waiting)] && RbFor(b.rbs, f) == 1 && Find(b.batches, batch.blockHeight) == Some(0)
  {
    assert [Announced(batch, true)] == [] + [Announced(batch, true)];
    RunSnoc([], Announced(batch, true));
    IncrementedCount(map[], [f], f);
  }

  lemma TwoWaiting(b: Books, older: Batch, newer: Batch)
    requires |b.batches| == 2 && b.batches[0].batch == older && b.batches[1].batch == newer
    requires b.batches[0].status.Waiting? && b.batches[1].status.Waiting? && older.blockHeight != newer.blockHeight
    ensures Find(b.batches, older.blockHeight) == Some(0)
    ensures Find(b.batches[0 := b.batches[0].(status := RolledBack)], newer.blockHeight) == Some(1)
  {
  }
}
