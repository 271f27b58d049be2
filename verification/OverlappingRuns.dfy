/** Overlapping batches against the store: which published values stay readable when batches wait side by side,
    are posted in any order, and are rolled back. */
module OverlappingRuns {
  import opened Wrappers
  import opened AdfsLayout
  import opened AdfsRows
  import opened AdfsCalldata
  import opened AdfsAgreement
  import opened AdfsContract
  import opened AdfsStore
  import opened AdfsPosts
  import opened AdfsFeeds
  import opened TxAccounting

  predicate IsPosted(a: Announcement) {
    a.status == Posted(true)
  }

  /** The event is the successful receipt of the batch at position `i`. */
  predicate Posts(b: Books, e: Event, i: nat) {
    !e.Announced? && Find(b.batches, e.height) == Some(i) && Outcome(e) == Posted(true)
  }

  /** A batch that reporters sign: its calldata places every feed by its own stride. */
  ghost predicate SignedBatch(batch: Batch, cfg: Config) {
    GoodBatch(batch, cfg) && ConsistentConfig(batch, cfg)
  }

  ghost function TableOf(a: Announcement, cfg: Config): map<nat, Lanes> {
    RowTable(CollectedInfo(a.batch, cfg, a.rbs), UpdatedFeeds(a.batch.updates))
  }

  lemma TableFits(a: Announcement, cfg: Config)
    requires SignedBatch(a.batch, cfg)
    ensures TableRows(TableOf(a, cfg))
  {
    var order := SomeOrder(NeighbourSet(a.batch.updates));
    CollectedInfoConsistent(a.batch, cfg, a.rbs);
    RowsExact(order, CollectedInfo(a.batch, cfg, a.rbs), UpdatedFeeds(a.batch.updates));
    RowsFit(a.batch, cfg, a.rbs, order);
  }

  /** The index a feed resolves to after a batch was executed. */
  lemma IndexAfterExecute(st: Storage, a: Announcement, cfg: Config, f: EncodedFeedId)
    requires SignedBatch(a.batch, cfg) && Execute(st, a, cfg).Some? && Addressable(f)
    ensures GetLatestIndex(Execute(st, a, cfg).value, f) ==
            if f in NeighbourSet(a.batch.updates) then Some(IndexOf(a.batch, a.rbs, f)) else GetLatestIndex(st, f)
  {
    var order := SomeOrder(NeighbourSet(a.batch.updates));
    ConsistentPost(st, a.batch, cfg, a.rbs, order);
    ConsistentPut(a.batch, cfg, a.rbs, order, f);
    IndexAfterPost(st, a.batch, cfg, a.rbs, order, f);
  }

  /** The contract executes the calldata a batch was announced with; None when it reverts. */
  ghost function Execute(st: Storage, a: Announcement, cfg: Config): Option<Storage> {
    Send(st, a.batch, cfg, a.rbs, TableOf(a, cfg))
  }

  /** A batch is executed when it is settled as posted. */
  ghost function StoreSettled(st: Storage, a: Announcement, status: Status, cfg: Config): Option<Storage> {
    if status == Posted(true) then Execute(st, a, cfg) else Some(st)
  }

  ghost function StoreStep(st: Storage, b: Books, e: Event, cfg: Config): Option<Storage> {
    if e.Announced? then Some(st)
    else
      match Find(b.batches, e.height)
      case None => Some(st)
      case Some(i) => StoreSettled(st, b.batches[i], Outcome(e), cfg)
  }

  /** What the contract stores after a run; None when a receipt claims success for calldata the contract rejects. */
  ghost function StorageAfter(events: seq<Event>, cfg: Config): Option<Storage> {
    if events == [] then Some(map[])
    else
      var st :- StorageAfter(events[..|events| - 1], cfg);
      StoreStep(st, Run(events[..|events| - 1]), events[|events| - 1], cfg)
  }

  /** Good batches, each with a higher block height than those announced before it. */
  ghost predicate GoodEvents(events: seq<Event>, cfg: Config) {
    events == [] ||
    (var front, e := events[..|events| - 1], events[|events| - 1];
     && GoodEvents(front, cfg)
     && (e.Announced? ==> SignedBatch(e.batch, cfg) && HeightIsHighest(Run(front), e.batch)))
  }

  predicate HeightIsHighest(b: Books, batch: Batch) {
    forall i :: 0 <= i < |b.batches| ==> b.batches[i].batch.blockHeight < batch.blockHeight
  }

  /** Announced batches are good, in the order of their heights, and none is posted above the stored height. */
  ghost predicate Ordered(st: Storage, b: Books, cfg: Config) {
    && (forall i :: 0 <= i < |b.batches| ==> SignedBatch(b.batches[i].batch, cfg))
    && (forall i, j :: 0 <= i < j < |b.batches| ==> b.batches[i].batch.blockHeight < b.batches[j].batch.blockHeight)
    && (forall i :: 0 <= i < |b.batches| && IsPosted(b.batches[i]) ==> b.batches[i].batch.blockHeight <= Sload(st, 0))
  }

  lemma {:induction false} GoodEventsAreFair(events: seq<Event>, cfg: Config)
    requires GoodEvents(events, cfg)
    ensures Fair(events)
  {
    if events == [] {
    } else {
      GoodEventsAreFair(events[..|events| - 1], cfg);
    }
  }

  lemma ExecutedAbove(st: Storage, a: Announcement, cfg: Config)
    requires SignedBatch(a.batch, cfg) && Execute(st, a, cfg).Some?
    ensures Sload(Execute(st, a, cfg).value, 0) == a.batch.blockHeight > Sload(st, 0)
  {
    TableFits(a, cfg);
    BatchAcceptedIff(st, a.batch, cfg, a.rbs, TableOf(a, cfg));
    HeightAfterBatch(st, a.batch, cfg, a.rbs, TableOf(a, cfg));
  }

  /** The contract only executes a batch when nothing announced later is posted yet. */
  lemma ExecutedInOrder(st: Storage, b: Books, cfg: Config, i: nat)
    requires Ordered(st, b, cfg) && i < |b.batches| && Execute(st, b.batches[i], cfg).Some?
    ensures Sload(Execute(st, b.batches[i], cfg).value, 0) == b.batches[i].batch.blockHeight > Sload(st, 0)
    ensures forall j :: i <= j < |b.batches| ==> !IsPosted(b.batches[j])
  {
    ExecutedAbove(st, b.batches[i], cfg);
    LaterNotPosted(st, b, cfg, i);
  }

  lemma LaterNotPosted(st: Storage, b: Books, cfg: Config, i: nat)
    requires Ordered(st, b, cfg) && i < |b.batches| && b.batches[i].batch.blockHeight > Sload(st, 0)
    ensures forall j :: i <= j < |b.batches| ==> !IsPosted(b.batches[j])
  {
  }

  lemma AnnounceKeepsOrder(st: Storage, b: Books, batch: Batch, delivered: bool, cfg: Config)
    requires Ordered(st, b, cfg) && SignedBatch(batch, cfg) && HeightIsHighest(b, batch)
    ensures Ordered(st, Announce(b, batch, delivered), cfg)
  {
  }

  lemma SettleKeepsOrder(st: Storage, b: Books, i: nat, status: Status, cfg: Config)
    requires Ordered(st, b, cfg) && i < |b.batches| && StoreSettled(st, b.batches[i], status, cfg).Some?
    ensures Ordered(StoreSettled(st, b.batches[i], status, cfg).value, Settle(b, i, status), cfg)
  {
    if status == Posted(true) {
      ExecutedInOrder(st, b, cfg, i);
    }
    SettledIsOrdered(st, StoreSettled(st, b.batches[i], status, cfg).value, b, i, status, cfg);
  }

  lemma SettledIsOrdered(st: Storage, st': Storage, b: Books, i: nat, status: Status, cfg: Config)
    requires Ordered(st, b, cfg) && i < |b.batches| && Sload(st, 0) <= Sload(st', 0)
    requires status == Posted(true) ==> b.batches[i].batch.blockHeight <= Sload(st', 0)
    ensures Ordered(st', Settle(b, i, status), cfg)
  {
    var next := Settle(b, i, status);
    assert forall j :: 0 <= j < |b.batches| ==> next.batches[j].batch == b.batches[j].batch;
  }

  lemma StepKeepsOrder(st: Storage, b: Books, e: Event, cfg: Config)
    requires Ordered(st, b, cfg) && StoreStep(st, b, e, cfg).Some?
    requires e.Announced? ==> SignedBatch(e.batch, cfg) && HeightIsHighest(b, e.batch)
    ensures Ordered(StoreStep(st, b, e, cfg).value, Step(b, e), cfg)
  {
    if e.Announced? {
      AnnounceKeepsOrder(st, b, e.batch, e.delivered, cfg);
    } else {
      match Find(b.batches, e.height)
      case None =>
      case Some(i) => SettleKeepsOrder(st, b, i, Outcome(e), cfg);
    }
  }

  lemma {:induction false} RunKeepsOrder(events: seq<Event>, cfg: Config)
    requires GoodEvents(events, cfg) && StorageAfter(events, cfg).Some?
    ensures Ordered(StorageAfter(events, cfg).value, Run(events), cfg)
  {
    if events == [] {
    } else {
      var front := events[..|events| - 1];
      RunKeepsOrder(front, cfg);
      StepKeepsOrder(StorageAfter(front, cfg).value, Run(front), events[|events| - 1], cfg);
    }
  }

  //
  // Values
  //

  /** The feed's value of a batch is in the ring slot the batch was announced with. */
  ghost predicate HeldOf(st: Storage, a: Announcement, cfg: Config, f: EncodedFeedId) {
    forall u :: u in a.batch.updates && u.feed == f ==> SlotHolds(st, f, RingIndex(RbFor(a.rbs, f)), EncodedValue(u, cfg))
  }

  /** No posted batch is a whole ring ahead of batch `i`. */
  ghost predicate InRing(b: Books, f: EncodedFeedId, i: nat)
    requires i < |b.batches|
  {
    forall j :: 0 <= j < |b.batches| && IsPosted(b.batches[j]) && f in FeedsOf(b.batches[j].batch) ==>
      RbFor(b.batches[j].rbs, f) < RbFor(b.batches[i].rbs, f) + MAX_HISTORY_ELEMENTS_PER_FEED
  }

  ghost predicate AllHeld(st: Storage, b: Books, cfg: Config, f: EncodedFeedId) {
    forall i :: 0 <= i < |b.batches| && IsPosted(b.batches[i]) && InRing(b, f, i) ==> HeldOf(st, b.batches[i], cfg, f)
  }

  /** The live counters of a feed ascend. */
  ghost predicate Ascend(b: Books, f: EncodedFeedId) {
    forall i, j :: 0 <= i < j < |b.batches| && LiveWith(f)(b.batches[i]) && LiveWith(f)(b.batches[j]) ==>
      RbFor(b.batches[i].rbs, f) < RbFor(b.batches[j].rbs, f)
  }

  lemma NewValueHeld(st: Storage, a: Announcement, cfg: Config, f: EncodedFeedId)
    requires SignedBatch(a.batch, cfg) && Execute(st, a, cfg).Some?
    ensures HeldOf(Execute(st, a, cfg).value, a, cfg, f)
  {
    forall u | u in a.batch.updates && u.feed == f
      ensures SlotHolds(Execute(st, a, cfg).value, f, RingIndex(RbFor(a.rbs, f)), EncodedValue(u, cfg))
    {
      var k :| 0 <= k < |a.batch.updates| && a.batch.updates[k] == u;
      UpdateHeld(st, a, cfg, k);
    }
  }

  lemma UpdateHeld(st: Storage, a: Announcement, cfg: Config, k: nat)
    requires SignedBatch(a.batch, cfg) && Execute(st, a, cfg).Some? && k < |a.batch.updates|
    ensures var u := a.batch.updates[k];
            SlotHolds(Execute(st, a, cfg).value, u.feed, RingIndex(RbFor(a.rbs, u.feed)), EncodedValue(u, cfg))
  {
    TableFits(a, cfg);
    NewValueStored(st, a.batch, cfg, a.rbs, TableOf(a, cfg), k);
  }

  /** Executing a batch with another ring slot of the feed, or without the feed, keeps an older value. */
  lemma OlderValueHeld(st: Storage, older: Announcement, a: Announcement, cfg: Config, f: EncodedFeedId)
    requires SignedBatch(a.batch, cfg) && Execute(st, a, cfg).Some? && Addressable(f) && HeldOf(st, older, cfg, f)
    requires f in FeedsOf(a.batch) ==> RingIndex(RbFor(a.rbs, f)) != RingIndex(RbFor(older.rbs, f))
    ensures HeldOf(Execute(st, a, cfg).value, older, cfg, f)
  {
    TableFits(a, cfg);
    FeedsOfUpdated(a.batch, f);
    forall u | u in older.batch.updates && u.feed == f
      ensures SlotHolds(Execute(st, a, cfg).value, f, RingIndex(RbFor(older.rbs, f)), EncodedValue(u, cfg))
    {
      OldValueKept(st, a.batch, cfg, a.rbs, TableOf(a, cfg), f, RingIndex(RbFor(older.rbs, f)), EncodedValue(u, cfg));
    }
  }

  lemma FeedListed(batch: Batch, u: VotedFeedUpdate)
    requires u in batch.updates
    ensures u.feed in FeedsOf(batch)
  {
    var k :| 0 <= k < |batch.updates| && batch.updates[k] == u;
    assert FeedsOf(batch)[k] == u.feed;
  }

  /** A batch without the feed has no value of it that could be lost. */
  lemma NothingHeld(st: Storage, a: Announcement, cfg: Config, f: EncodedFeedId)
    requires f !in FeedsOf(a.batch)
    ensures HeldOf(st, a, cfg, f)
  {
    forall u | u in a.batch.updates && u.feed == f ensures false {
      FeedListed(a.batch, u);
    }
  }

  /** Settling a batch without posting it changes no posted batch. */
  lemma SettledInRing(b: Books, i: nat, status: Status, f: EncodedFeedId, j: nat)
    requires i < |b.batches| && j < |b.batches| && !IsPosted(b.batches[i]) && InRing(Settle(b, i, status), f, j)
    ensures InRing(b, f, j)
  {
    var next := Settle(b, i, status);
    forall k | 0 <= k < |b.batches| && IsPosted(b.batches[k]) && f in FeedsOf(b.batches[k].batch)
      ensures RbFor(b.batches[k].rbs, f) < RbFor(b.batches[j].rbs, f) + MAX_HISTORY_ELEMENTS_PER_FEED
    {
      assert next.batches[k] == b.batches[k];
      assert next.batches[j].rbs == b.batches[j].rbs;
    }
  }

  lemma PostKeepsHeld(st: Storage, b: Books, i: nat, cfg: Config, f: EncodedFeedId, j: nat)
    requires Ordered(st, b, cfg) && AllHeld(st, b, cfg, f) && Ascend(b, f) && Addressable(f)
    requires i < |b.batches| && b.batches[i].status.Waiting? && Execute(st, b.batches[i], cfg).Some?
    requires j < |b.batches| && j != i && IsPosted(b.batches[j]) && InRing(Settle(b, i, Posted(true)), f, j)
    ensures HeldOf(Execute(st, b.batches[i], cfg).value, b.batches[j], cfg, f)
  {
    var next := Settle(b, i, Posted(true));
    if f in FeedsOf(b.batches[j].batch) {
      SettledInRing(b, i, Posted(true), f, j);
      ExecutedInOrder(st, b, cfg, i);
      assert j < i;
      if f in FeedsOf(b.batches[i].batch) {
        assert next.batches[i].rbs == b.batches[i].rbs && IsPosted(next.batches[i]) && next.batches[j] == b.batches[j];
        assert LiveWith(f)(b.batches[j]) && LiveWith(f)(b.batches[i]);
        RingIndexDiffers(RbFor(b.batches[j].rbs, f), RbFor(b.batches[i].rbs, f));
      }
      OlderValueHeld(st, b.batches[j], b.batches[i], cfg, f);
    } else {
      NothingHeld(Execute(st, b.batches[i], cfg).value, b.batches[j], cfg, f);
    }
  }

  lemma PostKeepsAllHeld(st: Storage, b: Books, i: nat, cfg: Config, f: EncodedFeedId)
    requires Ordered(st, b, cfg) && AllHeld(st, b, cfg, f) && Ascend(b, f) && Addressable(f)
    requires i < |b.batches| && b.batches[i].status.Waiting? && Execute(st, b.batches[i], cfg).Some?
    ensures AllHeld(Execute(st, b.batches[i], cfg).value, Settle(b, i, Posted(true)), cfg, f)
  {
    var st', next := Execute(st, b.batches[i], cfg).value, Settle(b, i, Posted(true));
    forall j | 0 <= j < |next.batches| && IsPosted(next.batches[j]) && InRing(next, f, j)
      ensures HeldOf(st', next.batches[j], cfg, f)
    {
      if j == i {
        NewValueHeld(st, b.batches[i], cfg, f);
        SameHeld(st', b.batches[i], next.batches[i], cfg, f);
      } else {
        PostKeepsHeld(st, b, i, cfg, f, j);
      }
    }
  }

  lemma SameHeld(st: Storage, a: Announcement, a': Announcement, cfg: Config, f: EncodedFeedId)
    requires HeldOf(st, a, cfg, f) && a'.batch == a.batch && a'.rbs == a.rbs
    ensures HeldOf(st, a', cfg, f)
  {
  }

  lemma OtherKeepsAllHeld(st: Storage, b: Books, i: nat, status: Status, cfg: Config, f: EncodedFeedId)
    requires AllHeld(st, b, cfg, f) && i < |b.batches| && b.batches[i].status.Waiting? && status != Posted(true)
    ensures AllHeld(st, Settle(b, i, status), cfg, f)
  {
    var next := Settle(b, i, status);
    forall j | 0 <= j < |next.batches| && IsPosted(next.batches[j]) && InRing(next, f, j)
      ensures HeldOf(st, next.batches[j], cfg, f)
    {
      assert next.batches[j] == b.batches[j];
      SettledInRing(b, i, status, f, j);
    }
  }

  lemma AnnounceKeepsAllHeld(st: Storage, b: Books, batch: Batch, delivered: bool, cfg: Config, f: EncodedFeedId)
    requires AllHeld(st, b, cfg, f)
    ensures AllHeld(st, Announce(b, batch, delivered), cfg, f)
  {
    var next := Announce(b, batch, delivered);
    forall j | 0 <= j < |next.batches| && IsPosted(next.batches[j]) && InRing(next, f, j)
      ensures HeldOf(st, next.batches[j], cfg, f)
    {
      assert next.batches[..|b.batches|] == b.batches;
      assert next.batches[j] == b.batches[j];
      forall k | 0 <= k < |b.batches| && IsPosted(b.batches[k]) && f in FeedsOf(b.batches[k].batch)
        ensures RbFor(b.batches[k].rbs, f) < RbFor(b.batches[j].rbs, f) + MAX_HISTORY_ELEMENTS_PER_FEED
      {
        assert next.batches[k] == b.batches[k];
      }
    }
  }

  lemma SettleKeepsAllHeld(st: Storage, b: Books, i: nat, status: Status, cfg: Config, f: EncodedFeedId)
    requires Ordered(st, b, cfg) && AllHeld(st, b, cfg, f) && Ascend(b, f) && Addressable(f)
    requires i < |b.batches| && b.batches[i].status.Waiting? && StoreSettled(st, b.batches[i], status, cfg).Some?
    ensures AllHeld(StoreSettled(st, b.batches[i], status, cfg).value, Settle(b, i, status), cfg, f)
  {
    if status == Posted(true) {
      PostKeepsAllHeld(st, b, i, cfg, f);
    } else {
      OtherKeepsAllHeld(st, b, i, status, cfg, f);
    }
  }

  lemma StepKeepsAllHeld(st: Storage, b: Books, e: Event, cfg: Config, f: EncodedFeedId)
    requires Ordered(st, b, cfg) && AllHeld(st, b, cfg, f) && Ascend(b, f) && Addressable(f)
    requires StoreStep(st, b, e, cfg).Some?
    ensures AllHeld(StoreStep(st, b, e, cfg).value, Step(b, e), cfg, f)
  {
    if e.Announced? {
      AnnounceKeepsAllHeld(st, b, e.batch, e.delivered, cfg, f);
    } else {
      match Find(b.batches, e.height)
      case None =>
      case Some(i) => SettleKeepsAllHeld(st, b, i, Outcome(e), cfg, f);
    }
  }

  lemma RunAscends(events: seq<Event>, f: EncodedFeedId)
    requires Fair(events) && AlwaysHitsNewest(events, f, false)
    ensures Ascend(Run(events), f)
  {
    var b := Run(events);
    forall i, j | 0 <= i < j < |b.batches| && LiveWith(f)(b.batches[i]) && LiveWith(f)(b.batches[j])
      ensures RbFor(b.batches[i].rbs, f) < RbFor(b.batches[j].rbs, f)
    {
      LiveCountersAscend(events, f, i, j);
    }
  }

  lemma {:induction false} RunKeepsAllHeld(events: seq<Event>, cfg: Config, f: EncodedFeedId)
    requires GoodEvents(events, cfg) && StorageAfter(events, cfg).Some? && Addressable(f)
    requires AlwaysHitsNewest(events, f, false)
    ensures AllHeld(StorageAfter(events, cfg).value, Run(events), cfg, f)
  {
    if events == [] {
    } else {
      var front := events[..|events| - 1];
      RunKeepsAllHeld(front, cfg, f);
      RunKeepsOrder(front, cfg);
      GoodEventsAreFair(front, cfg);
      RunAscends(front, f);
      StepKeepsAllHeld(StorageAfter(front, cfg).value, Run(front), events[|events| - 1], cfg, f);
    }
  }

  /** However batches overlap and in whatever order they are posted: if every rollback hit the newest batch with
      the feed, each posted value among the feed's last 8192 counters is in the slot it was announced with. */
  lemma PostedValuesStay(events: seq<Event>, cfg: Config, f: EncodedFeedId, i: nat)
    requires GoodEvents(events, cfg) && StorageAfter(events, cfg).Some? && Addressable(f)
    requires AlwaysHitsNewest(events, f, false)
    requires i < |Run(events).batches| && IsPosted(Run(events).batches[i])
    requires RbFor(Run(events).rbs, f) <= RbFor(Run(events).batches[i].rbs, f) + MAX_HISTORY_ELEMENTS_PER_FEED
    ensures HeldOf(StorageAfter(events, cfg).value, Run(events).batches[i], cfg, f)
  {
    var b := Run(events);
    RunKeepsAllHeld(events, cfg, f);
    GoodEventsAreFair(events, cfg);
    RunKeepsInStep(events, f, false);
    RunKeepsBooks(events, f);
    InStepIsFresh(b, f);
    forall j | 0 <= j < |b.batches| && IsPosted(b.batches[j]) && f in FeedsOf(b.batches[j].batch)
      ensures RbFor(b.batches[j].rbs, f) < RbFor(b.batches[i].rbs, f) + MAX_HISTORY_ELEMENTS_PER_FEED
    {
      assert LiveWith(f)(b.batches[j]);
    }
  }

  //
  // The index table
  //

  /** The ring slot of the feed's newest posted value; 0 before the first one. */
  function NewestSlot(batches: seq<Announcement>, f: EncodedFeedId): nat {
    if batches == [] then 0
    else
      var a := batches[|batches| - 1];
      if IsPosted(a) && f in FeedsOf(a.batch) then RingIndex(RbFor(a.rbs, f)) else NewestSlot(batches[..|batches| - 1], f)
  }

  /** The table resolves the feed to its newest posted value. */
  ghost predicate Resolves(st: Storage, b: Books, f: EncodedFeedId) {
    GetLatestIndex(st, f) == Some(NewestSlot(b.batches, f))
  }

  /** A batch about to be posted that lists the feed for a neighbour's sake was announced with the counter of
      the newest posted value. */
  ghost predicate CaughtUp(b: Books, e: Event, f: EncodedFeedId) {
    forall i :: 0 <= i < |b.batches| && Posts(b, e, i) && ListsOnly(b.batches[i], f) ==>
      LaneValue(RbFor(b.batches[i].rbs, f), false) == NewestSlot(b.batches, f)
  }

  predicate ListsOnly(a: Announcement, f: EncodedFeedId) {
    f in NeighbourSet(a.batch.updates) && f !in FeedsOf(a.batch)
  }

  lemma {:induction false} NewestSlotSettled(batches: seq<Announcement>, i: nat, a: Announcement, f: EncodedFeedId)
    requires i < |batches| && !IsPosted(batches[i]) && a.batch == batches[i].batch && a.rbs == batches[i].rbs
    requires IsPosted(a) && f in FeedsOf(a.batch) ==> forall j :: i < j < |batches| ==> !IsPosted(batches[j])
    ensures NewestSlot(batches[i := a], f) ==
            if IsPosted(a) && f in FeedsOf(a.batch) then RingIndex(RbFor(a.rbs, f)) else NewestSlot(batches, f)
  {
    var last := |batches| - 1;
    if i == last {
      assert batches[i := a][..last] == batches[..last];
    } else {
      assert batches[i := a][..last] == batches[..last][i := a];
      NewestSlotSettled(batches[..last], i, a, f);
    }
  }

  lemma NewestSlotAnnounced(b: Books, batch: Batch, delivered: bool, f: EncodedFeedId)
    ensures NewestSlot(Announce(b, batch, delivered).batches, f) == NewestSlot(b.batches, f)
  {
    var next := Announce(b, batch, delivered).batches;
    assert next[..|b.batches|] == b.batches;
  }

  lemma PostResolvesIff(st: Storage, b: Books, i: nat, cfg: Config, f: EncodedFeedId)
    requires Ordered(st, b, cfg) && Resolves(st, b, f) && Addressable(f)
    requires i < |b.batches| && b.batches[i].status.Waiting? && Execute(st, b.batches[i], cfg).Some?
    ensures Resolves(Execute(st, b.batches[i], cfg).value, Settle(b, i, Posted(true)), f) <==>
            (ListsOnly(b.batches[i], f) ==> LaneValue(RbFor(b.batches[i].rbs, f), false) == NewestSlot(b.batches, f))
  {
    var a := b.batches[i];
    ExecutedInOrder(st, b, cfg, i);
    NewestSlotSettled(b.batches, i, a.(status := Posted(true)), f);
    FeedsOfUpdated(a.batch, f);
    IndexAfterExecute(st, a, cfg, f);
    if f in FeedsOf(a.batch) {
      var k := FeedPosition(a.batch, f);
      UpdatedFeedIsListed(a.batch, a.batch.updates[k]);
    }
  }

  lemma SettleResolvesIff(st: Storage, b: Books, i: nat, status: Status, cfg: Config, f: EncodedFeedId)
    requires Ordered(st, b, cfg) && Resolves(st, b, f) && Addressable(f)
    requires i < |b.batches| && b.batches[i].status.Waiting? && StoreSettled(st, b.batches[i], status, cfg).Some?
    ensures Resolves(StoreSettled(st, b.batches[i], status, cfg).value, Settle(b, i, status), f) <==>
            (status == Posted(true) && ListsOnly(b.batches[i], f) ==>
               LaneValue(RbFor(b.batches[i].rbs, f), false) == NewestSlot(b.batches, f))
  {
    if status == Posted(true) {
      PostResolvesIff(st, b, i, cfg, f);
    } else {
      NewestSlotSettled(b.batches, i, b.batches[i].(status := status), f);
    }
  }

  lemma StepResolvesIff(st: Storage, b: Books, e: Event, cfg: Config, f: EncodedFeedId)
    requires Ordered(st, b, cfg) && Resolves(st, b, f) && Addressable(f) && StoreStep(st, b, e, cfg).Some?
    ensures Resolves(StoreStep(st, b, e, cfg).value, Step(b, e), f) <==> CaughtUp(b, e, f)
  {
    if e.Announced? {
      NewestSlotAnnounced(b, e.batch, e.delivered, f);
    } else {
      match Find(b.batches, e.height)
      case None =>
      case Some(i) => SettleResolvesIff(st, b, i, Outcome(e), cfg, f);
    }
  }

  /** At every point of the run. */
  ghost predicate AlwaysResolves(events: seq<Event>, cfg: Config, f: EncodedFeedId)
    requires StorageAfter(events, cfg).Some?
  {
    Resolves(StorageAfter(events, cfg).value, Run(events), f) &&
    (events == [] || AlwaysResolves(events[..|events| - 1], cfg, f))
  }

  /** At every step of the run. */
  ghost predicate AlwaysCaughtUp(events: seq<Event>, f: EncodedFeedId) {
    events == [] ||
    (var front := events[..|events| - 1]; AlwaysCaughtUp(front, f) && CaughtUp(Run(front), events[|events| - 1], f))
  }

  /** Over every run of overlapping batches: the table resolves the feed to its newest posted value at every
      point exactly if each batch that only lists the feed is posted with the counter of that value. */
  lemma {:induction false} ResolvesIff(events: seq<Event>, cfg: Config, f: EncodedFeedId)
    requires GoodEvents(events, cfg) && StorageAfter(events, cfg).Some? && Addressable(f)
    ensures AlwaysResolves(events, cfg, f) <==> AlwaysCaughtUp(events, f)
  {
    if events == [] {
      NothingStored(f);
    } else {
      var front := events[..|events| - 1];
      ResolvesIff(front, cfg, f);
      RunKeepsOrder(front, cfg);
      if AlwaysResolves(front, cfg, f) {
        StepResolvesIff(StorageAfter(front, cfg).value, Run(front), events[|events| - 1], cfg, f);
      }
    }
  }

  //
  // Posting in order
  //

  /** The newest batch with the feed whose increment stands. */
  function NewestLive(batches: seq<Announcement>, f: EncodedFeedId): Option<Announcement> {
    if batches == [] then None
    else
      var a := batches[|batches| - 1];
      if LiveWith(f)(a) then Some(a) else NewestLive(batches[..|batches| - 1], f)
  }

  /** There is no such batch, or it is posted. */
  predicate NothingPending(batches: seq<Announcement>, f: EncodedFeedId) {
    NewestLive(batches, f).Some? ==> IsPosted(NewestLive(batches, f).value)
  }

  /** A batch that only lists the feed is posted when no batch with the feed announced before it is pending. */
  ghost predicate InTurn(b: Books, e: Event, f: EncodedFeedId) {
    forall i :: 0 <= i < |b.batches| && Posts(b, e, i) && ListsOnly(b.batches[i], f) ==> NothingPending(b.batches[..i], f)
  }

  ghost predicate AlwaysInTurn(events: seq<Event>, f: EncodedFeedId) {
    events == [] ||
    (var front := events[..|events| - 1]; AlwaysInTurn(front, f) && InTurn(Run(front), events[|events| - 1], f))
  }

  /** Each live batch with the feed was announced with the number of those before it. */
  ghost predicate CountersCount(batches: seq<Announcement>, f: EncodedFeedId) {
    forall j :: 0 <= j < |batches| && LiveWith(f)(batches[j]) ==> RbFor(batches[j].rbs, f) == CountOf(batches[..j], LiveWith(f))
  }

  lemma CountersCountPrefix(batches: seq<Announcement>, i: nat, f: EncodedFeedId)
    requires i <= |batches| && CountersCount(batches, f)
    ensures CountersCount(batches[..i], f)
  {
    var before := batches[..i];
    forall j | 0 <= j < |before| && LiveWith(f)(before[j]) ensures RbFor(before[j].rbs, f) == CountOf(before[..j], LiveWith(f)) {
      assert before[..j] == batches[..j] && before[j] == batches[j];
    }
  }

  /** If the newest live batch is posted, the number of live batches stands for its slot. */
  lemma {:induction false} NewestOfPosted(batches: seq<Announcement>, f: EncodedFeedId)
    requires CountersCount(batches, f) && NothingPending(batches, f)
    ensures NewestSlot(batches, f) == LaneValue(CountOf(batches, LiveWith(f)), false)
  {
    if batches == [] {
    } else if !LiveWith(f)(batches[|batches| - 1]) {
      CountersCountPrefix(batches, |batches| - 1, f);
      NewestOfPosted(batches[..|batches| - 1], f);
    }
  }

  lemma {:induction false} NewestSlotPrefix(batches: seq<Announcement>, i: nat, f: EncodedFeedId)
    requires i <= |batches| && forall j :: i <= j < |batches| ==> !IsPosted(batches[j])
    ensures NewestSlot(batches, f) == NewestSlot(batches[..i], f)
  {
    if i == |batches| {
      assert batches[..i] == batches;
    } else {
      var front := batches[..|batches| - 1];
      NewestSlotPrefix(front, i, f);
      assert front[..i] == batches[..i];
    }
  }

  lemma InStepCounts(b: Books, f: EncodedFeedId)
    requires InStep(b, f, true)
    ensures CountersCount(b.batches, f)
  {
    forall j | 0 <= j < |b.batches| && LiveWith(f)(b.batches[j])
      ensures RbFor(b.batches[j].rbs, f) == CountOf(b.batches[..j], LiveWith(f))
    {
      FeedIsConcern(b.batches[j], f);
    }
  }

  lemma PostedInTurn(batches: seq<Announcement>, i: nat, f: EncodedFeedId)
    requires i < |batches| && CountersCount(batches, f) && NothingPending(batches[..i], f)
    requires forall j :: i <= j < |batches| ==> !IsPosted(batches[j])
    requires RbFor(batches[i].rbs, f) == CountOf(batches[..i], LiveWith(f))
    ensures LaneValue(RbFor(batches[i].rbs, f), false) == NewestSlot(batches, f)
  {
    NewestSlotPrefix(batches, i, f);
    CountersCountPrefix(batches, i, f);
    NewestOfPosted(batches[..i], f);
  }

  lemma InTurnIsCaughtUp(st: Storage, b: Books, e: Event, cfg: Config, f: EncodedFeedId)
    requires Ordered(st, b, cfg) && StoreStep(st, b, e, cfg).Some?
    requires InStep(b, f, true) && InTurn(b, e, f)
    ensures CaughtUp(b, e, f)
  {
    forall i | 0 <= i < |b.batches| && Posts(b, e, i) && ListsOnly(b.batches[i], f)
      ensures LaneValue(RbFor(b.batches[i].rbs, f), false) == NewestSlot(b.batches, f)
    {
      ExecutedInOrder(st, b, cfg, i);
      InStepCounts(b, f);
      assert b.batches[i].Live() && Concerns(b.batches[i], f, true);
      PostedInTurn(b.batches, i, f);
    }
  }

  lemma FeedIsConcern(a: Announcement, f: EncodedFeedId)
    requires f in FeedsOf(a.batch)
    ensures Concerns(a, f, true)
  {
    FeedsOfUpdated(a.batch, f);
    var k := FeedPosition(a.batch, f);
    UpdatedFeedIsListed(a.batch, a.batch.updates[k]);
  }

  lemma {:induction false} RowsIncludeValues(events: seq<Event>, f: EncodedFeedId)
    requires AlwaysHitsNewest(events, f, true)
    ensures AlwaysHitsNewest(events, f, false)
  {
    if events == [] {
    } else {
      var front, e := events[..|events| - 1], events[|events| - 1];
      var b := Run(front);
      RowsIncludeValues(front, f);
      forall i, j | 0 <= i < j < |b.batches| && RollsBack(b, e, i) && f in FeedsOf(b.batches[i].batch)
        ensures !(b.batches[j].Live() && Concerns(b.batches[j], f, false))
      {
        if f in FeedsOf(b.batches[j].batch) {
          FeedIsConcern(b.batches[j], f);
        }
      }
    }
  }

  lemma {:induction false} InTurnAlwaysCaughtUp(events: seq<Event>, cfg: Config, f: EncodedFeedId)
    requires GoodEvents(events, cfg) && StorageAfter(events, cfg).Some?
    requires AlwaysHitsNewest(events, f, true) && AlwaysInTurn(events, f)
    ensures AlwaysCaughtUp(events, f)
  {
    if events == [] {
    } else {
      var front := events[..|events| - 1];
      InTurnAlwaysCaughtUp(front, cfg, f);
      RunKeepsOrder(front, cfg);
      GoodEventsAreFair(front, cfg);
      RunKeepsInStep(front, f, true);
      InTurnIsCaughtUp(StorageAfter(front, cfg).value, Run(front), events[|events| - 1], cfg, f);
    }
  }

  /** Overlapping batches whose rollbacks hit the newest one and that are posted in turn: at every point the feed
      resolves to the value posted last, and that value is read back. */
  lemma OverlapKeepsFeed(events: seq<Event>, cfg: Config, f: EncodedFeedId, i: nat, u: VotedFeedUpdate)
    requires GoodEvents(events, cfg) && StorageAfter(events, cfg).Some? && Addressable(f)
    requires AlwaysHitsNewest(events, f, true) && AlwaysInTurn(events, f)
    requires i < |Run(events).batches| && IsPosted(Run(events).batches[i])
    requires u in Run(events).batches[i].batch.updates && u.feed == f
    requires forall j :: i < j < |Run(events).batches| && IsPosted(Run(events).batches[j]) ==>
               f !in FeedsOf(Run(events).batches[j].batch)
    ensures var st, b := StorageAfter(events, cfg).value, Run(events);
            && GetLatestIndex(st, f) == Some(RingIndex(RbFor(b.batches[i].rbs, f)))
            && GetLatestData(st, f).Some? && Words(EncodedValue(u, cfg)) <= GetLatestData(st, f).value
  {
    var st, b := StorageAfter(events, cfg).value, Run(events);
    FeedListed(b.batches[i].batch, u);
    InTurnAlwaysCaughtUp(events, cfg, f);
    ResolvesIff(events, cfg, f);
    NewestSlotAt(b.batches, i, f);
    NewestInRing(events, cfg, f, i);
    RunKeepsAllHeldRows(events, cfg, f);
    ReadWindow(st, f, RingIndex(RbFor(b.batches[i].rbs, f)), EncodedValue(u, cfg));
  }

  lemma RunKeepsAllHeldRows(events: seq<Event>, cfg: Config, f: EncodedFeedId)
    requires GoodEvents(events, cfg) && StorageAfter(events, cfg).Some? && Addressable(f)
    requires AlwaysHitsNewest(events, f, true)
    ensures AllHeld(StorageAfter(events, cfg).value, Run(events), cfg, f)
  {
    RowsIncludeValues(events, f);
    RunKeepsAllHeld(events, cfg, f);
  }

  lemma {:induction false} NewestSlotAt(batches: seq<Announcement>, i: nat, f: EncodedFeedId)
    requires i < |batches| && IsPosted(batches[i]) && f in FeedsOf(batches[i].batch)
    requires forall j :: i < j < |batches| && IsPosted(batches[j]) ==> f !in FeedsOf(batches[j].batch)
    ensures NewestSlot(batches, f) == RingIndex(RbFor(batches[i].rbs, f))
  {
    if i == |batches| - 1 {
    } else {
      NewestSlotAt(batches[..|batches| - 1], i, f);
    }
  }

  lemma NewestInRing(events: seq<Event>, cfg: Config, f: EncodedFeedId, i: nat)
    requires GoodEvents(events, cfg) && AlwaysHitsNewest(events, f, true)
    requires i < |Run(events).batches| && IsPosted(Run(events).batches[i]) && f in FeedsOf(Run(events).batches[i].batch)
    requires forall j :: i < j < |Run(events).batches| && IsPosted(Run(events).batches[j]) ==>
               f !in FeedsOf(Run(events).batches[j].batch)
    ensures InRing(Run(events), f, i)
  {
    var b := Run(events);
    RowsIncludeValues(events, f);
    GoodEventsAreFair(events, cfg);
    RunAscends(events, f);
    forall j | 0 <= j < |b.batches| && IsPosted(b.batches[j]) && f in FeedsOf(b.batches[j].batch)
      ensures RbFor(b.batches[j].rbs, f) < RbFor(b.batches[i].rbs, f) + MAX_HISTORY_ELEMENTS_PER_FEED
    {
      assert j <= i;
      assert LiveWith(f)(b.batches[j]) && LiveWith(f)(b.batches[i]);
    }
  }
}
