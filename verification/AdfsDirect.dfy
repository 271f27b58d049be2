/** Batches posted straight to the contract, with the sequencer's own configuration: when a feed always resolves
    to its newest value, and what a feed that is not registered does to the row of stride 0. */
module AdfsDirect {
  import FeedTypes
  import opened Sets
  import opened Wrappers
  import opened AdfsLayout
  import opened AdfsCalldata
  import opened AdfsAgreement
  import opened AdfsConfigs
  import opened AdfsContract
  import opened AdfsStore
  import opened AdfsPosts
  import opened AdfsFeeds
  import opened AdfsRuns

  //
  // Whatever orders the hash maps are iterated in
  //

  /** The same event, but for the iteration order. */
  predicate SameButOrder(d: Event, e: Event) {
    if d.Published? && e.Published? then d.batch == e.batch && d.cfg == e.cfg else d == e
  }

  ghost predicate Reordered(a: seq<Event>, b: seq<Event>) {
    |a| == |b| && forall i :: 0 <= i < |a| ==> SameButOrder(a[i], b[i])
  }

  /** The counters after a run without restarts. */
  function Counters(events: seq<Event>): RoundBufferIndices {
    if events == [] then map[] else NextCounters(Counters(events[..|events| - 1]), events[|events| - 1])
  }

  function NextCounters(rbs: RoundBufferIndices, e: Event): RoundBufferIndices {
    match e
    case Published(batch, _, _) => Incremented(rbs, FeedsOf(batch))
    case Failed(batch) => Decremented(Incremented(rbs, FeedsOf(batch)), FeedsOf(batch))
    case Restarted(_) => rbs
  }

  lemma StepCounters(w: World, e: Event)
    requires !e.Restarted? && OrderFits(e) && Step(w, e).Some?
    ensures Step(w, e).value.rbs == NextCounters(w.rbs, e)
  {
  }

  lemma {:induction false} CountersOfRun(events: seq<Event>)
    requires NoRestart(events) && OrdersFit(events) && Run(events).Some?
    ensures Run(events).value.rbs == Counters(events)
  {
    if events == [] {
    } else {
      var front, e := events[..|events| - 1], events[|events| - 1];
      CountersOfRun(front);
      StepCounters(Run(front).value, e);
    }
  }

  /** Before the batch is posted it is safe for the feed. */
  ghost predicate SafeEvent(front: seq<Event>, e: Event, f: EncodedFeedId) {
    e.Published? ==> Safe(e.batch, e.cfg, Counters(front), f, LatestSlot(Log(front, f), 0))
  }

  ghost predicate AlwaysSafe(events: seq<Event>, f: EncodedFeedId) {
    events == [] || (AlwaysSafe(events[..|events| - 1], f) && SafeEvent(events[..|events| - 1], events[|events| - 1], f))
  }

  lemma {:induction false} ReorderedSame(a: seq<Event>, b: seq<Event>, f: EncodedFeedId)
    requires Reordered(a, b)
    ensures Counters(a) == Counters(b) && Log(a, f) == Log(b, f)
    ensures AlwaysSafe(a, f) <==> AlwaysSafe(b, f)
  {
    if a == [] {
    } else {
      assert SameButOrder(a[|a| - 1], b[|b| - 1]);
      ReorderedSame(a[..|a| - 1], b[..|b| - 1], f);
    }
  }

  ghost predicate GoodRun(events: seq<Event>, f: EncodedFeedId) {
    GoodEvents(events, f) && NoRestart(events)
  }

  lemma ReorderedGood(a: seq<Event>, b: seq<Event>, f: EncodedFeedId)
    requires Reordered(a, b) && GoodRun(a, f) && OrdersFit(b)
    ensures GoodRun(b, f)
  {
    forall e | e in b ensures GoodEvent(e, f) && !e.Restarted? {
      var i :| 0 <= i < |b| && b[i] == e;
      assert SameButOrder(a[i], b[i]) && GoodEvent(a[i], f);
    }
  }

  /** Acceptance by the contract and the stored height do not depend on the order. */
  lemma StepReordered(w: World, d: Event, v: World, e: Event, f: EncodedFeedId)
    requires SameButOrder(d, e) && GoodEvent(d, f) && GoodEvent(e, f) && !d.Restarted?
    requires w.rbs == v.rbs && Sload(w.storage, 0) == Sload(v.storage, 0)
    ensures Step(w, d).Some? <==> Step(v, e).Some?
    ensures Step(w, d).Some? ==> Sload(Step(w, d).value.storage, 0) == Sload(Step(v, e).value.storage, 0)
  {
    if d.Published? {
      PostHeight(w.storage, d.batch, d.cfg, w.rbs, d.order);
      PostHeight(v.storage, e.batch, e.cfg, v.rbs, e.order);
    }
  }

  lemma PostHeight(st: Storage, batch: Batch, cfg: Config, rbs: RoundBufferIndices, order: seq<EncodedFeedId>)
    requires GoodBatch(batch, cfg) && Enumerates(order, NeighbourSet(batch.updates))
    ensures Post(st, batch, cfg, rbs, order).Some? <==>
            batch.blockHeight > Sload(st, 0) && forall u :: u in batch.updates ==> !EmptyAtStart(u, cfg, rbs)
    ensures Post(st, batch, cfg, rbs, order).Some? ==> Sload(Post(st, batch, cfg, rbs, order).value, 0) == batch.blockHeight
  {
    RowsFit(batch, cfg, rbs, order);
    BatchAcceptedIff(st, batch, cfg, rbs, Rows(batch, cfg, rbs, order));
    if Post(st, batch, cfg, rbs, order).Some? {
      HeightAfterBatch(st, batch, cfg, rbs, Rows(batch, cfg, rbs, order));
    }
  }

  lemma {:induction false} ReorderedAccepted(a: seq<Event>, b: seq<Event>, f: EncodedFeedId)
    requires Reordered(a, b) && GoodRun(a, f) && OrdersFit(a) && OrdersFit(b)
    ensures Run(a).Some? <==> Run(b).Some?
    ensures Run(a).Some? ==> Sload(Run(a).value.storage, 0) == Sload(Run(b).value.storage, 0)
  {
    if a == [] {
    } else {
      var a', b' := a[..|a| - 1], b[..|b| - 1];
      ReorderedGood(a, b, f);
      ReorderedAccepted(a', b', f);
      if Run(a').Some? {
        CountersOfRun(a');
        CountersOfRun(b');
        ReorderedSame(a', b', f);
        assert SameButOrder(a[|a| - 1], b[|b| - 1]);
        StepReordered(Run(a').value, a[|a| - 1], Run(b').value, b[|b| - 1], f);
      }
    }
  }

  lemma SafeStep(front: seq<Event>, e: Event, f: EncodedFeedId)
    requires NoRestart(front) && OrdersFit(front) && Run(front).Some? && OrderFits(e) && SafeEvent(front, e, f)
    ensures PutsRight(Run(front).value, e, f, LatestSlot(Log(front, f), Base(front, f)))
  {
    CountersOfRun(front);
    BaseIsZero(front, f);
    if e.Published? {
      SafeIsUndisturbed(e.batch, e.cfg, Counters(front), e.order, f, LatestSlot(Log(front, f), 0));
    }
  }

  lemma {:induction false} SafePutsRight(events: seq<Event>, f: EncodedFeedId)
    requires NoRestart(events) && OrdersFit(events) && Run(events).Some? && AlwaysSafe(events, f)
    ensures AlwaysPutsRight(events, f)
  {
    if events == [] {
    } else {
      var front, e := events[..|events| - 1], events[|events| - 1];
      SafePutsRight(front, f);
      assert OrderFits(e);
      SafeStep(front, e, f);
    }
  }

  /** The feed resolves to its newest value at every point, whatever the iteration orders. */
  ghost predicate StoredForAllOrders(events: seq<Event>, f: EncodedFeedId)
    requires GoodRun(events, f) && OrdersFit(events)
  {
    forall b :: Reordered(events, b) && OrdersFit(b) ==> Run(b).Some? && AlwaysStored(b, f)
  }

  /** The iteration order with which a post that is not safe puts a wrong index. */
  lemma SpoiltEvent(front: seq<Event>, e: Event, f: EncodedFeedId) returns (d: Event)
    requires NoRestart(front) && OrdersFit(front) && Run(front).Some? && GoodEvent(e, f) && !SafeEvent(front, e, f)
    ensures SameButOrder(e, d) && OrderFits(d)
    ensures !PutsRight(Run(front).value, d, f, LatestSlot(Log(front, f), Base(front, f)))
  {
    CountersOfRun(front);
    BaseIsZero(front, f);
    var order := DisturbingOrder(e.batch, e.cfg, Counters(front), f, LatestSlot(Log(front, f), 0));
    d := e.(order := order);
  }

  lemma WrongLast(b: seq<Event>, f: EncodedFeedId)
    requires GoodEvents(b, f) && OrdersFit(b) && Run(b).Some? && Addressable(f) && b != []
    requires var front := b[..|b| - 1]; !PutsRight(Run(front).value, b[|b| - 1], f, LatestSlot(Log(front, f), Base(front, f)))
    ensures !AlwaysStored(b, f)
  {
    StoredIff(b, f);
  }

  lemma ReorderedLast(front: seq<Event>, e: Event, d: Event)
    requires SameButOrder(e, d) && OrdersFit(front) && OrderFits(d)
    ensures Reordered(front + [e], front + [d]) && OrdersFit(front + [d])
    ensures (front + [d])[..|front + [d]| - 1] == front
  {
  }

  lemma ReorderedRuns(a: seq<Event>, b: seq<Event>, f: EncodedFeedId)
    requires Reordered(a, b) && GoodRun(a, f) && OrdersFit(a) && OrdersFit(b) && Run(a).Some?
    ensures GoodRun(b, f) && Run(b).Some?
  {
    ReorderedGood(a, b, f);
    ReorderedAccepted(a, b, f);
  }

  lemma SpoiltHere(front: seq<Event>, e: Event, f: EncodedFeedId) returns (b: seq<Event>)
    requires GoodRun(front + [e], f) && OrdersFit(front + [e]) && NoRestart(front) && OrdersFit(front) && Run(front).Some?
    requires Run(front + [e]).Some? && Addressable(f) && GoodEvent(e, f) && !SafeEvent(front, e, f)
    ensures Reordered(front + [e], b) && OrdersFit(b) && Run(b).Some? && !AlwaysStored(b, f)
  {
    var d := SpoiltEvent(front, e, f);
    ReorderedLast(front, e, d);
    b := front + [d];
    ReorderedRuns(front + [e], b, f);
    WrongLast(b, f);
  }

  lemma SpoiltEarlier(front: seq<Event>, e: Event, f: EncodedFeedId, b: seq<Event>)
    requires GoodRun(front + [e], f) && OrdersFit(front + [e]) && Run(front + [e]).Some?
    requires Reordered(front, b) && OrdersFit(b) && Run(b).Some? && !AlwaysStored(b, f)
    ensures Reordered(front + [e], b + [e]) && OrdersFit(b + [e]) && Run(b + [e]).Some? && !AlwaysStored(b + [e], f)
  {
    assert OrderFits(e) by { assert e in front + [e]; }
    assert (b + [e])[..|b|] == b;
    ReorderedAccepted(front + [e], b + [e], f);
  }

  /** Iteration orders with which a run that is not always safe goes wrong. */
  lemma {:induction false} SpoiltOrders(events: seq<Event>, f: EncodedFeedId) returns (b: seq<Event>)
    requires GoodRun(events, f) && OrdersFit(events) && Run(events).Some? && Addressable(f) && !AlwaysSafe(events, f)
    ensures Reordered(events, b) && OrdersFit(b) && Run(b).Some? && !AlwaysStored(b, f)
  {
    var front, e := events[..|events| - 1], events[|events| - 1];
    assert events == front + [e];
    if AlwaysSafe(front, f) {
      assert GoodEvent(e, f);
      b := SpoiltHere(front, e, f);
    } else {
      var b' := SpoiltOrders(front, f);
      SpoiltEarlier(front, e, f, b');
      b := b' + [e];
    }
  }

  /** Over every run of direct posts: the feed resolves to its newest value at every point, whatever orders the
      hash maps are iterated in, exactly if every post is safe for it. */
  lemma DirectRunIff(events: seq<Event>, f: EncodedFeedId)
    requires GoodRun(events, f) && OrdersFit(events) && Run(events).Some? && Addressable(f)
    ensures StoredForAllOrders(events, f) <==> AlwaysSafe(events, f)
  {
    if AlwaysSafe(events, f) {
      forall b | Reordered(events, b) && OrdersFit(b) ensures Run(b).Some? && AlwaysStored(b, f) {
        ReorderedGood(events, b, f);
        ReorderedAccepted(events, b, f);
        ReorderedSame(events, b, f);
        SafePutsRight(b, f);
        StoredIff(b, f);
      }
    } else {
      var b := SpoiltOrders(events, f);
    }
  }

  //
  // The sequencer's own configuration
  //

  /** With the sequencer's configuration the displaced feeds are the listed ones that are not registered. */
  lemma MisplacedIsDisplaced(batch: Batch, registered: Feeds, f: EncodedFeedId)
    ensures Displaced(batch, SequencerConfig(registered, batch), f) <==> Misplaced(batch, registered, f)
  {
  }

  /** What the sequencer can check ahead of posting, feed by feed: a misplaced feed, whose own row is zeroed, must
      resolve to slot 0; any other listed feed's counter must stand for the right index; every misplaced feed with
      the same id must bring the right index to the row of stride 0; and if such a row is written without the
      feed, it must resolve to slot 0. */
  ghost predicate Checked(batch: Batch, registered: Feeds, rbs: RoundBufferIndices, f: EncodedFeedId, current: nat) {
    var right := RightIndex(batch, rbs, f, current);
    && (Misplaced(batch, registered, f) ==> current == 0)
    && (f in NeighbourSet(batch.updates) && !Misplaced(batch, registered, f) ==> IndexOf(batch, rbs, f) == right)
    && (forall m :: Misplaced(batch, registered, m) && f == EncodedFeedId(0, m.id) ==> IndexOf(batch, rbs, m) == right)
    && (forall m :: Misplaced(batch, registered, m) && f in NeighbourFeedIds(EncodedFeedId(0, m.id)) && Unclaimed(batch, registered, f) ==> current == 0)
  }

  /** Neither the feed itself nor a misplaced one of its id is put on its slot of stride 0. */
  ghost predicate Unclaimed(batch: Batch, registered: Feeds, f: EncodedFeedId) {
    f !in NeighbourSet(batch.updates) && forall m :: Misplaced(batch, registered, m) ==> f != EncodedFeedId(0, m.id)
  }

  /** What is put where with the sequencer's configuration. */
  lemma PutBySequencer(batch: Batch, registered: Feeds, f: EncodedFeedId)
    ensures forall g :: Claims(batch, SequencerConfig(registered, batch), g, f) <==>
              || (g == f && f in NeighbourSet(batch.updates) && !Misplaced(batch, registered, f))
              || (Misplaced(batch, registered, g) && f == EncodedFeedId(0, g.id))
    ensures RowRewritten(batch, SequencerConfig(registered, batch), f) <==>
            f in NeighbourSet(batch.updates) || exists m :: Misplaced(batch, registered, m) && f in NeighbourFeedIds(EncodedFeedId(0, m.id))
  {
    forall m ensures Displaced(batch, SequencerConfig(registered, batch), m) <==> Misplaced(batch, registered, m) {
      MisplacedIsDisplaced(batch, registered, m);
    }
  }

  lemma MisplacedNotUpdated(batch: Batch, registered: Feeds, f: EncodedFeedId)
    requires GoodBatch(batch, SequencerConfig(registered, batch)) && f in UpdatedFeeds(batch.updates)
    ensures f in NeighbourSet(batch.updates) && !Misplaced(batch, registered, f)
  {
    var i := FeedPosition(batch, f);
    UpdatedNotDisplaced(batch, SequencerConfig(registered, batch), batch.updates[i]);
    MisplacedIsDisplaced(batch, registered, f);
  }

  lemma CheckedIsSafe(batch: Batch, registered: Feeds, rbs: RoundBufferIndices, f: EncodedFeedId, current: nat)
    requires GoodBatch(batch, SequencerConfig(registered, batch)) && Checked(batch, registered, rbs, f, current)
    ensures Safe(batch, SequencerConfig(registered, batch), rbs, f, current)
  {
    var cfg := SequencerConfig(registered, batch);
    PutBySequencer(batch, registered, f);
    if f in UpdatedFeeds(batch.updates) {
      MisplacedNotUpdated(batch, registered, f);
      assert Claims(batch, cfg, f, f);
    } else if f in NeighbourSet(batch.updates) && !Misplaced(batch, registered, f) {
      assert Claims(batch, cfg, f, f);
    }
  }

  /** A misplaced feed's own slot is claimed by nobody, nor is that of an unclaimed feed of stride 0. */
  lemma NobodyClaims(batch: Batch, registered: Feeds, f: EncodedFeedId)
    requires Misplaced(batch, registered, f) || Unclaimed(batch, registered, f)
    ensures forall g :: !Claims(batch, SequencerConfig(registered, batch), g, f)
  {
    PutBySequencer(batch, registered, f);
  }

  lemma SafeUnclaimed(batch: Batch, registered: Feeds, rbs: RoundBufferIndices, f: EncodedFeedId, current: nat)
    requires GoodBatch(batch, SequencerConfig(registered, batch)) && Safe(batch, SequencerConfig(registered, batch), rbs, f, current)
    requires Misplaced(batch, registered, f) || Unclaimed(batch, registered, f)
    requires RowRewritten(batch, SequencerConfig(registered, batch), f)
    ensures current == 0
  {
    NobodyClaims(batch, registered, f);
    if f in UpdatedFeeds(batch.updates) {
      MisplacedNotUpdated(batch, registered, f);
    }
  }

  lemma SafeClaimed(batch: Batch, registered: Feeds, rbs: RoundBufferIndices, f: EncodedFeedId, current: nat, g: EncodedFeedId)
    requires Safe(batch, SequencerConfig(registered, batch), rbs, f, current)
    requires || (g == f && f in NeighbourSet(batch.updates) && !Misplaced(batch, registered, f))
             || (Misplaced(batch, registered, g) && f == EncodedFeedId(0, g.id))
    ensures IndexOf(batch, rbs, g) == RightIndex(batch, rbs, f, current)
  {
    PutBySequencer(batch, registered, f);
  }

  lemma SafeIsChecked(batch: Batch, registered: Feeds, rbs: RoundBufferIndices, f: EncodedFeedId, current: nat)
    requires GoodBatch(batch, SequencerConfig(registered, batch)) && Safe(batch, SequencerConfig(registered, batch), rbs, f, current)
    ensures Checked(batch, registered, rbs, f, current)
  {
    var rewritten := RowRewritten(batch, SequencerConfig(registered, batch), f);
    PutBySequencer(batch, registered, f);
    if rewritten && (Misplaced(batch, registered, f) || Unclaimed(batch, registered, f)) {
      SafeUnclaimed(batch, registered, rbs, f, current);
    }
    if f in NeighbourSet(batch.updates) && !Misplaced(batch, registered, f) {
      SafeClaimed(batch, registered, rbs, f, current, f);
    }
    forall m | Misplaced(batch, registered, m) && f == EncodedFeedId(0, m.id)
      ensures IndexOf(batch, rbs, m) == RightIndex(batch, rbs, f, current)
    {
      SafeClaimed(batch, registered, rbs, f, current, m);
    }
  }

  /** The check decides safety. */
  lemma CheckedIff(batch: Batch, registered: Feeds, rbs: RoundBufferIndices, f: EncodedFeedId, current: nat)
    requires GoodBatch(batch, SequencerConfig(registered, batch))
    ensures Checked(batch, registered, rbs, f, current) <==> Safe(batch, SequencerConfig(registered, batch), rbs, f, current)
  {
    if Checked(batch, registered, rbs, f, current) {
      CheckedIsSafe(batch, registered, rbs, f, current);
    }
    if Safe(batch, SequencerConfig(registered, batch), rbs, f, current) {
      SafeIsChecked(batch, registered, rbs, f, current);
    }
  }

  //
  // A run with the sequencer's configuration
  //

  /** Every batch is posted with the configuration the sequencer builds from some registered feeds. */
  ghost predicate BySequencer(events: seq<Event>, registered: Feeds) {
    forall e :: e in events && e.Published? ==> e.cfg == SequencerConfig(registered, e.batch)
  }

  ghost predicate AlwaysChecked(events: seq<Event>, registered: Feeds, f: EncodedFeedId) {
    events == [] ||
    (var front, e := events[..|events| - 1], events[|events| - 1];
     && AlwaysChecked(front, registered, f)
     && (e.Published? ==> Checked(e.batch, registered, Counters(front), f, LatestSlot(Log(front, f), 0))))
  }

  lemma {:induction false} CheckedRun(events: seq<Event>, registered: Feeds, f: EncodedFeedId)
    requires GoodRun(events, f) && BySequencer(events, registered)
    ensures AlwaysChecked(events, registered, f) <==> AlwaysSafe(events, f)
  {
    if events == [] {
    } else {
      var front, e := events[..|events| - 1], events[|events| - 1];
      CheckedRun(front, registered, f);
      assert GoodEvent(e, f);
      if e.Published? {
        CheckedIff(e.batch, registered, Counters(front), f, LatestSlot(Log(front, f), 0));
      }
    }
  }

  /** Over every run of direct posts of the sequencer: the feed resolves to its newest value at every point,
      whatever the iteration orders, exactly if every post passes the check for it. */
  lemma SequencerRunIff(events: seq<Event>, registered: Feeds, f: EncodedFeedId)
    requires GoodRun(events, f) && BySequencer(events, registered) && OrdersFit(events) && Run(events).Some? && Addressable(f)
    ensures StoredForAllOrders(events, f) <==> AlwaysChecked(events, registered, f)
  {
    DirectRunIff(events, f);
    CheckedRun(events, registered, f);
  }

  //
  // How it goes wrong
  //

  /** A misplaced feed that alone is put on the row of stride 0 sets the index of the stride-0 feed with its id,
      whatever the contract stores and whatever the iteration order. */
  lemma StrayIndexWritten(st: Storage, batch: Batch, registered: Feeds, rbs: RoundBufferIndices, order: seq<EncodedFeedId>, m: EncodedFeedId)
    requires GoodBatch(batch, SequencerConfig(registered, batch)) && Enumerates(order, NeighbourSet(batch.updates))
    requires Misplaced(batch, registered, m) && EncodedFeedId(0, m.id) !in NeighbourSet(batch.updates)
    requires forall g :: Misplaced(batch, registered, g) && g.id == m.id ==> g == m
    requires Post(st, batch, SequencerConfig(registered, batch), rbs, order).Some?
    ensures GetLatestIndex(Post(st, batch, SequencerConfig(registered, batch), rbs, order).value, EncodedFeedId(0, m.id)) ==
            Some(IndexOf(batch, rbs, m))
  {
    var cfg, z := SequencerConfig(registered, batch), EncodedFeedId(0, m.id);
    MisplacedIsDisplaced(batch, registered, m);
    ListedFeedsAddressable(batch, cfg, m);
    IndexAfterPost(st, batch, cfg, rbs, order, z);
    PutBySequencer(batch, registered, z);
    ClaimRewrites(batch, cfg, m, z);
    LastClaimFound(order, batch, cfg, z);
  }

  /** The smallest such batch: one update of feed 1 at stride 1 while feed 2 of stride 1 is not registered. Feed 2
      of stride 0, which the batch never mentions, resolves to slot 0 afterwards. */
  lemma LonePostResetsFeed(st: Storage, value: FeedTypes.FeedType, timestamp: nat, height: nat, registered: Feeds,
                           rbs: RoundBufferIndices, order: seq<EncodedFeedId>)
    requires var batch := LoneBatch(value, timestamp, height);
             && GoodBatch(batch, SequencerConfig(registered, batch)) && Enumerates(order, NeighbourSet(batch.updates))
             && Post(st, batch, SequencerConfig(registered, batch), rbs, order).Some?
    requires EncodedFeedId(1, 2) !in registered && RbFor(rbs, EncodedFeedId(1, 2)) == 0
    ensures var batch := LoneBatch(value, timestamp, height);
            GetLatestIndex(Post(st, batch, SequencerConfig(registered, batch), rbs, order).value, EncodedFeedId(0, 2)) == Some(0)
  {
    var batch := LoneBatch(value, timestamp, height);
    forall f ensures f in NeighbourSet(batch.updates) <==> f.stride == 1 && f.id / 16 == 0 {
      LoneNeighbours(batch, f);
    }
    StrayIndexWritten(st, batch, registered, rbs, order, EncodedFeedId(1, 2));
  }
}
