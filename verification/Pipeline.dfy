/** From aggregated updates to contract storage: the batches of a timely production run, published
    in order, are all accepted and can be read back. */
module Pipeline {
  import opened Sets
  import opened Bytes
  import opened AdfsLayout
  import opened AdfsCalldata
  import opened AdfsDecoder
  import opened AdfsAgreement
  import opened AdfsConfigs
  import opened AdfsStore
  import opened AdfsFeeds
  import BlockCreator
  import BlockCreatorRuns
  import BlockProduction
  import AdfsRuns
  import AdfsDirect

  type EmittedBlock = BlockCreator.EmittedBlock

  /** A batch goes straight to the contract, with the sequencer's configuration, or through a Safe, with what
      the reporters sign. */
  datatype Route = Direct | Signed

  ghost function ConfigOn(route: Route, registered: Feeds, batch: Batch): Config {
    match route
    case Direct => SequencerConfig(registered, batch)
    case Signed => ReporterConfig(registered)
  }

  /** Only blocks with updates are sent on to the contract. */
  ghost function SentFor(block: EmittedBlock, height: nat, route: Route, registered: Feeds, order: seq<EncodedFeedId>): seq<AdfsRuns.Event> {
    var batch := Batch(height, block.updates);
    if block.updates == [] then [] else [AdfsRuns.Published(batch, ConfigOn(route, registered, batch), order)]
  }

  ghost function Sent(blocks: seq<EmittedBlock>, heights: seq<nat>, route: Route, registered: Feeds,
                      orders: seq<seq<EncodedFeedId>>): (events: seq<AdfsRuns.Event>)
    requires |blocks| == |heights| == |orders|
    ensures forall e :: e in events ==> e.Published?
  {
    if blocks == [] then []
    else
      Sent(blocks[..|blocks| - 1], heights[..|heights| - 1], route, registered, orders[..|orders| - 1])
      + SentFor(blocks[|blocks| - 1], heights[|heights| - 1], route, registered, orders[|orders| - 1])
  }

  /** What is asked of an update: its feed is addressable and registered if its stride is above 0, and its value
      encodes to at least one byte and fits the stride. */
  ghost predicate GoodArrival(u: VotedFeedUpdate, registered: Feeds) {
    GoodUpdate(u, ReporterConfig(registered)) && EncodedValue(u, ReporterConfig(registered)) != []
  }

  ghost predicate AllGood(blocks: seq<EmittedBlock>, registered: Feeds) {
    forall i, u :: 0 <= i < |blocks| && u in blocks[i].updates ==> GoodArrival(u, registered)
  }

  ghost predicate ByteStrides(registered: Feeds) {
    forall f :: f in registered ==> f.stride < 256
  }

  lemma AscendingIsDistinct(batch: Batch)
    requires BlockCreator.Ascending(batch.updates)
    ensures Distinct(FeedsOf(batch))
  {
    forall i, j | 0 <= i < j < |FeedsOf(batch)| ensures FeedsOf(batch)[i] != FeedsOf(batch)[j] {
      assert BlockCreator.Key(batch.updates[i]) < BlockCreator.Key(batch.updates[j]);
    }
  }

  /** On both routes an update is written with the settings of its registered feed. */
  lemma SameSettings(route: Route, registered: Feeds, batch: Batch, u: VotedFeedUpdate)
    requires u in batch.updates
    ensures ValueConfig(ConfigOn(route, registered, batch), u.feed) == ValueConfig(ReporterConfig(registered), u.feed)
  {
    UpdatedFeedIsListed(batch, u);
  }

  lemma ConfigFits(route: Route, registered: Feeds, batch: Batch)
    requires ByteStrides(registered) && forall u :: u in batch.updates ==> GoodArrival(u, registered)
    ensures var cfg := ConfigOn(route, registered, batch);
            OwnStrideOrZero(cfg) && forall f :: f in cfg ==> cfg[f].stride < 256
  {
    forall f | f in NeighbourSet(batch.updates) ensures f.stride < 256 {
      var u :| u in batch.updates && f in NeighbourFeedIds(u.feed);
      NeighbourIff(u.feed, f);
      assert GoodArrival(u, registered);
    }
  }

  lemma ArrivalIsGood(route: Route, registered: Feeds, batch: Batch, u: VotedFeedUpdate)
    requires u in batch.updates && GoodArrival(u, registered)
    ensures var cfg := ConfigOn(route, registered, batch);
            GoodUpdate(u, cfg) && EncodedValue(u, cfg) != [] && ValueLength(u, cfg) < TWO_64
  {
    SameSettings(route, registered, batch, u);
    StrideSizeIsWindow(u.feed.stride);
  }

  /** What the block creator emits is a batch the serializer and the contract can handle, on either route. */
  lemma EmittedBatchIsGood(max: nat, block: EmittedBlock, height: nat, route: Route, registered: Feeds)
    requires max <= BlockCreator.MAX_ASSET_FEED_UPDATES_IN_BLOCK && BlockCreatorRuns.FitsBlock(max, block)
    requires (forall u :: u in block.updates ==> GoodArrival(u, registered)) && ByteStrides(registered) && height < TWO_64
    ensures var batch := Batch(height, block.updates);
            && GoodBatch(batch, ConfigOn(route, registered, batch))
            && (forall u :: u in batch.updates ==> EncodedValue(u, ConfigOn(route, registered, batch)) != [])
            && (route.Signed? ==> ConsistentConfig(batch, ConfigOn(route, registered, batch)))
  {
    var batch := Batch(height, block.updates);
    var cfg := ConfigOn(route, registered, batch);
    AscendingIsDistinct(batch);
    ConfigFits(route, registered, batch);
    forall u | u in batch.updates
      ensures GoodUpdate(u, cfg) && EncodedValue(u, cfg) != [] && ValueLength(u, cfg) < TWO_64
    {
      ArrivalIsGood(route, registered, batch, u);
    }
  }

  ghost predicate Scheduled(max: nat, blocks: seq<EmittedBlock>, heights: seq<nat>) {
    && |blocks| == |heights|
    && BlockProduction.Increasing(heights)
    && (forall i :: 0 <= i < |heights| ==> 0 < heights[i] < TWO_64)
    && BlockCreatorRuns.AllFit(max, blocks)
  }

  ghost predicate OrdersOf(blocks: seq<EmittedBlock>, orders: seq<seq<EncodedFeedId>>) {
    |orders| == |blocks| && forall i :: 0 <= i < |blocks| ==> Enumerates(orders[i], NeighbourSet(blocks[i].updates))
  }

  /** What the runs of the store ask of the events. */
  ghost predicate GoodSending(events: seq<AdfsRuns.Event>, route: Route) {
    && AdfsRuns.OrdersFit(events) && AdfsRuns.GoodBatches(events) && AdfsRuns.ValuesNotEmpty(events) && AdfsRuns.NoRestart(events)
    && (route.Signed? ==> AdfsRuns.OwnStrides(events))
  }

  lemma {:induction false} SentIsGood(max: nat, blocks: seq<EmittedBlock>, heights: seq<nat>, route: Route, registered: Feeds,
                                      orders: seq<seq<EncodedFeedId>>)
    requires max <= BlockCreator.MAX_ASSET_FEED_UPDATES_IN_BLOCK && Scheduled(max, blocks, heights) && OrdersOf(blocks, orders)
    requires AllGood(blocks, registered) && ByteStrides(registered)
    ensures GoodSending(Sent(blocks, heights, route, registered, orders), route)
  {
    if blocks == [] {
    } else {
      var last := |blocks| - 1;
      SentIsGood(max, blocks[..last], heights[..last], route, registered, orders[..last]);
      assert BlockCreatorRuns.FitsBlock(max, blocks[last]) && Enumerates(orders[last], NeighbourSet(blocks[last].updates));
      assert forall u :: u in blocks[last].updates ==> GoodArrival(u, registered);
      EmittedBatchIsGood(max, blocks[last], heights[last], route, registered);
    }
  }

  lemma {:induction false} SentIncreases(blocks: seq<EmittedBlock>, heights: seq<nat>, route: Route, registered: Feeds,
                                         orders: seq<seq<EncodedFeedId>>)
    requires |blocks| == |heights| == |orders| && BlockProduction.Increasing(heights)
    requires forall i :: 0 <= i < |heights| ==> 0 < heights[i]
    ensures AdfsRuns.HeightsIncrease(Sent(blocks, heights, route, registered, orders))
    ensures AdfsRuns.LatestHeight(Sent(blocks, heights, route, registered, orders)) <= BlockProduction.LastOf(heights)
  {
    if blocks == [] {
    } else {
      var last := |blocks| - 1;
      var front := Sent(blocks[..last], heights[..last], route, registered, orders[..last]);
      SentIncreases(blocks[..last], heights[..last], route, registered, orders[..last]);
      if blocks[last].updates == [] {
        assert front + [] == front;
      } else {
        assert (front + SentFor(blocks[last], heights[last], route, registered, orders[last]))[..|front|] == front;
      }
    }
  }

  /** What the store promises of a production run, feed by feed. */
  ghost predicate StoredBy(events: seq<AdfsRuns.Event>, route: Route, f: EncodedFeedId)
    requires AdfsRuns.OrdersFit(events) && AdfsRuns.Run(events).Some?
  {
    var w, log := AdfsRuns.Run(events).value, AdfsRuns.Log(events, f);
    && RbFor(w.rbs, f) == |log| && HoldsLog(w.storage, f, log, 0)
    && (AdfsRuns.AlwaysStored(events, f) <==> AdfsRuns.AlwaysPutsRight(events, f))
    && (route.Signed? ==> AdfsRuns.FeedInv(w, f, log) && AdfsRuns.AlwaysStored(events, f))
  }

  lemma StoredWhenScheduled(max: nat, blocks: seq<EmittedBlock>, heights: seq<nat>, route: Route, registered: Feeds,
                            orders: seq<seq<EncodedFeedId>>, f: EncodedFeedId)
    requires max <= BlockCreator.MAX_ASSET_FEED_UPDATES_IN_BLOCK && Scheduled(max, blocks, heights) && OrdersOf(blocks, orders)
    requires AllGood(blocks, registered) && ByteStrides(registered) && Addressable(f)
    ensures var events := Sent(blocks, heights, route, registered, orders);
            AdfsRuns.OrdersFit(events) && AdfsRuns.Run(events).Some? && StoredBy(events, route, f)
  {
    var events := Sent(blocks, heights, route, registered, orders);
    SentIsGood(max, blocks, heights, route, registered, orders);
    SentIncreases(blocks, heights, route, registered, orders);
    AdfsRuns.RunAcceptedIff(events);
    AdfsRuns.RunKeepsValues(events, f);
    AdfsRuns.StoredIff(events, f);
    if route.Signed? {
      AdfsRuns.RunKeepsFeeds(events, f);
    }
  }

  //
  // What is published, in terms of what arrived
  //

  function EventsOf(turns: seq<BlockProduction.Turn>): seq<BlockCreatorRuns.Event> {
    if turns == [] then [] else EventsOf(turns[..|turns| - 1]) + [turns[|turns| - 1].event]
  }

  /** The batching of a production run is a run of the block creator, whatever the clock does. */
  lemma {:induction false} ProductionBatches(p: BlockProduction.Setup, begin: nat, turns: seq<BlockProduction.Turn>)
    requires BlockProduction.Timely(p.tracker, begin, turns)
    ensures BlockProduction.Run(p, begin, turns).books == BlockCreatorRuns.Run(p.max, EventsOf(turns))
  {
    if turns == [] {
    } else {
      ProductionBatches(p, begin, turns[..|turns| - 1]);
      var events := EventsOf(turns);
      assert events[..|events| - 1] == EventsOf(turns[..|turns| - 1]);
    }
  }

  /** Every update that arrives and encodes is good. */
  ghost predicate GoodArrivals(events: seq<BlockCreatorRuns.Event>, registered: Feeds) {
    forall e :: e in events && e.Update? && e.encodes ==> GoodArrival(e.update, registered)
  }

  lemma {:induction false} AcceptedArrived(max: nat, events: seq<BlockCreatorRuns.Event>, registered: Feeds)
    requires GoodArrivals(events, registered)
    ensures forall u :: u in BlockCreatorRuns.Run(max, events).accepted ==> GoodArrival(u, registered)
  {
    if events == [] {
    } else {
      AcceptedArrived(max, events[..|events| - 1], registered);
    }
  }

  lemma {:induction false} CountPositiveIff(s: seq<VotedFeedUpdate>, u: VotedFeedUpdate)
    ensures BlockCreatorRuns.Count(s, u) > 0 <==> u in s
  {
    if s == [] {
    } else {
      CountPositiveIff(s[..|s| - 1], u);
      assert s == s[..|s| - 1] + [s[|s| - 1]];
    }
  }

  lemma {:induction false} InEmitted(blocks: seq<EmittedBlock>, i: nat, u: VotedFeedUpdate)
    requires i < |blocks| && u in blocks[i].updates
    ensures u in BlockCreatorRuns.EmittedUpdates(blocks)
  {
    if i == |blocks| - 1 {
    } else {
      InEmitted(blocks[..|blocks| - 1], i, u);
    }
  }

  /** What is emitted was accepted, because every accepted update is accounted for. */
  lemma EmittedIsGood(max: nat, events: seq<BlockCreatorRuns.Event>, registered: Feeds)
    requires GoodArrivals(events, registered)
    ensures AllGood(BlockCreatorRuns.Run(max, events).blocks, registered)
  {
    var b := BlockCreatorRuns.Run(max, events);
    AcceptedArrived(max, events, registered);
    forall i, u | 0 <= i < |b.blocks| && u in b.blocks[i].updates ensures GoodArrival(u, registered) {
      InEmitted(b.blocks, i, u);
      BlockCreatorRuns.RunIsBalanced(max, events, u);
      CountPositiveIff(BlockCreatorRuns.EmittedUpdates(b.blocks), u);
      CountPositiveIff(b.accepted, u);
    }
  }

  lemma ProducedIsScheduled(p: BlockProduction.Setup, begin: nat, turns: seq<BlockProduction.Turn>, registered: Feeds)
    requires BlockProduction.Timely(p.tracker, begin, turns) && GoodArrivals(EventsOf(turns), registered)
    ensures var s := BlockProduction.Run(p, begin, turns);
            Scheduled(p.max, s.books.blocks, s.heights) && AllGood(s.books.blocks, registered)
  {
    BlockProduction.RunOnSchedule(p, begin, turns);
    ProductionBatches(p, begin, turns);
    BlockCreatorRuns.RunKeepsInv(p.max, EventsOf(turns));
    EmittedIsGood(p.max, EventsOf(turns), registered);
  }

  /** The batches of a timely run, published in order, are all accepted by the contract. Afterwards every feed's
      counter and last 8192 values are those published. Through a Safe every feed also resolves to its newest value
      at every point; posted directly it does exactly if no batch puts a wrong index on its slot. */
  lemma ProducedRunIsStored(p: BlockProduction.Setup, begin: nat, turns: seq<BlockProduction.Turn>, route: Route, registered: Feeds,
                            orders: seq<seq<EncodedFeedId>>, f: EncodedFeedId)
    requires BlockProduction.Timely(p.tracker, begin, turns)
    requires p.max <= BlockCreator.MAX_ASSET_FEED_UPDATES_IN_BLOCK && ByteStrides(registered) && Addressable(f)
    requires GoodArrivals(EventsOf(turns), registered)
    requires OrdersOf(BlockProduction.Run(p, begin, turns).books.blocks, orders)
    ensures var s := BlockProduction.Run(p, begin, turns);
            && |s.books.blocks| == |s.heights|
            && var events := Sent(s.books.blocks, s.heights, route, registered, orders);
            AdfsRuns.OrdersFit(events) && AdfsRuns.Run(events).Some? && StoredBy(events, route, f)
  {
    var s := BlockProduction.Run(p, begin, turns);
    ProducedIsScheduled(p, begin, turns, registered);
    StoredWhenScheduled(p.max, s.books.blocks, s.heights, route, registered, orders, f);
  }

  lemma {:induction false} SentBySequencer(blocks: seq<EmittedBlock>, heights: seq<nat>, registered: Feeds, orders: seq<seq<EncodedFeedId>>)
    requires |blocks| == |heights| == |orders|
    ensures AdfsDirect.BySequencer(Sent(blocks, heights, Direct, registered, orders), registered)
  {
    if blocks == [] {
    } else {
      var last := |blocks| - 1;
      SentBySequencer(blocks[..last], heights[..last], registered, orders[..last]);
    }
  }

  lemma DirectWhenScheduled(max: nat, blocks: seq<EmittedBlock>, heights: seq<nat>, registered: Feeds,
                            orders: seq<seq<EncodedFeedId>>, f: EncodedFeedId)
    requires max <= BlockCreator.MAX_ASSET_FEED_UPDATES_IN_BLOCK && Scheduled(max, blocks, heights) && OrdersOf(blocks, orders)
    requires AllGood(blocks, registered) && ByteStrides(registered) && Addressable(f)
    ensures var events := Sent(blocks, heights, Direct, registered, orders);
            && AdfsDirect.GoodRun(events, f) && AdfsRuns.OrdersFit(events)
            && (AdfsDirect.StoredForAllOrders(events, f) <==> AdfsDirect.AlwaysChecked(events, registered, f))
  {
    var events := Sent(blocks, heights, Direct, registered, orders);
    SentIsGood(max, blocks, heights, Direct, registered, orders);
    StoredWhenScheduled(max, blocks, heights, Direct, registered, orders, f);
    SentBySequencer(blocks, heights, registered, orders);
    AdfsDirect.SequencerRunIff(events, registered, f);
  }

  /** A timely run posted directly: a feed resolves to its newest value at every point, whatever the iteration
      orders, exactly if every batch passes the sequencer's check for it. */
  lemma ProducedDirectlyIff(p: BlockProduction.Setup, begin: nat, turns: seq<BlockProduction.Turn>, registered: Feeds,
                            orders: seq<seq<EncodedFeedId>>, f: EncodedFeedId)
    requires BlockProduction.Timely(p.tracker, begin, turns)
    requires p.max <= BlockCreator.MAX_ASSET_FEED_UPDATES_IN_BLOCK && ByteStrides(registered) && Addressable(f)
    requires GoodArrivals(EventsOf(turns), registered)
    requires OrdersOf(BlockProduction.Run(p, begin, turns).books.blocks, orders)
    ensures var s := BlockProduction.Run(p, begin, turns);
            && |s.books.blocks| == |s.heights|
            && var events := Sent(s.books.blocks, s.heights, Direct, registered, orders);
            && AdfsDirect.GoodRun(events, f) && AdfsRuns.OrdersFit(events)
            && (AdfsDirect.StoredForAllOrders(events, f) <==> AdfsDirect.AlwaysChecked(events, registered, f))
  {
    var s := BlockProduction.Run(p, begin, turns);
    ProducedIsScheduled(p, begin, turns, registered);
    DirectWhenScheduled(p.max, s.books.blocks, s.heights, registered, orders, f);
  }
}
