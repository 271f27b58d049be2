/** The rows a batch is posted with: on which slots of the index table they put which index. */
module AdfsPosts {
  import opened Sets
  import opened Wrappers
  import opened AdfsLayout
  import opened AdfsRows
  import opened AdfsCalldata
  import opened AdfsAgreement
  import opened AdfsContract
  import opened AdfsStore

  /** A listed feed whose index goes to a row of stride 0 and not to its own. */
  predicate Displaced(batch: Batch, cfg: Config, f: EncodedFeedId) {
    f in NeighbourSet(batch.updates) && RowStride(cfg, f) != f.stride
  }

  /** The row of the feed is written again: it is listed itself, or a displaced feed of another stride goes there. */
  ghost predicate RowRewritten(batch: Batch, cfg: Config, f: EncodedFeedId) {
    || f in NeighbourSet(batch.updates)
    || exists m :: Displaced(batch, cfg, m) && f in NeighbourFeedIds(EncodedFeedId(0, m.id))
  }

  /** The index of feed `g` is put on the slot of feed `f`. */
  predicate Claims(batch: Batch, cfg: Config, g: EncodedFeedId, f: EncodedFeedId) {
    g in NeighbourSet(batch.updates) && if Displaced(batch, cfg, g) then f == EncodedFeedId(0, g.id) else f == g
  }

  /** What is put there. */
  function IndexOf(batch: Batch, rbs: RoundBufferIndices, g: EncodedFeedId): nat {
    LaneValue(RbFor(rbs, g), g in UpdatedFeeds(batch.updates))
  }

  /** The last of them in the order the hash map is iterated in. */
  function LastClaim(order: seq<EncodedFeedId>, batch: Batch, cfg: Config, f: EncodedFeedId): Option<EncodedFeedId> {
    if order == [] then None
    else
      var g := order[|order| - 1];
      if Claims(batch, cfg, g, f) then Some(g) else LastClaim(order[..|order| - 1], batch, cfg, f)
  }

  lemma {:induction false} LastClaimFound(order: seq<EncodedFeedId>, batch: Batch, cfg: Config, f: EncodedFeedId)
    ensures LastClaim(order, batch, cfg, f).Some? ==> Claims(batch, cfg, LastClaim(order, batch, cfg, f).value, f)
    ensures LastClaim(order, batch, cfg, f).None? ==> forall g :: g in order ==> !Claims(batch, cfg, g, f)
  {
    if order == [] {
    } else {
      LastClaimFound(order[..|order| - 1], batch, cfg, f);
      assert forall g :: g in order <==> g in order[..|order| - 1] || g == order[|order| - 1];
    }
  }

  /** The index the slot of feed `f` ends up with if its row is written. */
  function IndexPut(batch: Batch, cfg: Config, rbs: RoundBufferIndices, order: seq<EncodedFeedId>, f: EncodedFeedId): nat {
    match LastClaim(order, batch, cfg, f)
    case None => 0
    case Some(g) => IndexOf(batch, rbs, g)
  }

  lemma UpdatedNotDisplaced(batch: Batch, cfg: Config, u: VotedFeedUpdate)
    requires GoodBatch(batch, cfg) && u in batch.updates
    ensures u.feed in NeighbourSet(batch.updates) && !Displaced(batch, cfg, u.feed) && Addressable(u.feed)
  {
    UpdatedFeedIsListed(batch, u);
    assert GoodUpdate(u, cfg);
  }

  lemma NeighboursListed(batch: Batch, g: EncodedFeedId, f: EncodedFeedId)
    requires g in NeighbourSet(batch.updates) && f in NeighbourFeedIds(g)
    ensures f in NeighbourSet(batch.updates)
  {
    NeighbourIff(g, f);
    var u :| u in batch.updates && g in NeighbourFeedIds(u.feed);
    NeighbourIff(u.feed, g);
    NeighbourIff(u.feed, f);
  }

  /** Where feed `g` is placed, seen from feed `f`. */
  lemma PlacedIff(batch: Batch, cfg: Config, rbs: RoundBufferIndices, g: EncodedFeedId, f: EncodedFeedId)
    requires GoodBatch(batch, cfg) && Addressable(f) && g in NeighbourSet(batch.updates)
    ensures var info := CollectedInfo(batch, cfg, rbs);
            var row := CalcRowIndex(f.id, f.stride);
            && g in info
            && (RowOf(g, info) == row <==> f in NeighbourFeedIds(EncodedFeedId(RowStride(cfg, g), g.id)))
            && (LandsAt(g, info, row, SlotPosition(f.id)) <==> Claims(batch, cfg, g, f))
            && LaneOf(g, info, UpdatedFeeds(batch.updates)) == IndexOf(batch, rbs, g)
  {
    ListedFeedsAddressable(batch, cfg, g);
    SameRowMeans(g, RowStride(cfg, g), f, f.stride);
    NeighbourIff(EncodedFeedId(RowStride(cfg, g), g.id), f);
  }

  lemma {:induction false} LastClaimIsLast(order: seq<EncodedFeedId>, batch: Batch, cfg: Config, rbs: RoundBufferIndices, f: EncodedFeedId)
    requires GoodBatch(batch, cfg) && Addressable(f) && forall g :: g in order ==> g in NeighbourSet(batch.updates)
    ensures forall g :: g in order ==> g in CollectedInfo(batch, cfg, rbs)
    ensures LastClaim(order, batch, cfg, f) ==
            LastAt(order, CollectedInfo(batch, cfg, rbs), CalcRowIndex(f.id, f.stride), SlotPosition(f.id))
  {
    if order == [] {
    } else {
      LastClaimIsLast(order[..|order| - 1], batch, cfg, rbs, f);
      PlacedIff(batch, cfg, rbs, order[|order| - 1], f);
    }
  }

  lemma RowRewrittenIff(batch: Batch, cfg: Config, rbs: RoundBufferIndices, f: EncodedFeedId)
    requires GoodBatch(batch, cfg) && Addressable(f)
    ensures HasRow(CollectedInfo(batch, cfg, rbs), CalcRowIndex(f.id, f.stride)) <==> RowRewritten(batch, cfg, f)
  {
    var info, row := CollectedInfo(batch, cfg, rbs), CalcRowIndex(f.id, f.stride);
    if HasRow(info, row) {
      var g :| g in info && RowOf(g, info) == row;
      PlacedIff(batch, cfg, rbs, g, f);
      ListedFeedsAddressable(batch, cfg, g);
      if !Displaced(batch, cfg, g) {
        NeighboursListed(batch, g, f);
      }
    }
    if f in NeighbourSet(batch.updates) {
      var u :| u in batch.updates && f in NeighbourFeedIds(u.feed);
      UpdatedNotDisplaced(batch, cfg, u);
      PlacedIff(batch, cfg, rbs, u.feed, f);
    } else if RowRewritten(batch, cfg, f) {
      var m :| Displaced(batch, cfg, m) && f in NeighbourFeedIds(EncodedFeedId(0, m.id));
      ListedFeedsAddressable(batch, cfg, m);
      PlacedIff(batch, cfg, rbs, m, f);
    }
  }

  /** What the rows have on the slot of a feed. */
  lemma RowsPut(batch: Batch, cfg: Config, rbs: RoundBufferIndices, order: seq<EncodedFeedId>, f: EncodedFeedId)
    requires GoodBatch(batch, cfg) && Addressable(f) && Enumerates(order, CollectedInfo(batch, cfg, rbs).Keys)
    ensures var rows, row := Rows(batch, cfg, rbs, order), CalcRowIndex(f.id, f.stride);
            && (row in rows <==> RowRewritten(batch, cfg, f))
            && (row in rows ==> |rows[row]| == NUM_FEED_IDS_IN_RB_INDEX_RECORD &&
                                rows[row][SlotPosition(f.id)] == IndexPut(batch, cfg, rbs, order, f))
  {
    var info, updated, row := CollectedInfo(batch, cfg, rbs), UpdatedFeeds(batch.updates), CalcRowIndex(f.id, f.stride);
    RowPlacedIff(order, info, updated, row);
    RowRewrittenIff(batch, cfg, rbs, f);
    LastClaimIsLast(order, batch, cfg, rbs, f);
    PlaceAllSlots(order, info, updated, row, SlotPosition(f.id));
    var last := LastClaim(order, batch, cfg, f);
    if last.Some? {
      PlacedIff(batch, cfg, rbs, last.value, f);
    }
  }

  /** The contract is sent the batch with the rows of one iteration order. */
  ghost function Post(st: Storage, batch: Batch, cfg: Config, rbs: RoundBufferIndices, order: seq<EncodedFeedId>): Option<Storage>
    requires Enumerates(order, NeighbourSet(batch.updates))
  {
    Send(st, batch, cfg, rbs, Rows(batch, cfg, rbs, order))
  }

  /** These are the bytes the sequencer produces. */
  lemma PostIsSequencerBytes(st: Storage, batch: Batch, cfg: Config, rbs: RoundBufferIndices, order: seq<EncodedFeedId>)
    requires Enumerates(order, NeighbourSet(batch.updates))
    ensures Enumerates(order, CollectedInfo(batch, cfg, rbs).Keys)
    ensures Post(st, batch, cfg, rbs, order) == SetFeeds(st, SequencerBytes(batch, cfg, rbs, order))
  {
  }

  /** The index every addressable feed resolves to after a batch was posted. */
  lemma IndexAfterPost(st: Storage, batch: Batch, cfg: Config, rbs: RoundBufferIndices, order: seq<EncodedFeedId>, f: EncodedFeedId)
    requires GoodBatch(batch, cfg) && Enumerates(order, NeighbourSet(batch.updates)) && Addressable(f)
    requires Post(st, batch, cfg, rbs, order).Some?
    ensures GetLatestIndex(Post(st, batch, cfg, rbs, order).value, f) ==
            if RowRewritten(batch, cfg, f) then Some(IndexPut(batch, cfg, rbs, order, f)) else GetLatestIndex(st, f)
  {
    RowsFit(batch, cfg, rbs, order);
    RowsPut(batch, cfg, rbs, order, f);
    IndexAfterBatch(st, batch, cfg, rbs, Rows(batch, cfg, rbs, order), f);
  }

  /** A configuration that places every feed by its own stride puts every listed feed's own index on its slot. */
  lemma ConsistentPut(batch: Batch, cfg: Config, rbs: RoundBufferIndices, order: seq<EncodedFeedId>, f: EncodedFeedId)
    requires ConsistentConfig(batch, cfg) && Enumerates(order, NeighbourSet(batch.updates))
    ensures RowRewritten(batch, cfg, f) <==> f in NeighbourSet(batch.updates)
    ensures f in NeighbourSet(batch.updates) ==> IndexPut(batch, cfg, rbs, order, f) == IndexOf(batch, rbs, f)
  {
    LastClaimFound(order, batch, cfg, f);
    assert f in NeighbourSet(batch.updates) ==> Claims(batch, cfg, f, f);
  }

  /** Then every iteration order gives the same calldata. */
  lemma ConsistentPost(st: Storage, batch: Batch, cfg: Config, rbs: RoundBufferIndices, order: seq<EncodedFeedId>)
    requires ConsistentConfig(batch, cfg) && Enumerates(order, NeighbourSet(batch.updates))
    ensures Post(st, batch, cfg, rbs, order) == SetFeeds(st, CalldataOf(batch, cfg, rbs))
  {
    PostIsSequencerBytes(st, batch, cfg, rbs, order);
    SequencerProducesCalldata(batch, cfg, rbs, order);
  }

  //
  // Which posts leave a feed's index right
  //

  /** The index the feed should resolve to after the post, if it resolves to `current` before. */
  function RightIndex(batch: Batch, rbs: RoundBufferIndices, f: EncodedFeedId, current: nat): nat {
    if f in UpdatedFeeds(batch.updates) then RingIndex(RbFor(rbs, f)) else current
  }

  /** For one iteration order. */
  ghost predicate Undisturbed(batch: Batch, cfg: Config, rbs: RoundBufferIndices, order: seq<EncodedFeedId>,
                              f: EncodedFeedId, current: nat) {
    RowRewritten(batch, cfg, f) ==> IndexPut(batch, cfg, rbs, order, f) == RightIndex(batch, rbs, f, current)
  }

  /** Whatever the iteration order: every feed whose index is put on the slot brings the right one, and if there
      is none, as on the row of a displaced feed itself, the right one is 0. */
  ghost predicate Safe(batch: Batch, cfg: Config, rbs: RoundBufferIndices, f: EncodedFeedId, current: nat) {
    && (forall g :: Claims(batch, cfg, g, f) ==> IndexOf(batch, rbs, g) == RightIndex(batch, rbs, f, current))
    && (RowRewritten(batch, cfg, f) && (forall g :: !Claims(batch, cfg, g, f)) ==> RightIndex(batch, rbs, f, current) == 0)
  }

  lemma ClaimRewrites(batch: Batch, cfg: Config, g: EncodedFeedId, f: EncodedFeedId)
    requires GoodBatch(batch, cfg) && Claims(batch, cfg, g, f)
    ensures RowRewritten(batch, cfg, f)
  {
    NeighbourIff(EncodedFeedId(0, g.id), f);
  }

  lemma SafeIsUndisturbed(batch: Batch, cfg: Config, rbs: RoundBufferIndices, order: seq<EncodedFeedId>, f: EncodedFeedId, current: nat)
    requires Enumerates(order, NeighbourSet(batch.updates)) && Safe(batch, cfg, rbs, f, current)
    ensures Undisturbed(batch, cfg, rbs, order, f, current)
  {
    LastClaimFound(order, batch, cfg, f);
    assert forall g :: Claims(batch, cfg, g, f) ==> g in order;
  }

  /** An order in which a post that is not safe puts a wrong index. */
  lemma DisturbingOrder(batch: Batch, cfg: Config, rbs: RoundBufferIndices, f: EncodedFeedId, current: nat)
    returns (order: seq<EncodedFeedId>)
    requires GoodBatch(batch, cfg) && !Safe(batch, cfg, rbs, f, current)
    ensures Enumerates(order, NeighbourSet(batch.updates)) && !Undisturbed(batch, cfg, rbs, order, f, current)
  {
    if g :| Claims(batch, cfg, g, f) && IndexOf(batch, rbs, g) != RightIndex(batch, rbs, f, current) {
      order := OrderEndingWith(CollectedInfo(batch, cfg, rbs), g);
      ClaimRewrites(batch, cfg, g, f);
    } else {
      order := SomeOrder(NeighbourSet(batch.updates));
      LastClaimFound(order, batch, cfg, f);
    }
  }

  /** A post leaves the feed's index right for every iteration order exactly when it is safe. */
  lemma SafeIff(batch: Batch, cfg: Config, rbs: RoundBufferIndices, f: EncodedFeedId, current: nat)
    requires GoodBatch(batch, cfg)
    ensures Safe(batch, cfg, rbs, f, current) <==>
            forall order :: Enumerates(order, NeighbourSet(batch.updates)) ==> Undisturbed(batch, cfg, rbs, order, f, current)
  {
    if Safe(batch, cfg, rbs, f, current) {
      forall order | Enumerates(order, NeighbourSet(batch.updates)) ensures Undisturbed(batch, cfg, rbs, order, f, current) {
        SafeIsUndisturbed(batch, cfg, rbs, order, f, current);
      }
    } else {
      var order := DisturbingOrder(batch, cfg, rbs, f, current);
    }
  }
}
