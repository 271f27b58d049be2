/** The configurations sequencer and reporter really serialize with, and when they lead to the same bytes. */
module AdfsConfigs {
  import opened Sets
  import opened AdfsLayout
  import opened AdfsRows
  import opened AdfsCalldata
  import opened AdfsDecoder
  import opened AdfsAgreement

  /** Decimals of the feeds a side knows; the stride of a feed is that of its key. */
  type Feeds = map<EncodedFeedId, nat>

  /** The sequencer looks up every neighbour of every update; one that is not registered gets stride 0. */
  ghost function SequencerConfig(registered: Feeds, batch: Batch): Config {
    map f | f in NeighbourSet(batch.updates) ::
      if f in registered then StrideAndDecimals(f.stride, registered[f]) else StrideAndDecimals(0, 18)
  }

  /** The reporter knows the feeds of its own oracle settings and nothing else. */
  ghost function ReporterConfig(own: Feeds): Config {
    map f | f in own :: StrideAndDecimals(f.stride, own[f])
  }

  /** A feed whose row is rewritten and whose index the sequencer puts in a row of stride 0, not its own. */
  predicate Misplaced(batch: Batch, registered: Feeds, f: EncodedFeedId) {
    f in NeighbourSet(batch.updates) && f !in registered && f.stride > 0
  }

  function Lane(batch: Batch, rc: RoundBufferIndices, f: EncodedFeedId): nat {
    LaneValue(RbFor(rc, f), f in UpdatedFeeds(batch.updates))
  }

  /** The misplaced index is 0 and falls on a slot that is rewritten with 0 anyway, and the feed's own row is
      rewritten because of a registered neighbour. */
  ghost predicate Harmless(batch: Batch, registered: Feeds, rc: RoundBufferIndices, f: EncodedFeedId) {
    var z := EncodedFeedId(0, f.id);
    && Lane(batch, rc, f) == 0
    && z in NeighbourSet(batch.updates) && Lane(batch, rc, z) == 0
    && exists k :: k in NeighbourSet(batch.updates) && k in NeighbourFeedIds(f) && k in registered
  }

  /** Feed ids fit below 2^115, strides are one byte, and counts, heights and values fit their types. */
  ghost predicate Fits(batch: Batch, registered: Feeds, own: Feeds) {
    && (forall u :: u in batch.updates ==> u.feed.Valid() && u.feed.id < TWO_115)
    && (forall f :: f in own ==> f.Valid())
    && WellTyped(batch, SequencerConfig(registered, batch)) && WellTyped(batch, ReporterConfig(own))
  }

  lemma CollectedIds(batch: Batch, f: EncodedFeedId)
    requires f in NeighbourSet(batch.updates) && forall u :: u in batch.updates ==> u.feed.id < TWO_115
    ensures f.id < TWO_115
  {
    var u :| u in batch.updates && f in NeighbourFeedIds(u.feed);
    NeighbourIff(u.feed, f);
  }

  lemma NeighboursCollected(batch: Batch, f: EncodedFeedId, g: EncodedFeedId)
    requires f in NeighbourSet(batch.updates) && g in NeighbourFeedIds(f)
    ensures g in NeighbourSet(batch.updates)
  {
    var u :| u in batch.updates && f in NeighbourFeedIds(u.feed);
    NeighbourIff(u.feed, f);
    NeighbourIff(f, g);
    NeighbourIff(u.feed, g);
  }

  /** Where the two sides put the index of a feed. */
  lemma PlacedAt(batch: Batch, registered: Feeds, own: Feeds, rc: RoundBufferIndices, f: EncodedFeedId)
    requires f in NeighbourSet(batch.updates)
    ensures var s := CollectedInfo(batch, SequencerConfig(registered, batch), rc);
            var r := CollectedInfo(batch, ReporterConfig(own), rc);
            && f in s && f in r
            && RowOf(f, r) == CalcRowIndex(f.id, f.stride)
            && RowOf(f, s) == CalcRowIndex(f.id, if Misplaced(batch, registered, f) then 0 else f.stride)
            && LaneOf(f, s, UpdatedFeeds(batch.updates)) == Lane(batch, rc, f)
            && LaneOf(f, r, UpdatedFeeds(batch.updates)) == Lane(batch, rc, f)
  {
  }

  /** A slot the sequencer fills is filled alike by the reporter, unless the feed is misplaced and the slot it
      lands on is not that of a listed feed with the same index. */
  lemma SentSlotMatchesIff(batch: Batch, registered: Feeds, own: Feeds, rc: RoundBufferIndices, f: EncodedFeedId)
    requires Fits(batch, registered, own) && f in NeighbourSet(batch.updates)
    ensures var s := CollectedInfo(batch, SequencerConfig(registered, batch), rc);
            var r := CollectedInfo(batch, ReporterConfig(own), rc);
            var z := EncodedFeedId(0, f.id);
            f in s && (SlotMatches(s, r, UpdatedFeeds(batch.updates), f) <==>
              (Misplaced(batch, registered, f) ==> z in NeighbourSet(batch.updates) && Lane(batch, rc, z) == Lane(batch, rc, f)))
  {
    var s := CollectedInfo(batch, SequencerConfig(registered, batch), rc);
    var r := CollectedInfo(batch, ReporterConfig(own), rc);
    var updated := UpdatedFeeds(batch.updates);
    var placed := EncodedFeedId(if Misplaced(batch, registered, f) then 0 else f.stride, f.id);
    PlacedAt(batch, registered, own, rc, f);
    CollectedIds(batch, f);
    var row, p := RowOf(f, s), SlotPosition(f.id);
    forall g | g in r
      ensures RowOf(g, r) == row <==> g in NeighbourFeedIds(placed)
      ensures LandsAt(g, r, row, p) <==> g == placed
      ensures LaneOf(g, r, updated) == Lane(batch, rc, g)
    {
      PlacedAt(batch, registered, own, rc, g);
      CollectedIds(batch, g);
      SameRowMeans(f, placed.stride, g, g.stride);
      NeighbourIff(placed, g);
    }
    RowListed(batch, r, row, placed);
  }

  lemma RowListed(batch: Batch, r: FeedsInfo, row: nat, placed: EncodedFeedId)
    requires r.Keys == NeighbourSet(batch.updates)
    requires forall g :: g in r ==> (RowOf(g, r) == row <==> g in NeighbourFeedIds(placed))
    ensures HasRow(r, row) <==> placed in r
  {
    NeighbourIff(placed, placed);
    if HasRow(r, row) {
      var g :| g in r && RowOf(g, r) == row;
      NeighbourIff(placed, g);
      NeighbourIff(g, placed);
      NeighboursCollected(batch, g, placed);
    }
  }

  /** The row of the feed's own stride is rewritten by the sequencer too. */
  ghost predicate OwnRowSent(batch: Batch, registered: Feeds, f: EncodedFeedId) {
    Misplaced(batch, registered, f) ==>
      exists k :: k in NeighbourSet(batch.updates) && k in NeighbourFeedIds(f) && k in registered
  }

  /** What the sequencer puts on the slot of a feed's own row. */
  lemma SentAt(batch: Batch, registered: Feeds, own: Feeds, rc: RoundBufferIndices, f: EncodedFeedId, g: EncodedFeedId)
    requires Fits(batch, registered, own) && f in NeighbourSet(batch.updates) && g in NeighbourSet(batch.updates)
    ensures var s := CollectedInfo(batch, SequencerConfig(registered, batch), rc);
            var row, p := CalcRowIndex(f.id, f.stride), SlotPosition(f.id);
            var stride := if Misplaced(batch, registered, g) then 0 else g.stride;
            && g in s
            && (RowOf(g, s) == row <==> stride == f.stride && g.id / 16 == f.id / 16)
            && (LandsAt(g, s, row, p) <==> stride == f.stride && g.id == f.id)
            && LaneOf(g, s, UpdatedFeeds(batch.updates)) == Lane(batch, rc, g)
  {
    PlacedAt(batch, registered, own, rc, g);
    CollectedIds(batch, f);
    CollectedIds(batch, g);
    SameRowMeans(g, if Misplaced(batch, registered, g) then 0 else g.stride, f, f.stride);
  }

  lemma OwnRowIff(batch: Batch, registered: Feeds, own: Feeds, rc: RoundBufferIndices, f: EncodedFeedId)
    requires Fits(batch, registered, own) && f in NeighbourSet(batch.updates)
    ensures HasRow(CollectedInfo(batch, SequencerConfig(registered, batch), rc), CalcRowIndex(f.id, f.stride)) <==>
            OwnRowSent(batch, registered, f)
  {
    var s := CollectedInfo(batch, SequencerConfig(registered, batch), rc);
    forall g | g in s
      ensures RowOf(g, s) == CalcRowIndex(f.id, f.stride) <==>
              (if Misplaced(batch, registered, g) then 0 else g.stride) == f.stride && g.id / 16 == f.id / 16
    {
      SentAt(batch, registered, own, rc, f, g);
    }
    if !Misplaced(batch, registered, f) {
      assert f in s;
    }
    forall g | g in s ensures g in NeighbourFeedIds(f) <==> g.stride == f.stride && g.id / 16 == f.id / 16 {
      NeighbourIff(f, g);
    }
  }

  /** A slot the reporter fills is filled alike by the sequencer, unless the feed is misplaced, or another
      one is misplaced onto it. */
  lemma RebuiltSlotMatchesIff(batch: Batch, registered: Feeds, own: Feeds, rc: RoundBufferIndices, f: EncodedFeedId)
    requires Fits(batch, registered, own) && f in NeighbourSet(batch.updates)
    ensures var s := CollectedInfo(batch, SequencerConfig(registered, batch), rc);
            var r := CollectedInfo(batch, ReporterConfig(own), rc);
            f in r && (SlotMatches(r, s, UpdatedFeeds(batch.updates), f) <==>
              && OwnRowSent(batch, registered, f)
              && (Misplaced(batch, registered, f) ==> Lane(batch, rc, f) == 0)
              && forall g :: Misplaced(batch, registered, g) && f == EncodedFeedId(0, g.id) ==> Lane(batch, rc, g) == Lane(batch, rc, f))
  {
    var s := CollectedInfo(batch, SequencerConfig(registered, batch), rc);
    PlacedAt(batch, registered, own, rc, f);
    OwnRowIff(batch, registered, own, rc, f);
    forall g | g in s
      ensures LandsAt(g, s, CalcRowIndex(f.id, f.stride), SlotPosition(f.id)) <==>
              (g == f && !Misplaced(batch, registered, f)) || (Misplaced(batch, registered, g) && f == EncodedFeedId(0, g.id))
      ensures LaneOf(g, s, UpdatedFeeds(batch.updates)) == Lane(batch, rc, g)
    {
      SentAt(batch, registered, own, rc, f, g);
    }
    assert !Misplaced(batch, registered, f) ==> Claimed(s, CalcRowIndex(f.id, f.stride), SlotPosition(f.id));
  }

  /** With the configurations they really use, and knowing the updated feeds alike, sequencer and reporter
      produce identical bytes for all iteration orders exactly when every misplaced feed is harmless. */
  lemma BuiltConfigsAgreeIff(batch: Batch, registered: Feeds, own: Feeds, rc: RoundBufferIndices)
    requires Fits(batch, registered, own)
    requires SameValues(batch, SequencerConfig(registered, batch), ReporterConfig(own))
    ensures AlwaysAgree(batch, SequencerConfig(registered, batch), ReporterConfig(own), rc) <==>
            AllHarmless(batch, registered, rc)
  {
    var cs, cr := SequencerConfig(registered, batch), ReporterConfig(own);
    ConfigsFit(batch, registered, own);
    SameValuesAgreeIff(batch, cs, cr, rc);
    if AlwaysAgree(batch, cs, cr, rc) {
      forall f | Misplaced(batch, registered, f) ensures Harmless(batch, registered, rc, f) {
        AgreementMakesHarmless(batch, registered, own, rc, f);
      }
    } else if AllHarmless(batch, registered, rc) {
      HarmlessMakesAgreement(batch, registered, own, rc);
    }
  }

  lemma ConfigsFit(batch: Batch, registered: Feeds, own: Feeds)
    requires Fits(batch, registered, own)
    ensures KeysFit(batch, SequencerConfig(registered, batch)) && KeysFit(batch, ReporterConfig(own))
  {
  }

  lemma AgreementMakesHarmless(batch: Batch, registered: Feeds, own: Feeds, rc: RoundBufferIndices, f: EncodedFeedId)
    requires Fits(batch, registered, own) && Misplaced(batch, registered, f)
    requires LanesAgree(CollectedInfo(batch, SequencerConfig(registered, batch), rc), CollectedInfo(batch, ReporterConfig(own), rc),
                        UpdatedFeeds(batch.updates))
    ensures Harmless(batch, registered, rc, f)
  {
    SentSlotMatchesIff(batch, registered, own, rc, f);
    RebuiltSlotMatchesIff(batch, registered, own, rc, f);
  }

  ghost predicate AllHarmless(batch: Batch, registered: Feeds, rc: RoundBufferIndices) {
    forall f :: Misplaced(batch, registered, f) ==> Harmless(batch, registered, rc, f)
  }

  lemma HarmlessMakesMatch(batch: Batch, registered: Feeds, own: Feeds, rc: RoundBufferIndices, f: EncodedFeedId)
    requires Fits(batch, registered, own) && f in NeighbourSet(batch.updates) && AllHarmless(batch, registered, rc)
    ensures var s := CollectedInfo(batch, SequencerConfig(registered, batch), rc);
            var r := CollectedInfo(batch, ReporterConfig(own), rc);
            && f in s && f in r
            && SlotMatches(s, r, UpdatedFeeds(batch.updates), f)
            && SlotMatches(r, s, UpdatedFeeds(batch.updates), f)
  {
    SentSlotMatchesIff(batch, registered, own, rc, f);
    RebuiltSlotMatchesIff(batch, registered, own, rc, f);
  }

  lemma HarmlessMakesAgreement(batch: Batch, registered: Feeds, own: Feeds, rc: RoundBufferIndices)
    requires Fits(batch, registered, own) && AllHarmless(batch, registered, rc)
    ensures LanesAgree(CollectedInfo(batch, SequencerConfig(registered, batch), rc), CollectedInfo(batch, ReporterConfig(own), rc),
                       UpdatedFeeds(batch.updates))
  {
    var s := CollectedInfo(batch, SequencerConfig(registered, batch), rc);
    var r := CollectedInfo(batch, ReporterConfig(own), rc);
    if !LanesAgree(s, r, UpdatedFeeds(batch.updates)) {
      var f, atS := Mismatch(s, r, UpdatedFeeds(batch.updates));
      HarmlessMakesMatch(batch, registered, own, rc, f);
    }
  }

  /** An update whose row has an unregistered feed, with nothing updated in the stride-0 row of the same
      ids: the bytes differ for every pair of iteration orders, and the reporter refuses the batch. */
  lemma UnregisteredNeighbourNeverAgrees(batch: Batch, registered: Feeds, own: Feeds, rc: RoundBufferIndices,
                                         f: EncodedFeedId, a: seq<EncodedFeedId>, b: seq<EncodedFeedId>)
    requires Fits(batch, registered, own)
    requires SameValues(batch, SequencerConfig(registered, batch), ReporterConfig(own))
    requires Misplaced(batch, registered, f) && EncodedFeedId(0, f.id) !in NeighbourSet(batch.updates)
    requires Enumerates(a, CollectedInfo(batch, SequencerConfig(registered, batch), rc).Keys)
    requires Enumerates(b, CollectedInfo(batch, ReporterConfig(own), rc).Keys)
    ensures SequencerBytes(batch, SequencerConfig(registered, batch), rc, a) != ReporterBytes(batch, ReporterConfig(own), rc, b)
  {
    StrayRow(batch, registered, own, rc, f, a, b);
    ConfigsFit(batch, registered, own);
    DifferentRowsDifferentBytes(batch, SequencerConfig(registered, batch), ReporterConfig(own), rc, a, b);
  }

  lemma DifferentRowsDifferentBytes(batch: Batch, cs: Config, cr: Config, rc: RoundBufferIndices,
                                    a: seq<EncodedFeedId>, b: seq<EncodedFeedId>)
    requires KeysFit(batch, cs) && KeysFit(batch, cr) && WellTyped(batch, cs) && WellTyped(batch, cr)
    requires SameValues(batch, cs, cr)
    requires Enumerates(a, CollectedInfo(batch, cs, rc).Keys) && Enumerates(b, CollectedInfo(batch, cr, rc).Keys)
    requires Rows(batch, cs, rc, a) != Rows(batch, cr, rc, b)
    ensures SequencerBytes(batch, cs, rc, a) != ReporterBytes(batch, cr, rc, b)
  {
    SameConfigSameRecords(batch.updates, cs, cr, rc);
    SameBytesIff(batch, cs, cr, rc, a, b);
  }

  /** The sequencer rewrites a row of stride 0 that the reporter does not. */
  lemma StrayRow(batch: Batch, registered: Feeds, own: Feeds, rc: RoundBufferIndices,
                 f: EncodedFeedId, a: seq<EncodedFeedId>, b: seq<EncodedFeedId>)
    requires Fits(batch, registered, own)
    requires Misplaced(batch, registered, f) && EncodedFeedId(0, f.id) !in NeighbourSet(batch.updates)
    requires Enumerates(a, CollectedInfo(batch, SequencerConfig(registered, batch), rc).Keys)
    requires Enumerates(b, CollectedInfo(batch, ReporterConfig(own), rc).Keys)
    ensures Rows(batch, SequencerConfig(registered, batch), rc, a) != Rows(batch, ReporterConfig(own), rc, b)
  {
    var s := CollectedInfo(batch, SequencerConfig(registered, batch), rc);
    var r := CollectedInfo(batch, ReporterConfig(own), rc);
    var row := CalcRowIndex(f.id, 0);
    PlacedAt(batch, registered, own, rc, f);
    RowPlacedIff(a, s, UpdatedFeeds(batch.updates), row);
    RowPlacedIff(b, r, UpdatedFeeds(batch.updates), row);
    forall g | g in r ensures RowOf(g, r) != row {
      PlacedAt(batch, registered, own, rc, g);
      if RowOf(g, r) == row {
        ZeroRowMeans(batch, registered, own, rc, f, g);
      }
    }
  }

  lemma ZeroRowMeans(batch: Batch, registered: Feeds, own: Feeds, rc: RoundBufferIndices, f: EncodedFeedId, g: EncodedFeedId)
    requires Fits(batch, registered, own) && f in NeighbourSet(batch.updates) && g in NeighbourSet(batch.updates)
    requires CalcRowIndex(g.id, g.stride) == CalcRowIndex(f.id, 0)
    ensures EncodedFeedId(0, f.id) in NeighbourSet(batch.updates)
  {
    CollectedIds(batch, f);
    CollectedIds(batch, g);
    SameRowMeans(g, g.stride, f, 0);
    NeighbourIff(g, EncodedFeedId(0, f.id));
    NeighboursCollected(batch, g, EncodedFeedId(0, f.id));
  }

  ghost function LoneBatch(value: FeedTypes.FeedType, timestamp: nat, height: nat): Batch {
    Batch(height, [VotedFeedUpdate(EncodedFeedId(1, 1), value, timestamp)])
  }

  lemma LoneNeighbours(batch: Batch, f: EncodedFeedId)
    requires |batch.updates| == 1 && batch.updates[0].feed == EncodedFeedId(1, 1)
    ensures f in NeighbourSet(batch.updates) <==> f.stride == 1 && f.id / 16 == 0
  {
    NeighbourIff(EncodedFeedId(1, 1), f);
    assert batch.updates[0] in batch.updates;
  }

  /** The smallest such batch: one update of feed 1 at stride 1, and no other feed registered. */
  lemma LoneFeedNeverAgrees(value: FeedTypes.FeedType, timestamp: nat, decimals: nat, height: nat, known: Feeds,
                            a: seq<EncodedFeedId>, b: seq<EncodedFeedId>)
    requires known == map[EncodedFeedId(1, 1) := decimals]
    requires Fits(LoneBatch(value, timestamp, height), known, known)
    requires Enumerates(a, CollectedInfo(LoneBatch(value, timestamp, height),
                                         SequencerConfig(known, LoneBatch(value, timestamp, height)), map[]).Keys)
    requires Enumerates(b, CollectedInfo(LoneBatch(value, timestamp, height), ReporterConfig(known), map[]).Keys)
    ensures var batch := LoneBatch(value, timestamp, height);
            SequencerBytes(batch, SequencerConfig(known, batch), map[], a) != ReporterBytes(batch, ReporterConfig(known), map[], b)
  {
    var batch := LoneBatch(value, timestamp, height);
    LoneNeighbours(batch, EncodedFeedId(1, 1));
    LoneNeighbours(batch, EncodedFeedId(1, 2));
    LoneNeighbours(batch, EncodedFeedId(0, 2));
    UnregisteredNeighbourNeverAgrees(batch, known, known, map[], EncodedFeedId(1, 2), a, b);
  }
}
