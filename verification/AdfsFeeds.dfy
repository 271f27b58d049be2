/** What the contract's storage says about one feed, given the values that reached it in order. */
module AdfsFeeds {
  import opened Sets
  import opened Arithmetic
  import opened Bytes
  import opened Wrappers
  import opened AdfsLayout
  import opened AdfsRows
  import opened AdfsCalldata
  import opened AdfsAgreement
  import opened AdfsContract
  import opened AdfsStore
  import opened AdfsPosts

  /** The newest 8192 values of a feed are in their ring slots; value 0 went to slot `base`. */
  ghost predicate HoldsLog(st: Storage, f: EncodedFeedId, log: seq<seq<byte>>, base: nat) {
    forall k :: 0 <= k < |log| <= k + MAX_HISTORY_ELEMENTS_PER_FEED ==> HoldsAt(st, f, log, base, k)
  }

  ghost predicate HoldsAt(st: Storage, f: EncodedFeedId, log: seq<seq<byte>>, base: nat, k: nat)
    requires k < |log|
  {
    SlotHolds(st, f, RingIndex(base + k), log[k])
  }

  /** The ring slot of the newest value; 0 before the first one. */
  function LatestSlot(log: seq<seq<byte>>, base: nat): nat {
    if log == [] then 0 else RingIndex(base + |log| - 1)
  }

  /** The index table points at the newest value, and the newest 8192 values are stored. */
  ghost predicate StoredInv(st: Storage, f: EncodedFeedId, log: seq<seq<byte>>, base: nat) {
    GetLatestIndex(st, f) == Some(LatestSlot(log, base)) && HoldsLog(st, f, log, base)
  }

  lemma NothingStored(f: EncodedFeedId)
    requires Addressable(f)
    ensures StoredInv(map[], f, [], 0)
  {
    ZeroLane(15 - f.id % 16);
  }

  lemma {:induction false} ZeroLane(k: nat)
    ensures Lane(0, k) == 0
  {
    if k == 0 {
    } else {
      ZeroLane(k - 1);
    }
  }

  lemma RingIndexDiffers(k: nat, n: nat)
    requires k < n < k + MAX_HISTORY_ELEMENTS_PER_FEED
    ensures RingIndex(k) != RingIndex(n)
  {
    var q, r := DivModParts(k, MAX_HISTORY_ELEMENTS_PER_FEED);
    var q', r' := DivModParts(n, MAX_HISTORY_ELEMENTS_PER_FEED);
  }

  lemma OldValueKept(st: Storage, batch: Batch, cfg: Config, rbs: RoundBufferIndices, rows: map<nat, Lanes>, f: EncodedFeedId, rb: nat, data: seq<byte>)
    requires GoodBatch(batch, cfg) && TableRows(rows) && Send(st, batch, cfg, rbs, rows).Some?
    requires Addressable(f) && rb < MAX_HISTORY_ELEMENTS_PER_FEED
    requires f in UpdatedFeeds(batch.updates) ==> RingIndex(RbFor(rbs, f)) != rb
    requires SlotHolds(st, f, rb, data)
    ensures SlotHolds(Send(st, batch, cfg, rbs, rows).value, f, rb, data)
  {
    var st' := Send(st, batch, cfg, rbs, rows).value;
    forall j | 0 <= j < Pow(2, f.stride) ensures Sload(st', ValueAddress(f, rb, j)) == Sload(st, ValueAddress(f, rb, j)) {
      WindowKept(st, batch, cfg, rbs, rows, f, rb, j);
    }
    SameWindowHolds(st, st', f, rb, data);
  }

  lemma FeedPosition(batch: Batch, f: EncodedFeedId) returns (i: nat)
    requires f in UpdatedFeeds(batch.updates)
    ensures i < |batch.updates| && batch.updates[i].feed == f
  {
    var u :| u in batch.updates && u.feed == f;
    i :| 0 <= i < |batch.updates| && batch.updates[i] == u;
  }

  lemma FeedsOfUpdated(batch: Batch, f: EncodedFeedId)
    ensures f in FeedsOf(batch) <==> f in UpdatedFeeds(batch.updates)
  {
    if f in UpdatedFeeds(batch.updates) {
      var i := FeedPosition(batch, f);
      assert FeedsOf(batch)[i] == f;
    }
  }

  lemma DistinctUpdates(batch: Batch)
    requires Distinct(FeedsOf(batch))
    ensures forall j, k :: 0 <= j < k < |batch.updates| ==> batch.updates[j].feed != batch.updates[k].feed
  {
    forall j, k | 0 <= j < k < |batch.updates| ensures batch.updates[j].feed != batch.updates[k].feed {
      assert FeedsOf(batch)[j] != FeedsOf(batch)[k];
    }
  }

  /** A batch appends at most one value to the log of a feed. */
  lemma ValuesOfCount(batch: Batch, cfg: Config, f: EncodedFeedId)
    requires Distinct(FeedsOf(batch))
    ensures f in FeedsOf(batch) <==> f in UpdatedFeeds(batch.updates)
    ensures |ValuesOf(batch.updates, cfg, f)| == if f in FeedsOf(batch) then 1 else 0
  {
    FeedsOfUpdated(batch, f);
    if f in UpdatedFeeds(batch.updates) {
      var i := FeedPosition(batch, f);
      DistinctUpdates(batch);
      ValuesOfOnce(batch.updates, cfg, i);
    } else {
      ValuesOfAbsent(batch.updates, cfg, f);
    }
  }

  /** A storage that kept the older values and holds the new one holds the longer log. */
  lemma LogExtended(st: Storage, f: EncodedFeedId, log: seq<seq<byte>>, base: nat, data: seq<byte>)
    requires forall k :: 0 <= k < |log| < k + MAX_HISTORY_ELEMENTS_PER_FEED ==> HoldsAt(st, f, log, base, k)
    requires SlotHolds(st, f, RingIndex(base + |log|), data)
    ensures HoldsLog(st, f, log + [data], base)
  {
    forall k | 0 <= k < |log + [data]| <= k + MAX_HISTORY_ELEMENTS_PER_FEED ensures HoldsAt(st, f, log + [data], base, k) {
      if k < |log| {
        assert HoldsAt(st, f, log, base, k);
      } else {
        assert k == |log|;
      }
    }
  }

  /** A value other than the one the new value replaces stays in its ring slot. */
  lemma OlderSlotKept(st: Storage, batch: Batch, cfg: Config, rbs: RoundBufferIndices, rows: map<nat, Lanes>, f: EncodedFeedId,
                      log: seq<seq<byte>>, base: nat, k: nat)
    requires GoodBatch(batch, cfg) && TableRows(rows) && Send(st, batch, cfg, rbs, rows).Some?
    requires Addressable(f) && k < |log|
    requires f in UpdatedFeeds(batch.updates) ==> RingIndex(RbFor(rbs, f)) != RingIndex(base + k)
    requires HoldsAt(st, f, log, base, k)
    ensures HoldsAt(Send(st, batch, cfg, rbs, rows).value, f, log, base, k)
  {
    OldValueKept(st, batch, cfg, rbs, rows, f, RingIndex(base + k), log[k]);
  }

  lemma OlderSlotsKept(st: Storage, batch: Batch, cfg: Config, rbs: RoundBufferIndices, rows: map<nat, Lanes>, f: EncodedFeedId,
                       log: seq<seq<byte>>, base: nat)
    requires GoodBatch(batch, cfg) && TableRows(rows) && Send(st, batch, cfg, rbs, rows).Some?
    requires Addressable(f) && HoldsLog(st, f, log, base) && RingIndex(RbFor(rbs, f)) == RingIndex(base + |log|)
    ensures forall k :: 0 <= k < |log| < k + MAX_HISTORY_ELEMENTS_PER_FEED ==>
              HoldsAt(Send(st, batch, cfg, rbs, rows).value, f, log, base, k)
  {
    forall k | 0 <= k < |log| < k + MAX_HISTORY_ELEMENTS_PER_FEED
      ensures HoldsAt(Send(st, batch, cfg, rbs, rows).value, f, log, base, k)
    {
      assert HoldsAt(st, f, log, base, k);
      NotReplacedYet(rbs, f, log, base, k);
      OlderSlotKept(st, batch, cfg, rbs, rows, f, log, base, k);
    }
  }

  lemma NotReplacedYet(rbs: RoundBufferIndices, f: EncodedFeedId, log: seq<seq<byte>>, base: nat, k: nat)
    requires k < |log| < k + MAX_HISTORY_ELEMENTS_PER_FEED && RingIndex(RbFor(rbs, f)) == RingIndex(base + |log|)
    ensures RingIndex(RbFor(rbs, f)) != RingIndex(base + k)
  {
    RingIndexDiffers(base + k, base + |log|);
  }

  lemma UpdatedLogHeld(st: Storage, batch: Batch, cfg: Config, rbs: RoundBufferIndices, rows: map<nat, Lanes>, f: EncodedFeedId,
                       log: seq<seq<byte>>, base: nat, i: nat)
    requires GoodBatch(batch, cfg) && TableRows(rows) && Send(st, batch, cfg, rbs, rows).Some?
    requires Addressable(f) && HoldsLog(st, f, log, base) && RingIndex(RbFor(rbs, f)) == RingIndex(base + |log|)
    requires i < |batch.updates| && batch.updates[i].feed == f
    ensures HoldsLog(Send(st, batch, cfg, rbs, rows).value, f, log + [EncodedValue(batch.updates[i], cfg)], base)
  {
    var st' := Send(st, batch, cfg, rbs, rows).value;
    OlderSlotsKept(st, batch, cfg, rbs, rows, f, log, base);
    NewValueStored(st, batch, cfg, rbs, rows, i);
    LogExtended(st', f, log, base, EncodedValue(batch.updates[i], cfg));
  }

  lemma OtherLogHeld(st: Storage, batch: Batch, cfg: Config, rbs: RoundBufferIndices, rows: map<nat, Lanes>, f: EncodedFeedId,
                     log: seq<seq<byte>>, base: nat)
    requires GoodBatch(batch, cfg) && TableRows(rows) && Send(st, batch, cfg, rbs, rows).Some?
    requires Addressable(f) && HoldsLog(st, f, log, base) && f !in UpdatedFeeds(batch.updates)
    ensures HoldsLog(Send(st, batch, cfg, rbs, rows).value, f, log, base)
  {
    var st' := Send(st, batch, cfg, rbs, rows).value;
    forall k | 0 <= k < |log| <= k + MAX_HISTORY_ELEMENTS_PER_FEED ensures HoldsAt(st', f, log, base, k) {
      assert HoldsAt(st, f, log, base, k);
      OlderSlotKept(st, batch, cfg, rbs, rows, f, log, base, k);
    }
  }

  lemma PublishOther(st: Storage, batch: Batch, cfg: Config, rbs: RoundBufferIndices, rows: map<nat, Lanes>, f: EncodedFeedId,
                     log: seq<seq<byte>>, base: nat)
    requires GoodBatch(batch, cfg) && TableRows(rows) && Send(st, batch, cfg, rbs, rows).Some?
    requires Addressable(f) && HoldsLog(st, f, log, base) && f !in UpdatedFeeds(batch.updates)
    ensures log + ValuesOf(batch.updates, cfg, f) == log
    ensures HoldsLog(Send(st, batch, cfg, rbs, rows).value, f, log, base)
  {
    ValuesOfAbsent(batch.updates, cfg, f);
    OtherLogHeld(st, batch, cfg, rbs, rows, f, log, base);
  }

  lemma PublishUpdated(st: Storage, batch: Batch, cfg: Config, rbs: RoundBufferIndices, rows: map<nat, Lanes>, f: EncodedFeedId,
                       log: seq<seq<byte>>, base: nat)
    requires GoodBatch(batch, cfg) && TableRows(rows) && Send(st, batch, cfg, rbs, rows).Some?
    requires Addressable(f) && HoldsLog(st, f, log, base) && f in UpdatedFeeds(batch.updates)
    requires RingIndex(RbFor(rbs, f)) == RingIndex(base + |log|)
    ensures |ValuesOf(batch.updates, cfg, f)| == 1
    ensures HoldsLog(Send(st, batch, cfg, rbs, rows).value, f, log + ValuesOf(batch.updates, cfg, f), base)
  {
    var i := FeedPosition(batch, f);
    DistinctUpdates(batch);
    ValuesOfOnce(batch.updates, cfg, i);
    UpdatedLogHeld(st, batch, cfg, rbs, rows, f, log, base, i);
  }

  /** A batch appends its value of the feed, if it has one, to what is held; nothing else changes for the feed. */
  lemma PublishKeepsLog(st: Storage, batch: Batch, cfg: Config, rbs: RoundBufferIndices, rows: map<nat, Lanes>, f: EncodedFeedId,
                        log: seq<seq<byte>>, base: nat)
    requires GoodBatch(batch, cfg) && TableRows(rows) && Send(st, batch, cfg, rbs, rows).Some?
    requires Addressable(f) && HoldsLog(st, f, log, base)
    requires f in UpdatedFeeds(batch.updates) ==> RingIndex(RbFor(rbs, f)) == RingIndex(base + |log|)
    ensures HoldsLog(Send(st, batch, cfg, rbs, rows).value, f, log + ValuesOf(batch.updates, cfg, f), base)
  {
    if f in UpdatedFeeds(batch.updates) {
      PublishUpdated(st, batch, cfg, rbs, rows, f, log, base);
    } else {
      PublishOther(st, batch, cfg, rbs, rows, f, log, base);
    }
  }

  lemma LatestAfter(batch: Batch, cfg: Config, rbs: RoundBufferIndices, f: EncodedFeedId, log: seq<seq<byte>>, base: nat)
    requires Distinct(FeedsOf(batch))
    requires f in UpdatedFeeds(batch.updates) ==> RingIndex(RbFor(rbs, f)) == RingIndex(base + |log|)
    ensures LatestSlot(log + ValuesOf(batch.updates, cfg, f), base) == RightIndex(batch, rbs, f, LatestSlot(log, base))
    ensures f !in UpdatedFeeds(batch.updates) ==> log + ValuesOf(batch.updates, cfg, f) == log
  {
    ValuesOfCount(batch, cfg, f);
  }

  /** A post that the contract accepts keeps the feed's newest values, and the feed resolves to the newest one
      afterwards exactly if the post does not disturb it. */
  lemma PostKeepsStoredIff(st: Storage, batch: Batch, cfg: Config, rbs: RoundBufferIndices, order: seq<EncodedFeedId>,
                           f: EncodedFeedId, log: seq<seq<byte>>, base: nat)
    requires GoodBatch(batch, cfg) && Enumerates(order, NeighbourSet(batch.updates)) && Post(st, batch, cfg, rbs, order).Some?
    requires Addressable(f) && StoredInv(st, f, log, base)
    requires f in UpdatedFeeds(batch.updates) ==> RingIndex(RbFor(rbs, f)) == RingIndex(base + |log|)
    ensures var st', log' := Post(st, batch, cfg, rbs, order).value, log + ValuesOf(batch.updates, cfg, f);
            && HoldsLog(st', f, log', base)
            && (StoredInv(st', f, log', base) <==> Undisturbed(batch, cfg, rbs, order, f, LatestSlot(log, base)))
  {
    PostKeepsLog(st, batch, cfg, rbs, order, f, log, base);
    PostKeepsIndexIff(st, batch, cfg, rbs, order, f, log, base);
  }

  lemma PostKeepsLog(st: Storage, batch: Batch, cfg: Config, rbs: RoundBufferIndices, order: seq<EncodedFeedId>,
                     f: EncodedFeedId, log: seq<seq<byte>>, base: nat)
    requires GoodBatch(batch, cfg) && Enumerates(order, NeighbourSet(batch.updates)) && Post(st, batch, cfg, rbs, order).Some?
    requires Addressable(f) && HoldsLog(st, f, log, base)
    requires f in UpdatedFeeds(batch.updates) ==> RingIndex(RbFor(rbs, f)) == RingIndex(base + |log|)
    ensures HoldsLog(Post(st, batch, cfg, rbs, order).value, f, log + ValuesOf(batch.updates, cfg, f), base)
  {
    RowsFit(batch, cfg, rbs, order);
    PublishKeepsLog(st, batch, cfg, rbs, Rows(batch, cfg, rbs, order), f, log, base);
  }

  lemma PostKeepsIndexIff(st: Storage, batch: Batch, cfg: Config, rbs: RoundBufferIndices, order: seq<EncodedFeedId>,
                          f: EncodedFeedId, log: seq<seq<byte>>, base: nat)
    requires GoodBatch(batch, cfg) && Enumerates(order, NeighbourSet(batch.updates)) && Post(st, batch, cfg, rbs, order).Some?
    requires Addressable(f) && GetLatestIndex(st, f) == Some(LatestSlot(log, base))
    requires f in UpdatedFeeds(batch.updates) ==> RingIndex(RbFor(rbs, f)) == RingIndex(base + |log|)
    ensures GetLatestIndex(Post(st, batch, cfg, rbs, order).value, f) == Some(LatestSlot(log + ValuesOf(batch.updates, cfg, f), base)) <==>
            Undisturbed(batch, cfg, rbs, order, f, LatestSlot(log, base))
  {
    IndexAfterPost(st, batch, cfg, rbs, order, f);
    LatestAfter(batch, cfg, rbs, f, log, base);
    if f in UpdatedFeeds(batch.updates) {
      var i := FeedPosition(batch, f);
      UpdatedFeedIsListed(batch, batch.updates[i]);
    }
  }

  //
  // What a reader sees
  //

  lemma ReadWindow(st: Storage, f: EncodedFeedId, rb: nat, data: seq<byte>)
    requires Addressable(f) && rb < MAX_HISTORY_ELEMENTS_PER_FEED && SlotHolds(st, f, rb, data)
    ensures GetDataAtIndex(st, f, rb).Some? && Words(data) <= GetDataAtIndex(st, f, rb).value
  {
    var w := Pow(2, f.stride);
    ValueIndexInRegion(f, rb);
    Distribute(f.id * MAX_HISTORY_ELEMENTS_PER_FEED, rb, w);
    var read := GetDataAtIndex(st, f, rb).value;
    forall j | 0 <= j < |Words(data)| ensures read[j] == Words(data)[j] {
      assert Sload(st, ValueAddress(f, rb, j)) == Words(data)[j];
    }
  }

  lemma Distribute(a: nat, b: nat, w: nat)
    ensures (a + b) * w == a * w + b * w
  {
  }

  /** Value number `k` of a feed can be read at its ring slot. */
  ghost predicate ReadableAt(st: Storage, f: EncodedFeedId, log: seq<seq<byte>>, base: nat, k: nat)
    requires k < |log|
  {
    var read := GetDataAtIndex(st, f, RingIndex(base + k));
    read.Some? && Words(log[k]) <= read.value
  }

  lemma HeldIsReadable(st: Storage, f: EncodedFeedId, log: seq<seq<byte>>, base: nat, k: nat)
    requires Addressable(f) && HoldsLog(st, f, log, base) && k < |log| <= k + MAX_HISTORY_ELEMENTS_PER_FEED
    ensures ReadableAt(st, f, log, base, k)
  {
    assert HoldsAt(st, f, log, base, k);
    ReadWindow(st, f, RingIndex(base + k), log[k]);
  }

  /** The feed resolves to its newest value, and that value can be read. */
  ghost predicate ReadsNewest(st: Storage, f: EncodedFeedId, log: seq<seq<byte>>, base: nat)
    requires log != []
  {
    && GetLatestIndex(st, f) == Some(RingIndex(base + |log| - 1))
    && GetLatestData(st, f).Some? && Words(log[|log| - 1]) <= GetLatestData(st, f).value
  }

  lemma NewestIsReadable(st: Storage, f: EncodedFeedId, log: seq<seq<byte>>, base: nat)
    requires Addressable(f) && StoredInv(st, f, log, base) && log != []
    ensures ReadsNewest(st, f, log, base)
  {
    HeldIsReadable(st, f, log, base, |log| - 1);
  }

  /** A feed that is not updated resolves to the same value after a post exactly when its row is not rewritten,
      or what is put on its slot is the index the table already has. */
  lemma NeighbourKeptIff(st: Storage, batch: Batch, cfg: Config, rbs: RoundBufferIndices, order: seq<EncodedFeedId>, g: EncodedFeedId)
    requires GoodBatch(batch, cfg) && Enumerates(order, NeighbourSet(batch.updates)) && Post(st, batch, cfg, rbs, order).Some?
    requires Addressable(g) && g !in UpdatedFeeds(batch.updates) && GetLatestIndex(st, g).Some?
    ensures GetLatestIndex(Post(st, batch, cfg, rbs, order).value, g) == GetLatestIndex(st, g) <==>
            Undisturbed(batch, cfg, rbs, order, g, GetLatestIndex(st, g).value)
  {
    IndexAfterPost(st, batch, cfg, rbs, order, g);
  }

  /** The counter a restarted sequencer derives from the index it reads off the chain. */
  function ReloadedCounter(latest: nat): nat {
    RingIndex(latest + 1)
  }

  /** After a restart, rewriting the row of a feed that is not updated keeps its latest value exactly when that
      value is not in the last ring slot. */
  lemma ReloadKeepsNeighbourIff(st: Storage, batch: Batch, cfg: Config, rbs: RoundBufferIndices, order: seq<EncodedFeedId>,
                                g: EncodedFeedId, latest: nat)
    requires GoodBatch(batch, cfg) && Enumerates(order, NeighbourSet(batch.updates)) && Post(st, batch, cfg, rbs, order).Some?
    requires Addressable(g) && g !in UpdatedFeeds(batch.updates) && LastClaim(order, batch, cfg, g) == Some(g)
    requires GetLatestIndex(st, g) == Some(latest) && latest < MAX_HISTORY_ELEMENTS_PER_FEED
    requires RbFor(rbs, g) == ReloadedCounter(latest)
    ensures GetLatestIndex(Post(st, batch, cfg, rbs, order).value, g) == Some(latest) <==>
            latest != MAX_HISTORY_ELEMENTS_PER_FEED - 1
  {
    NeighbourKeptIff(st, batch, cfg, rbs, order, g);
    LastClaimFound(order, batch, cfg, g);
    ClaimRewrites(batch, cfg, g, g);
    ReloadedLane(latest);
  }

  lemma ReloadedLane(latest: nat)
    requires latest < MAX_HISTORY_ELEMENTS_PER_FEED
    ensures LaneValue(ReloadedCounter(latest), false) == latest <==> latest != MAX_HISTORY_ELEMENTS_PER_FEED - 1
  {
    assert latest == MAX_HISTORY_ELEMENTS_PER_FEED - 1 ==> ReloadedCounter(latest) == 0;
  }
}
