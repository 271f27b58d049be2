/** Runs of published batches: what the contract's storage holds after any number of them. */
module AdfsStore {
  import opened Arithmetic
  import opened Bytes
  import opened Sets
  import opened Wrappers
  import opened FeedTypes
  import opened AdfsLayout
  import opened AdfsRows
  import opened AdfsCalldata
  import opened AdfsDecoder
  import opened AdfsAgreement
  import opened AdfsContract

  //
  // The sequencer's counters
  //

  /** Each published update raises the counter of its feed by one. */
  function Incremented(rbs: RoundBufferIndices, feeds: seq<EncodedFeedId>): RoundBufferIndices {
    if feeds == [] then rbs
    else
      var rbs', f := Incremented(rbs, feeds[..|feeds| - 1]), feeds[|feeds| - 1];
      rbs'[f := RbFor(rbs', f) + 1]
  }

  /** A failed transaction takes the increments back, but never below zero. */
  function Decremented(rbs: RoundBufferIndices, feeds: seq<EncodedFeedId>): RoundBufferIndices {
    if feeds == [] then rbs
    else
      var rbs', f := Decremented(rbs, feeds[..|feeds| - 1]), feeds[|feeds| - 1];
      rbs'[f := if RbFor(rbs', f) > 0 then RbFor(rbs', f) - 1 else 0]
  }

  function FeedsOf(batch: Batch): seq<EncodedFeedId> {
    seq(|batch.updates|, i requires 0 <= i < |batch.updates| => batch.updates[i].feed)
  }

  lemma {:induction false} IncrementedCount(rbs: RoundBufferIndices, feeds: seq<EncodedFeedId>, f: EncodedFeedId)
    requires Distinct(feeds)
    ensures RbFor(Incremented(rbs, feeds), f) == RbFor(rbs, f) + if f in feeds then 1 else 0
  {
    if feeds == [] {
    } else {
      IncrementedCount(rbs, feeds[..|feeds| - 1], f);
    }
  }

  lemma {:induction false} DecrementedCount(rbs: RoundBufferIndices, feeds: seq<EncodedFeedId>, f: EncodedFeedId)
    requires Distinct(feeds)
    ensures RbFor(Decremented(rbs, feeds), f) == if f in feeds && RbFor(rbs, f) > 0 then RbFor(rbs, f) - 1 else RbFor(rbs, f)
  {
    if feeds == [] {
    } else {
      DecrementedCount(rbs, feeds[..|feeds| - 1], f);
    }
  }

  /** Rolling a failed batch back restores every counter. */
  lemma RollbackRestores(rbs: RoundBufferIndices, feeds: seq<EncodedFeedId>, f: EncodedFeedId)
    requires Distinct(feeds)
    ensures RbFor(Decremented(Incremented(rbs, feeds), feeds), f) == RbFor(rbs, f)
  {
    IncrementedCount(rbs, feeds, f);
    DecrementedCount(Incremented(rbs, feeds), feeds, f);
  }

  //
  // What was published
  //

  function EncodedValue(u: VotedFeedUpdate, cfg: Config): seq<byte> {
    var encoded := AsBytes(u.value, ValueConfig(cfg, u.feed).decimals, u.endSlotTimestamp);
    if encoded.Ok? then encoded.value else []
  }

  /** The values of one feed in a list of updates, oldest first. */
  function ValuesOf(updates: seq<VotedFeedUpdate>, cfg: Config, f: EncodedFeedId): seq<seq<byte>> {
    if updates == [] then []
    else
      var u := updates[|updates| - 1];
      ValuesOf(updates[..|updates| - 1], cfg, f) + if u.feed == f then [EncodedValue(u, cfg)] else []
  }

  lemma {:induction false} ValuesOfAbsent(updates: seq<VotedFeedUpdate>, cfg: Config, f: EncodedFeedId)
    requires forall u :: u in updates ==> u.feed != f
    ensures ValuesOf(updates, cfg, f) == []
  {
    if updates == [] {
    } else {
      ValuesOfAbsent(updates[..|updates| - 1], cfg, f);
    }
  }

  lemma {:induction false} ValuesOfOnce(updates: seq<VotedFeedUpdate>, cfg: Config, i: nat)
    requires i < |updates| && forall j, k :: 0 <= j < k < |updates| ==> updates[j].feed != updates[k].feed
    ensures ValuesOf(updates, cfg, updates[i].feed) == [EncodedValue(updates[i], cfg)]
  {
    var front := updates[..|updates| - 1];
    if i == |updates| - 1 {
      ValuesOfAbsent(front, cfg, updates[i].feed);
    } else {
      ValuesOfOnce(front, cfg, i);
    }
  }

  //
  // Batches the theorem is about
  //

  /** Every update is of an addressable feed, configured with its own stride and updated once; every value
      encodes and is no larger than the size of its stride. Feeds that are only listed may be configured with
      stride 0 instead of their own. */
  ghost predicate GoodBatch(batch: Batch, cfg: Config) {
    && WellTyped(batch, cfg)
    && OwnStrideOrZero(cfg)
    && Distinct(FeedsOf(batch))
    && forall u :: u in batch.updates ==> GoodUpdate(u, cfg)
  }

  ghost predicate OwnStrideOrZero(cfg: Config) {
    forall f :: f in cfg ==> cfg[f].stride == f.stride || cfg[f].stride == 0
  }

  ghost predicate GoodUpdate(u: VotedFeedUpdate, cfg: Config) {
    && Addressable(u.feed)
    && ValueConfig(cfg, u.feed).stride == u.feed.stride
    && AsBytes(u.value, ValueConfig(cfg, u.feed).decimals, u.endSlotTimestamp).Ok?
    && |EncodedValue(u, cfg)| <= StrideSize(u.feed.stride)
  }

  lemma StrideSizeIsWindow(stride: nat)
    ensures StrideSize(stride) <= 32 * Pow(2, stride)
    ensures StrideSize(stride) < TWO_32
    ensures stride < 8 ==> StrideSize(stride) == 32 * Pow(2, stride)
  {
    PowPositive(2, stride);
    StrideSizes(stride);
    if stride < 8 {
      PowMono(2, stride, 7);
    }
  }

  /** A value that passes the size check fits the window of its ring slot. */
  lemma GoodRecord(u: VotedFeedUpdate, cfg: Config, rb: nat)
    requires GoodUpdate(u, cfg)
    ensures EmittedRecord(u, cfg, rb) ==
            Some(ValueRecord(u.feed.stride, ValueIndex(u.feed.id, RingIndex(rb), u.feed.stride),
                             EncodedValue(u, cfg)))
    ensures |Words(EncodedValue(u, cfg))| <= Pow(2, u.feed.stride)
  {
    StrideSizeIsWindow(u.feed.stride);
  }

  /** What precedes the data of a good record fits the one word the contract reads it from. */
  lemma HeaderFitsWord(u: VotedFeedUpdate, cfg: Config, rb: nat)
    requires GoodUpdate(u, cfg)
    ensures EmittedRecord(u, cfg, rb).Some?
    ensures |EncodeValue(EmittedRecord(u, cfg, rb).value)| <= 32 + |EncodedValue(u, cfg)|
  {
    GoodRecord(u, cfg, rb);
    var r := EmittedRecord(u, cfg, rb).value;
    ValueIndexInRegion(u.feed, RingIndex(rb));
    PowPositive(2, u.feed.stride);
    ShortPowers();
    ShortNumber(r.index, 32, 20);
    ShortNumber(|r.data|, 8, 4);
  }

  lemma ShortPowers()
    ensures Pow(256, 4) == TWO_32 && Pow(256, 20) == TWO_160
    ensures TWO_32 < Pow(256, 8) && TWO_160 < Pow(256, 32)
  {
    Pow256Values();
    PowAdd(256, 8, 8);
    PowAdd(256, 16, 4);
    assert Pow(256, 4) == TWO_32;
  }

  lemma ShortNumber(n: nat, width: nat, k: nat)
    requires k >= 1 && n < Pow(256, k) && n < Pow(256, width)
    ensures |TruncateLeadingZeroBytes(ToBE(n, width))| <= k
  {
    FromToBESmall(n, width);
    SkipZerosShort(ToBE(n, width), k);
  }

  lemma {:induction false} GoodRecords(updates: seq<VotedFeedUpdate>, cfg: Config, rbs: RoundBufferIndices)
    requires forall u :: u in updates ==> GoodUpdate(u, cfg)
    ensures var rs := EmittedRecords(updates, cfg, rbs);
            && |rs| == |updates|
            && forall i :: 0 <= i < |rs| ==> Some(rs[i]) == EmittedRecord(updates[i], cfg, RbFor(rbs, updates[i].feed))
  {
    if updates == [] {
    } else {
      GoodRecords(updates[..|updates| - 1], cfg, rbs);
      GoodRecord(updates[|updates| - 1], cfg, RbFor(rbs, updates[|updates| - 1].feed));
    }
  }

  /** The contract reverts on an empty value at the very first slot of a region, and on nothing else
      in a good record. */
  predicate EmptyAtStart(u: VotedFeedUpdate, cfg: Config, rbs: RoundBufferIndices) {
    EncodedValue(u, cfg) == [] && u.feed.id == 0 && RingIndex(RbFor(rbs, u.feed)) == 0
  }

  lemma LastSlotFits(r: ValueRecord)
    requires r.stride <= 31 && |Words(r.data)| <= Pow(2, r.stride)
    requires r.index + Pow(2, r.stride) <= StrideAddress(r.stride) < TWO_160
    ensures RecordAccepted(r) <==> !(r.index == 0 && r.data == [])
  {
    if r.index + |Words(r.data)| > 0 {
      ModKeepsSmall(r.index + |Words(r.data)| - 1, TWO_256);
    }
  }

  lemma FirstIndex(f: EncodedFeedId, rb: nat)
    requires Addressable(f) && rb < MAX_HISTORY_ELEMENTS_PER_FEED
    ensures ValueIndex(f.id, rb, f.stride) == 0 <==> f.id == 0 && rb == 0
  {
    ValueIndexInRegion(f, rb);
    PowPositive(2, f.stride);
    if RingSlot(f, rb) > 0 {
      MulPositive(RingSlot(f, rb), Pow(2, f.stride));
    }
  }

  lemma RecordAcceptedIff(u: VotedFeedUpdate, cfg: Config, rbs: RoundBufferIndices)
    requires GoodUpdate(u, cfg)
    ensures EmittedRecord(u, cfg, RbFor(rbs, u.feed)).Some?
    ensures RecordAccepted(EmittedRecord(u, cfg, RbFor(rbs, u.feed)).value) <==> !EmptyAtStart(u, cfg, rbs)
  {
    var rb := RingIndex(RbFor(rbs, u.feed));
    GoodRecord(u, cfg, RbFor(rbs, u.feed));
    ValueIndexInRegion(u.feed, rb);
    FirstIndex(u.feed, rb);
    LastSlotFits(EmittedRecord(u, cfg, RbFor(rbs, u.feed)).value);
  }

  //
  // One batch applied to the storage
  //

  ghost function RecordsOf(batch: Batch, cfg: Config, rbs: RoundBufferIndices): seq<ValueRecord> {
    EmittedRecords(batch.updates, cfg, rbs)
  }

  /** Rows the contract takes: 16 ring indices each, at a row index below 2^116. */
  ghost predicate TableRows(rows: map<nat, Lanes>) {
    RealRows(rows) && forall row :: row in rows ==> row < TWO_116
  }

  /** The contract is sent the value records of the batch and the given rows. None when it reverts. */
  ghost function Send(st: Storage, batch: Batch, cfg: Config, rbs: RoundBufferIndices, rows: map<nat, Lanes>): Option<Storage> {
    SetFeeds(st, Serialized(batch, cfg, rbs, rows))
  }

  lemma ListedFeedsAddressable(batch: Batch, cfg: Config, f: EncodedFeedId)
    requires GoodBatch(batch, cfg) && f in NeighbourSet(batch.updates)
    ensures Addressable(f) && (RowStride(cfg, f) == f.stride || RowStride(cfg, f) == 0)
  {
    var u :| u in batch.updates && f in NeighbourFeedIds(u.feed);
    NeighbourIff(u.feed, f);
  }

  lemma GoodKeysFit(batch: Batch, cfg: Config)
    requires GoodBatch(batch, cfg)
    ensures KeysFit(batch, cfg)
  {
    forall u | u in batch.updates ensures u.feed.Valid() {
      assert GoodUpdate(u, cfg);
    }
  }

  /** The rows a good batch is sent with, for any iteration order. */
  lemma RowsFit(batch: Batch, cfg: Config, rbs: RoundBufferIndices, order: seq<EncodedFeedId>)
    requires GoodBatch(batch, cfg) && Enumerates(order, CollectedInfo(batch, cfg, rbs).Keys)
    ensures TableRows(Rows(batch, cfg, rbs, order))
  {
    var info, rows := CollectedInfo(batch, cfg, rbs), Rows(batch, cfg, rbs, order);
    GoodKeysFit(batch, cfg);
    RowsAreReal(batch, cfg, rbs, order);
    forall row | row in rows ensures row < TWO_116 {
      RowPlacedIff(order, info, UpdatedFeeds(batch.updates), row);
      var f :| f in info && RowOf(f, info) == row;
      ListedFeedsAddressable(batch, cfg, f);
      RowBound(EncodedFeedId(RowStride(cfg, f), f.id));
    }
  }

  lemma GoodBatchDecodes(batch: Batch, cfg: Config, rbs: RoundBufferIndices, rows: map<nat, Lanes>)
    requires GoodBatch(batch, cfg) && TableRows(rows)
    ensures Decode(Serialized(batch, cfg, rbs, rows)) ==
            Some(Calldata(batch.blockHeight, RecordsOf(batch, cfg, rbs), RowRecords(rows.Keys, rows)))
  {
    forall u | u in batch.updates ensures EmittedRecord(u, cfg, RbFor(rbs, u.feed)).Some? {
      GoodRecord(u, cfg, RbFor(rbs, u.feed));
    }
    DecodeSerialized(batch, cfg, rbs, rows);
  }

  /** The contract accepts a good batch exactly when its height is new and no update puts an empty
      value at the start of a region. */
  lemma BatchAcceptedIff(st: Storage, batch: Batch, cfg: Config, rbs: RoundBufferIndices, rows: map<nat, Lanes>)
    requires GoodBatch(batch, cfg) && TableRows(rows)
    ensures Send(st, batch, cfg, rbs, rows).Some? <==>
            batch.blockHeight > Sload(st, 0) && forall u :: u in batch.updates ==> !EmptyAtStart(u, cfg, rbs)
  {
    var rs := RecordsOf(batch, cfg, rbs);
    GoodBatchDecodes(batch, cfg, rbs, rows);
    RowRecordsComplete(rows.Keys, rows);
    var st0 := st[0 := batch.blockHeight];
    ValuesAcceptedIff(st0, rs);
    RecordsAccepted(batch, cfg, rbs);
    if ApplyValues(st0, rs).Some? {
      RowsAcceptedIff(ApplyValues(st0, rs).value, RowRecords(rows.Keys, rows));
    }
  }

  lemma RecordsAccepted(batch: Batch, cfg: Config, rbs: RoundBufferIndices)
    requires GoodBatch(batch, cfg)
    ensures (forall r :: r in RecordsOf(batch, cfg, rbs) ==> RecordAccepted(r)) <==>
            (forall u :: u in batch.updates ==> !EmptyAtStart(u, cfg, rbs))
  {
    var rs := RecordsOf(batch, cfg, rbs);
    GoodRecords(batch.updates, cfg, rbs);
    forall i | 0 <= i < |rs|
      ensures RecordAccepted(rs[i]) <==> !EmptyAtStart(batch.updates[i], cfg, rbs)
    {
      RecordAcceptedIff(batch.updates[i], cfg, rbs);
    }
    forall u | u in batch.updates && (forall r :: r in rs ==> RecordAccepted(r)) ensures !EmptyAtStart(u, cfg, rbs) {
      var i :| 0 <= i < |rs| && batch.updates[i] == u;
      assert RecordAccepted(rs[i]);
    }
  }

  /** Slots of ring slot `rb` of feed `f` hold the words of `data`. */
  ghost predicate SlotHolds(st: Storage, f: EncodedFeedId, rb: nat, data: seq<byte>) {
    && |Words(data)| <= Pow(2, f.stride)
    && forall j :: 0 <= j < |Words(data)| ==> Sload(st, ValueAddress(f, rb, j)) == Words(data)[j]
  }

  /** A record only touches the window of its own feed and ring slot. */
  lemma OwnWindowOnly(u: VotedFeedUpdate, cfg: Config, n: nat, f: EncodedFeedId, rb: nat, j: nat)
    requires GoodUpdate(u, cfg) && Addressable(f) && rb < MAX_HISTORY_ELEMENTS_PER_FEED && j < Pow(2, f.stride)
    requires EmittedRecord(u, cfg, n).Some? && InRange(EmittedRecord(u, cfg, n).value, ValueAddress(f, rb, j))
    ensures u.feed == f && RingIndex(n) == rb
  {
    GoodRecord(u, cfg, n);
    var r := EmittedRecord(u, cfg, n).value;
    NoAddressCollision(f, rb, j, u.feed, RingIndex(n), ValueAddress(f, rb, j) - BaseOf(r));
  }

  lemma WindowAfterValues(st: Storage, batch: Batch, cfg: Config, rbs: RoundBufferIndices, f: EncodedFeedId, rb: nat, j: nat)
    requires GoodBatch(batch, cfg) && ApplyValues(st, RecordsOf(batch, cfg, rbs)).Some?
    requires Addressable(f) && rb < MAX_HISTORY_ELEMENTS_PER_FEED && j < Pow(2, f.stride)
    requires forall u :: u in batch.updates ==> u.feed != f || RingIndex(RbFor(rbs, f)) != rb
    ensures Sload(ApplyValues(st, RecordsOf(batch, cfg, rbs)).value, ValueAddress(f, rb, j)) == Sload(st, ValueAddress(f, rb, j))
  {
    var rs := RecordsOf(batch, cfg, rbs);
    GoodRecords(batch.updates, cfg, rbs);
    forall r | r in rs ensures !InRange(r, ValueAddress(f, rb, j)) {
      var i :| 0 <= i < |rs| && rs[i] == r;
      if InRange(r, ValueAddress(f, rb, j)) {
        OwnWindowOnly(batch.updates[i], cfg, RbFor(rbs, batch.updates[i].feed), f, rb, j);
      }
    }
    ValuesUntouched(st, rs, ValueAddress(f, rb, j));
  }

  lemma NotOverwritten(batch: Batch, cfg: Config, rbs: RoundBufferIndices, i: nat, j: nat)
    requires GoodBatch(batch, cfg) && i < |batch.updates| && j < Pow(2, batch.updates[i].feed.stride)
    ensures var f := batch.updates[i].feed;
            var a := ValueAddress(f, RingIndex(RbFor(rbs, f)), j);
            var rs := RecordsOf(batch, cfg, rbs);
            |rs| == |batch.updates| && LaterRecordsMiss(rs, i, a)
  {
    var rs := RecordsOf(batch, cfg, rbs);
    var f := batch.updates[i].feed;
    var rb := RingIndex(RbFor(rbs, f));
    GoodRecords(batch.updates, cfg, rbs);
    forall k | i < k < |rs| ensures !InRange(rs[k], ValueAddress(f, rb, j)) {
      assert FeedsOf(batch)[i] != FeedsOf(batch)[k];
      assert GoodUpdate(batch.updates[k], cfg) && GoodUpdate(batch.updates[i], cfg);
      OtherWindowMissed(batch.updates[k], cfg, RbFor(rbs, batch.updates[k].feed), rs[k], f, rb, j);
    }
  }

  lemma OtherWindowMissed(u: VotedFeedUpdate, cfg: Config, n: nat, r: ValueRecord, f: EncodedFeedId, rb: nat, j: nat)
    requires GoodUpdate(u, cfg) && Addressable(f) && rb < MAX_HISTORY_ELEMENTS_PER_FEED && j < Pow(2, f.stride)
    requires EmittedRecord(u, cfg, n) == Some(r) && u.feed != f
    ensures !InRange(r, ValueAddress(f, rb, j))
  {
    if InRange(r, ValueAddress(f, rb, j)) {
      OwnWindowOnly(u, cfg, n, f, rb, j);
    }
  }

  lemma NewValueAfterValues(st: Storage, batch: Batch, cfg: Config, rbs: RoundBufferIndices, i: nat)
    requires GoodBatch(batch, cfg) && ApplyValues(st, RecordsOf(batch, cfg, rbs)).Some? && i < |batch.updates|
    ensures var u := batch.updates[i];
            SlotHolds(ApplyValues(st, RecordsOf(batch, cfg, rbs)).value, u.feed,
                      RingIndex(RbFor(rbs, u.feed)), EncodedValue(u, cfg))
  {
    var rs := RecordsOf(batch, cfg, rbs);
    var u := batch.updates[i];
    var rb := RingIndex(RbFor(rbs, u.feed));
    RecordOfUpdate(batch, cfg, rbs, i);
    forall j | 0 <= j < |Words(EncodedValue(u, cfg))|
      ensures Sload(ApplyValues(st, rs).value, ValueAddress(u.feed, rb, j)) == Words(EncodedValue(u, cfg))[j]
    {
      NewWordAfterValues(st, batch, cfg, rbs, i, j);
    }
  }

  lemma RecordOfUpdate(batch: Batch, cfg: Config, rbs: RoundBufferIndices, i: nat)
    requires GoodBatch(batch, cfg) && i < |batch.updates|
    ensures var u, rs := batch.updates[i], RecordsOf(batch, cfg, rbs);
            && |rs| == |batch.updates|
            && rs[i].data == EncodedValue(u, cfg)
            && BaseOf(rs[i]) == ValueAddress(u.feed, RingIndex(RbFor(rbs, u.feed)), 0)
            && |Words(rs[i].data)| <= Pow(2, u.feed.stride)
  {
    GoodRecords(batch.updates, cfg, rbs);
    GoodRecord(batch.updates[i], cfg, RbFor(rbs, batch.updates[i].feed));
  }

  lemma NewWordAfterValues(st: Storage, batch: Batch, cfg: Config, rbs: RoundBufferIndices, i: nat, j: nat)
    requires GoodBatch(batch, cfg) && ApplyValues(st, RecordsOf(batch, cfg, rbs)).Some? && i < |batch.updates|
    requires j < |Words(EncodedValue(batch.updates[i], cfg))|
    ensures var u := batch.updates[i];
            Sload(ApplyValues(st, RecordsOf(batch, cfg, rbs)).value, ValueAddress(u.feed, RingIndex(RbFor(rbs, u.feed)), j)) ==
            Words(EncodedValue(u, cfg))[j]
  {
    var u, rs := batch.updates[i], RecordsOf(batch, cfg, rbs);
    RecordOfUpdate(batch, cfg, rbs, i);
    AddressOffset(u.feed, RingIndex(RbFor(rbs, u.feed)), j);
    NotOverwritten(batch, cfg, rbs, i, j);
    RecordWordWritten(st, rs, i, j, ValueAddress(u.feed, RingIndex(RbFor(rbs, u.feed)), j), EncodedValue(u, cfg));
  }

  lemma AddressOffset(f: EncodedFeedId, rb: nat, j: nat)
    ensures ValueAddress(f, rb, j) == ValueAddress(f, rb, 0) + j
  {
  }

  lemma RecordWordWritten(st: Storage, rs: seq<ValueRecord>, i: nat, j: nat, a: nat, data: seq<byte>)
    requires ApplyValues(st, rs).Some? && i < |rs| && rs[i].data == data && j < |Words(data)|
    requires a == BaseOf(rs[i]) + j && LaterRecordsMiss(rs, i, a)
    ensures Sload(ApplyValues(st, rs).value, a) == Words(data)[j]
  {
    ValuesWritten(st, rs, i, j);
  }

  /** The storage between the value records and the rows. */
  ghost function AfterValues(st: Storage, batch: Batch, cfg: Config, rbs: RoundBufferIndices): Option<Storage> {
    ApplyValues(st[0 := batch.blockHeight], RecordsOf(batch, cfg, rbs))
  }

  lemma Stages(st: Storage, batch: Batch, cfg: Config, rbs: RoundBufferIndices, rows: map<nat, Lanes>)
    requires GoodBatch(batch, cfg) && TableRows(rows) && Send(st, batch, cfg, rbs, rows).Some?
    ensures AfterValues(st, batch, cfg, rbs).Some?
    ensures Send(st, batch, cfg, rbs, rows) ==
            ApplyRows(AfterValues(st, batch, cfg, rbs).value, RowRecords(rows.Keys, rows))
  {
    GoodBatchDecodes(batch, cfg, rbs, rows);
  }

  lemma RowsBelowValues(st: Storage, rows: map<nat, Lanes>, f: EncodedFeedId, rb: nat, j: nat)
    requires ApplyRows(st, RowRecords(rows.Keys, rows)).Some?
    requires Addressable(f) && rb < MAX_HISTORY_ELEMENTS_PER_FEED && j < Pow(2, f.stride)
    ensures Sload(ApplyRows(st, RowRecords(rows.Keys, rows)).value, ValueAddress(f, rb, j)) == Sload(st, ValueAddress(f, rb, j))
  {
    var records := RowRecords(rows.Keys, rows);
    RowsAcceptedIff(st, records);
    forall r | r in records ensures TableAddress(r.row) != ValueAddress(f, rb, j) {
      TableBelowValues(f, rb, j, r.row);
    }
    RowsUntouched(st, records, ValueAddress(f, rb, j));
  }

  lemma WindowAfterRows(st: Storage, batch: Batch, cfg: Config, rbs: RoundBufferIndices, rows: map<nat, Lanes>, f: EncodedFeedId, rb: nat, j: nat)
    requires GoodBatch(batch, cfg) && TableRows(rows) && Send(st, batch, cfg, rbs, rows).Some?
    requires Addressable(f) && rb < MAX_HISTORY_ELEMENTS_PER_FEED && j < Pow(2, f.stride)
    ensures AfterValues(st, batch, cfg, rbs).Some?
    ensures Sload(Send(st, batch, cfg, rbs, rows).value, ValueAddress(f, rb, j)) ==
            Sload(AfterValues(st, batch, cfg, rbs).value, ValueAddress(f, rb, j))
  {
    Stages(st, batch, cfg, rbs, rows);
    RowsBelowValues(AfterValues(st, batch, cfg, rbs).value, rows, f, rb, j);
  }

  /** A window no update of the batch is written to keeps its words. */
  lemma WindowKept(st: Storage, batch: Batch, cfg: Config, rbs: RoundBufferIndices, rows: map<nat, Lanes>, f: EncodedFeedId, rb: nat, j: nat)
    requires GoodBatch(batch, cfg) && TableRows(rows) && Send(st, batch, cfg, rbs, rows).Some?
    requires Addressable(f) && rb < MAX_HISTORY_ELEMENTS_PER_FEED && j < Pow(2, f.stride)
    requires f in UpdatedFeeds(batch.updates) ==> RingIndex(RbFor(rbs, f)) != rb
    ensures Sload(Send(st, batch, cfg, rbs, rows).value, ValueAddress(f, rb, j)) == Sload(st, ValueAddress(f, rb, j))
  {
    WindowAfterRows(st, batch, cfg, rbs, rows, f, rb, j);
    WindowAfterValues(st[0 := batch.blockHeight], batch, cfg, rbs, f, rb, j);
    TableBelowValues(f, rb, j, 0);
  }

  lemma SameWindowHolds(st: Storage, st': Storage, f: EncodedFeedId, rb: nat, data: seq<byte>)
    requires SlotHolds(st, f, rb, data)
    requires forall j :: 0 <= j < Pow(2, f.stride) ==> Sload(st', ValueAddress(f, rb, j)) == Sload(st, ValueAddress(f, rb, j))
    ensures SlotHolds(st', f, rb, data)
  {
  }

  /** Each update's words are found at its ring slot. */
  lemma NewValueStored(st: Storage, batch: Batch, cfg: Config, rbs: RoundBufferIndices, rows: map<nat, Lanes>, i: nat)
    requires GoodBatch(batch, cfg) && TableRows(rows) && Send(st, batch, cfg, rbs, rows).Some? && i < |batch.updates|
    ensures var u := batch.updates[i];
            SlotHolds(Send(st, batch, cfg, rbs, rows).value, u.feed,
                      RingIndex(RbFor(rbs, u.feed)), EncodedValue(u, cfg))
  {
    var u := batch.updates[i];
    var rb := RingIndex(RbFor(rbs, u.feed));
    assert GoodUpdate(u, cfg);
    Stages(st, batch, cfg, rbs, rows);
    NewValueAfterValues(st[0 := batch.blockHeight], batch, cfg, rbs, i);
    forall j | 0 <= j < Pow(2, u.feed.stride)
      ensures Sload(Send(st, batch, cfg, rbs, rows).value, ValueAddress(u.feed, rb, j)) ==
              Sload(AfterValues(st, batch, cfg, rbs).value, ValueAddress(u.feed, rb, j))
    {
      WindowAfterRows(st, batch, cfg, rbs, rows, u.feed, rb, j);
    }
    SameWindowHolds(AfterValues(st, batch, cfg, rbs).value, Send(st, batch, cfg, rbs, rows).value,
                    u.feed, rb, EncodedValue(u, cfg));
  }

  lemma RecordsAboveTable(st: Storage, batch: Batch, cfg: Config, rbs: RoundBufferIndices, row: nat)
    requires GoodBatch(batch, cfg) && ApplyValues(st, RecordsOf(batch, cfg, rbs)).Some? && row < TWO_116
    ensures Sload(ApplyValues(st, RecordsOf(batch, cfg, rbs)).value, TableAddress(row)) == Sload(st, TableAddress(row))
  {
    var rs := RecordsOf(batch, cfg, rbs);
    GoodRecords(batch.updates, cfg, rbs);
    forall r | r in rs ensures !InRange(r, TableAddress(row)) {
      var i :| 0 <= i < |rs| && rs[i] == r;
      var u := batch.updates[i];
      GoodRecord(u, cfg, RbFor(rbs, u.feed));
      StrideBounds(u.feed.stride);
    }
    ValuesUntouched(st, rs, TableAddress(row));
  }

  /** The stored height is the batch's own: no value and no row lies at slot 0. */
  lemma HeightAfterBatch(st: Storage, batch: Batch, cfg: Config, rbs: RoundBufferIndices, rows: map<nat, Lanes>)
    requires GoodBatch(batch, cfg) && TableRows(rows) && Send(st, batch, cfg, rbs, rows).Some?
    ensures Sload(Send(st, batch, cfg, rbs, rows).value, 0) == batch.blockHeight
  {
    Stages(st, batch, cfg, rbs, rows);
    var rs := RecordsOf(batch, cfg, rbs);
    GoodRecords(batch.updates, cfg, rbs);
    forall r | r in rs ensures !InRange(r, 0) {
      var i :| 0 <= i < |rs| && rs[i] == r;
      GoodRecord(batch.updates[i], cfg, RbFor(rbs, batch.updates[i].feed));
      StrideBounds(batch.updates[i].feed.stride);
    }
    ValuesUntouched(st[0 := batch.blockHeight], rs, 0);
    RowsAcceptedIff(AfterValues(st, batch, cfg, rbs).value, RowRecords(rows.Keys, rows));
    RowsUntouched(AfterValues(st, batch, cfg, rbs).value, RowRecords(rows.Keys, rows), 0);
  }

  lemma TableAfterRows(st: Storage, rows: map<nat, Lanes>, row: nat)
    requires RealRows(rows) && ApplyRows(st, RowRecords(rows.Keys, rows)).Some?
    ensures Sload(ApplyRows(st, RowRecords(rows.Keys, rows)).value, TableAddress(row)) ==
            if row in rows then WordOf(rows[row]) else Sload(st, TableAddress(row))
  {
    var records := RowRecords(rows.Keys, rows);
    RowRecordsComplete(rows.Keys, rows);
    if row in rows {
      RowRecordsAscending(rows.Keys, rows);
      RowsWritten(st, records, RowRecord(row, RowBytes(rows[row])));
      MaskedRow(rows[row]);
    } else {
      RowsUntouched(st, records, TableAddress(row));
    }
  }

  /** The table word of a row after a batch: the new lanes if the row is listed, else as before. */
  lemma TableAfterBatch(st: Storage, batch: Batch, cfg: Config, rbs: RoundBufferIndices, rows: map<nat, Lanes>, row: nat)
    requires GoodBatch(batch, cfg) && TableRows(rows) && Send(st, batch, cfg, rbs, rows).Some? && row < TWO_116
    ensures Sload(Send(st, batch, cfg, rbs, rows).value, TableAddress(row)) ==
            if row in rows then WordOf(rows[row]) else Sload(st, TableAddress(row))
  {
    Stages(st, batch, cfg, rbs, rows);
    RecordsAboveTable(st[0 := batch.blockHeight], batch, cfg, rbs, row);
    TableAfterRows(AfterValues(st, batch, cfg, rbs).value, rows, row);
  }

  lemma IndexFromRow(st: Storage, f: EncodedFeedId, lanes: Lanes)
    requires Addressable(f) && |lanes| == NUM_FEED_IDS_IN_RB_INDEX_RECORD
    requires forall i :: 0 <= i < |lanes| ==> lanes[i] < 65536
    requires Sload(st, TableAddress(CalcRowIndex(f.id, f.stride))) == WordOf(lanes)
    ensures GetLatestIndex(st, f) == Some(lanes[SlotPosition(f.id)])
  {
    LaneOfWord(lanes, SlotPosition(f.id));
  }

  lemma SameWordSameIndex(st: Storage, st': Storage, f: EncodedFeedId)
    requires Sload(st, TableAddress(CalcRowIndex(f.id, f.stride))) == Sload(st', TableAddress(CalcRowIndex(f.id, f.stride)))
    ensures GetLatestIndex(st, f) == GetLatestIndex(st', f)
  {
  }

  /** The index a feed resolves to after a batch: what the rows have on its slot, else as before. */
  lemma IndexAfterBatch(st: Storage, batch: Batch, cfg: Config, rbs: RoundBufferIndices, rows: map<nat, Lanes>, f: EncodedFeedId)
    requires GoodBatch(batch, cfg) && TableRows(rows) && Send(st, batch, cfg, rbs, rows).Some? && Addressable(f)
    ensures var row := CalcRowIndex(f.id, f.stride);
            row in rows ==> |rows[row]| == NUM_FEED_IDS_IN_RB_INDEX_RECORD
    ensures var row := CalcRowIndex(f.id, f.stride);
            GetLatestIndex(Send(st, batch, cfg, rbs, rows).value, f) ==
            if row in rows then Some(rows[row][SlotPosition(f.id)]) else GetLatestIndex(st, f)
  {
    var st', row := Send(st, batch, cfg, rbs, rows).value, CalcRowIndex(f.id, f.stride);
    RowBound(f);
    TableAfterBatch(st, batch, cfg, rbs, rows, row);
    if row in rows {
      IndexFromRow(st', f, rows[row]);
    } else {
      SameWordSameIndex(st, st', f);
    }
  }
}
