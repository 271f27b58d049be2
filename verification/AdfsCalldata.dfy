/** Serialising a batch of feed updates into the calldata of the aggregated data feed store. */
module AdfsCalldata {
  import opened Arithmetic
  import opened Bytes
  import opened Wrappers
  import opened FeedTypes
  import opened AdfsLayout
  import opened AdfsRows
  import opened Sets

  datatype VotedFeedUpdate = VotedFeedUpdate(feed: EncodedFeedId, value: FeedType, endSlotTimestamp: nat)

  datatype StrideAndDecimals = StrideAndDecimals(stride: nat, decimals: nat)

  datatype Batch = Batch(blockHeight: nat, updates: seq<VotedFeedUpdate>)

  type Config = map<EncodedFeedId, StrideAndDecimals>

  type RoundBufferIndices = map<EncodedFeedId, nat>

  /** Bytes a value of each supported stride may take. */
  const STRIDES_SIZES: map<nat, nat> :=
    map[0 := 32, 1 := 64, 2 := 128, 3 := 256, 4 := 512, 5 := 1024, 6 := 2048, 7 := 4096]

  function StrideSize(stride: nat): nat {
    if stride in STRIDES_SIZES then STRIDES_SIZES[stride] else 0
  }

  function RbFor(rbs: RoundBufferIndices, f: EncodedFeedId): nat {
    if f in rbs then rbs[f] else 0
  }

  /** Stride and decimals a value is written with; an unregistered feed gets stride 0 and 18 decimals. */
  function ValueConfig(cfg: Config, f: EncodedFeedId): StrideAndDecimals {
    if f in cfg then cfg[f] else StrideAndDecimals(0, 18)
  }

  /** Stride of the row a feed's index goes to; an unregistered feed keeps the stride of its key. */
  function RowStride(cfg: Config, f: EncodedFeedId): nat {
    if f in cfg then cfg[f].stride else f.stride
  }

  function InfoOf(keys: set<EncodedFeedId>, cfg: Config, rbs: RoundBufferIndices): FeedsInfo {
    map f | f in keys :: Placement(RowStride(cfg, f), RbFor(rbs, f))
  }

  function Elements(feeds: seq<EncodedFeedId>): set<EncodedFeedId> {
    set f | f in feeds
  }

  function UpdatedFeeds(updates: seq<VotedFeedUpdate>): set<EncodedFeedId> {
    set u | u in updates :: u.feed
  }

  function NeighbourSet(updates: seq<VotedFeedUpdate>): set<EncodedFeedId> {
    set u, g | u in updates && g in NeighbourFeedIds(u.feed) :: g
  }

  //
  // Value records
  //

  datatype ValueRecord = ValueRecord(stride: nat, index: nat, data: seq<byte>)

  function EncodeValue(r: ValueRecord): seq<byte> {
    var index := TruncateLeadingZeroBytes(ToBE(r.index, 32));
    var length := TruncateLeadingZeroBytes(ToBE(|r.data|, 8));
    ToBE(r.stride, 1) + ToBE(|index|, 1) + index + ToBE(|length|, 1) + length + r.data
  }

  function EncodeValues(rs: seq<ValueRecord>): seq<byte> {
    if rs == [] then [] else EncodeValues(rs[..|rs| - 1]) + EncodeValue(rs[|rs| - 1])
  }

  /** The record written for an update, unless its value cannot be encoded or is too large. */
  function EmittedRecord(u: VotedFeedUpdate, cfg: Config, rb: nat): Option<ValueRecord> {
    var StrideAndDecimals(stride, decimals) := ValueConfig(cfg, u.feed);
    match AsBytes(u.value, decimals, u.endSlotTimestamp)
    case Err(_) => None
    case Ok(data) =>
      if |data| % TWO_32 > StrideSize(stride) then None
      else Some(ValueRecord(stride, ValueIndex(u.feed.id, RingIndex(rb), stride), data))
  }

  function EmittedRecords(updates: seq<VotedFeedUpdate>, cfg: Config, rbs: RoundBufferIndices): seq<ValueRecord> {
    if updates == [] then []
    else
      var u := updates[|updates| - 1];
      EmittedRecords(updates[..|updates| - 1], cfg, rbs) +
      match EmittedRecord(u, cfg, RbFor(rbs, u.feed)) { case None => [] case Some(r) => [r] }
  }

  function RecordBytes(r: Option<ValueRecord>): seq<byte> {
    match r case None => [] case Some(v) => EncodeValue(v)
  }

  lemma StrideSizes(stride: nat)
    ensures StrideSize(stride) == if stride < 8 then 32 * Pow(2, stride) else 0
  {
    assert Pow(2, 0) == 1 && Pow(2, 1) == 2 && Pow(2, 2) == 4 && Pow(2, 3) == 8;
    assert Pow(2, 4) == 16 && Pow(2, 5) == 32 && Pow(2, 6) == 64 && Pow(2, 7) == 128;
  }

  /** Which updates get a value record: those whose value encodes with the feed's decimals and takes, in 32-bit
      arithmetic, at most 32 bytes for each of the 2^stride slots of a stride below 8. At other strides only an
      empty value does. An unregistered feed counts as one of stride 0 with 18 decimals. */
  lemma RecordEmittedIff(u: VotedFeedUpdate, cfg: Config, rb: nat)
    ensures var s := if u.feed in cfg then cfg[u.feed] else StrideAndDecimals(0, 18);
            var encoded := AsBytes(u.value, s.decimals, u.endSlotTimestamp);
            && (EmittedRecord(u, cfg, rb).Some? <==>
                encoded.Ok? && |encoded.value| % 0x1_0000_0000 <= if s.stride < 8 then 32 * Pow(2, s.stride) else 0)
            && (EmittedRecord(u, cfg, rb).Some? ==>
                EmittedRecord(u, cfg, rb).value ==
                ValueRecord(s.stride, (u.feed.id * 8192 + rb % 8192) * Pow(2, s.stride) % TWO_256, encoded.value))
  {
    StrideSizes(ValueConfig(cfg, u.feed).stride);
  }

  method SerializeUpdate(u: VotedFeedUpdate, cfg: Config, rbIndex: nat) returns (bytes: seq<byte>)
    ensures bytes == RecordBytes(EmittedRecord(u, cfg, rbIndex))
    ensures var s := if u.feed in cfg then cfg[u.feed] else StrideAndDecimals(0, 18);
            var encoded := AsBytes(u.value, s.decimals, u.endSlotTimestamp);
            bytes != [] <==>
            encoded.Ok? && |encoded.value| % 0x1_0000_0000 <= if s.stride < 8 then 32 * Pow(2, s.stride) else 0
  {
    RecordEmittedIff(u, cfg, rbIndex);
    var StrideAndDecimals(stride, decimals) := ValueConfig(cfg, u.feed);
    var encoded := AsBytes(u.value, decimals, u.endSlotTimestamp);
    if encoded.Err? {
      return [];
    }
    var data := encoded.value;
    var index := ValueIndex(u.feed.id, RingIndex(rbIndex), stride);
    if |data| % TWO_32 > StrideSize(stride) {
      return [];
    }
    var lengthBytes := TruncateLeadingZeroBytes(ToBE(|data|, 8));
    var indexBytes := TruncateLeadingZeroBytes(ToBE(index, 32));
    bytes := ToBE(stride, 1) + ToBE(|indexBytes|, 1) + indexBytes + ToBE(|lengthBytes|, 1) + lengthBytes + data;
  }

  //
  // Row records
  //

  function EncodeRow(row: nat, lanes: Lanes): seq<byte> {
    var trimmed := |SkipZeros(ToBE(row, 32))|;
    ToBE(if trimmed > 1 then trimmed else 1, 1) + TruncateLeadingZeroBytes(ToBE(row, 32)) + RowBytes(lanes)
  }

  predicate IsLeast(m: nat, s: set<nat>) {
    m in s && forall k :: k in s ==> m <= k
  }

  lemma {:induction false} HasLeast(s: set<nat>)
    requires s != {}
    ensures exists m :: IsLeast(m, s)
    decreases s
  {
    var k :| k in s;
    if s == {k} {
      assert IsLeast(k, s);
    } else {
      HasLeast(s - {k});
      var m :| IsLeast(m, s - {k});
      assert forall x :: x in s ==> x == k || x in s - {k};
      var least := if m < k then m else k;
      assert IsLeast(least, s);
    }
  }

  function Least(s: set<nat>): (m: nat)
    requires s != {}
    ensures IsLeast(m, s)
  {
    HasLeast(s);
    var m :| m in s && IsLeast(m, s);
    m
  }

  lemma LeastUnique(m: nat, s: set<nat>)
    requires IsLeast(m, s)
    ensures m == Least(s)
  {
  }

  /** The records of the given rows, in ascending order. */
  ghost function EncodeRows(keys: set<nat>, rows: map<nat, Lanes>): seq<byte>
    requires keys <= rows.Keys
    decreases keys
  {
    if keys == {} then []
    else EncodeRow(Least(keys), rows[Least(keys)]) + EncodeRows(keys - {Least(keys)}, rows)
  }

  method SerializeRow(row: nat, text: string, ghost lanes: Lanes) returns (bytes: seq<byte>)
    requires text == RowText(lanes)
    ensures bytes == EncodeRow(row, lanes)
  {
    DecodeRowText(lanes);
    var data := Hex.Decode(text[2..]).value;
    var trimmed := |SkipZeros(ToBE(row, 32))|;
    bytes := ToBE(if trimmed > 1 then trimmed else 1, 1) + TruncateLeadingZeroBytes(ToBE(row, 32)) + data;
  }

  /** Emits the rows in ascending order, decoding each row string. */
  method SerializeRows(texts: map<nat, string>, ghost rows: map<nat, Lanes>) returns (bytes: seq<byte>)
    requires texts == RowTexts(rows)
    ensures bytes == EncodeRows(rows.Keys, rows)
  {
    bytes := [];
    var pending := texts.Keys;
    assert pending == rows.Keys && bytes + EncodeRows(rows.Keys, rows) == EncodeRows(rows.Keys, rows);
    while pending != {}
      invariant pending <= rows.Keys
      invariant bytes + EncodeRows(pending, rows) == EncodeRows(rows.Keys, rows)
      decreases pending
    {
      HasLeast(pending);
      var row :| IsLeast(row, pending);
      LeastUnique(row, pending);
      var packed := SerializeRow(row, texts[row], rows[row]);
      Associative(bytes, packed, EncodeRows(pending - {row}, rows));
      bytes := bytes + packed;
      pending := pending - {row};
    }
  }

  lemma Associative(a: seq<byte>, b: seq<byte>, c: seq<byte>)
    ensures a + b + c == a + (b + c)
  {
  }

  lemma DecodeRowText(lanes: Lanes)
    ensures |RowText(lanes)| >= 2 && Hex.Decode(RowText(lanes)[2..]) == Some(RowBytes(lanes))
  {
    LanesTextBytes(lanes);
    Hex.DecodeEncode(RowBytes(lanes));
    assert RowText(lanes)[2..] == LanesText(lanes);
  }

  //
  // The whole calldata
  //

  function Header(batch: Batch): (bytes: seq<byte>)
    ensures |bytes| == 13
  {
    [1] + ToBE(batch.blockHeight, 8) + ToBE(|batch.updates|, 4)
  }

  ghost function Serialized(batch: Batch, cfg: Config, rbs: RoundBufferIndices, rows: map<nat, Lanes>): seq<byte> {
    Header(batch) + EncodeValues(EmittedRecords(batch.updates, cfg, rbs)) + EncodeRows(rows.Keys, rows)
  }

  /** Collects stride and ring index of the 16 feeds of a row. */
  method CollectNeighbours(f: EncodedFeedId, rc: RoundBufferIndices, cfg: Config, feedsInfo: FeedsInfo)
    returns (feedsInfo': FeedsInfo, rbIndex: nat)
    ensures feedsInfo' == feedsInfo + InfoOf(Elements(NeighbourFeedIds(f)), cfg, rc)
    ensures rbIndex == RbFor(rc, f)
  {
    var neighbours := NeighbourFeedIds(f);
    feedsInfo', rbIndex := feedsInfo, 0;
    for k := 0 to |neighbours|
      invariant feedsInfo' == feedsInfo + InfoOf(Elements(neighbours[..k]), cfg, rc)
      invariant f in neighbours[..k] ==> rbIndex == RbFor(rc, f)
    {
      var g := neighbours[k];
      InfoSnoc(feedsInfo, neighbours[..k], g, cfg, rc);
      feedsInfo' := feedsInfo'[g := Placement(RowStride(cfg, g), RbFor(rc, g))];
      if g == f {
        rbIndex := RbFor(rc, g);
      }
      assert neighbours[..k + 1] == neighbours[..k] + [g];
    }
    assert neighbours[..|neighbours|] == neighbours;
    NeighbourIff(f, f);
  }

  lemma InfoSnoc(info: FeedsInfo, feeds: seq<EncodedFeedId>, g: EncodedFeedId, cfg: Config, rc: RoundBufferIndices)
    ensures (info + InfoOf(Elements(feeds), cfg, rc))[g := Placement(RowStride(cfg, g), RbFor(rc, g))] ==
            info + InfoOf(Elements(feeds + [g]), cfg, rc)
  {
  }

  function RbSource(rbIndices: Option<RoundBufferIndices>, rbIndexes: RoundBufferIndices): RoundBufferIndices {
    match rbIndices case Some(rc) => rc case None => rbIndexes
  }

  function ListedFeeds(batch: Batch, rbIndices: Option<RoundBufferIndices>, rbIndexes: RoundBufferIndices): set<EncodedFeedId> {
    match rbIndices case Some(_) => NeighbourSet(batch.updates) case None => rbIndexes.Keys
  }

  /** Header and the records of the first `i` updates are printed, and their feeds noted. */
  ghost predicate ValuesDone(batch: Batch, i: nat, cfg: Config, rbs: RoundBufferIndices,
                             result: seq<byte>, updated: set<EncodedFeedId>)
    requires i <= |batch.updates|
  {
    && result == Header(batch) + EncodeValues(EmittedRecords(batch.updates[..i], cfg, rbs))
    && updated == UpdatedFeeds(batch.updates[..i])
  }

  lemma OneMoreDone(batch: Batch, i: nat, cfg: Config, rbs: RoundBufferIndices, result: seq<byte>, updated: set<EncodedFeedId>)
    requires i < |batch.updates| && ValuesDone(batch, i, cfg, rbs, result, updated)
    ensures var u := batch.updates[i];
            ValuesDone(batch, i + 1, cfg, rbs, result + RecordBytes(EmittedRecord(u, cfg, RbFor(rbs, u.feed))), updated + {u.feed})
  {
    PrefixSnoc(batch.updates, i);
    UpdatedSnoc(batch.updates[..i], batch.updates[i]);
    EmittedSnoc(Header(batch), batch.updates[..i], batch.updates[i], cfg, rbs);
  }

  lemma OneMoreCollected(updates: seq<VotedFeedUpdate>, i: nat, cfg: Config, rc: RoundBufferIndices)
    requires i < |updates|
    ensures InfoOf(NeighbourSet(updates[..i + 1]), cfg, rc) ==
            InfoOf(NeighbourSet(updates[..i]), cfg, rc) + InfoOf(Elements(NeighbourFeedIds(updates[i].feed)), cfg, rc)
  {
    PrefixSnoc(updates, i);
    CollectedSnoc(updates[..i], updates[i], cfg, rc);
  }

  lemma AllDone(batch: Batch, cfg: Config, rbs: RoundBufferIndices, result: seq<byte>, updated: set<EncodedFeedId>)
    requires ValuesDone(batch, |batch.updates|, cfg, rbs, result, updated)
    ensures result == Header(batch) + EncodeValues(EmittedRecords(batch.updates, cfg, rbs)) && updated == UpdatedFeeds(batch.updates)
  {
    assert batch.updates[..|batch.updates|] == batch.updates;
  }

  /** Header and value records; collects the rows to rewrite if the counters are given. */
  method SerializeValues(batch: Batch, rbIndices: Option<RoundBufferIndices>, cfg: Config, rbIndexes: RoundBufferIndices)
    returns (result: seq<byte>, feedsInfo: FeedsInfo, updated: set<EncodedFeedId>)
    ensures result == Header(batch) + EncodeValues(EmittedRecords(batch.updates, cfg, RbSource(rbIndices, rbIndexes)))
    ensures updated == UpdatedFeeds(batch.updates)
    ensures rbIndices.Some? ==> feedsInfo == InfoOf(NeighbourSet(batch.updates), cfg, rbIndices.value)
  {
    ghost var rbs := RbSource(rbIndices, rbIndexes);
    result, feedsInfo, updated := Header(batch), map[], {};
    var updates := batch.updates;
    for i := 0 to |updates|
      invariant ValuesDone(batch, i, cfg, rbs, result, updated)
      invariant rbIndices.Some? ==> feedsInfo == InfoOf(NeighbourSet(updates[..i]), cfg, rbs)
    {
      var u := updates[i];
      OneMoreDone(batch, i, cfg, rbs, result, updated);
      OneMoreCollected(updates, i, cfg, rbs);
      updated := updated + {u.feed};
      var rbIndex := RbFor(rbIndexes, u.feed);
      if rbIndices.Some? {
        feedsInfo, rbIndex := CollectNeighbours(u.feed, rbIndices.value, cfg, feedsInfo);
      }
      var bytes := SerializeUpdate(u, cfg, rbIndex);
      result := result + bytes;
    }
    AllDone(batch, cfg, rbs, result, updated);
    assert updates[..|updates|] == updates;
  }

  /** For some iteration order of the feeds: with `rbIndices` (the sequencer) the rows come from the counters of all neighbours; without it
      (the reporter) from the indices that came with the batch. Both record the indices used. */
  method AdfsSerializeUpdates(batch: Batch, rbIndices: Option<RoundBufferIndices>, cfg: Config, rbIndexes: RoundBufferIndices)
    returns (result: seq<byte>, feedsRbIndexes: RoundBufferIndices)
    ensures var rbs := RbSource(rbIndices, rbIndexes);
            var info := InfoOf(ListedFeeds(batch, rbIndices, rbIndexes), cfg, rbs);
            && feedsRbIndexes == Recorded(info, info.Keys, rbIndexes)
            && exists order :: Enumerates(order, info.Keys) &&
                 result == Serialized(batch, cfg, rbs, PlaceAll(order, info, UpdatedFeeds(batch.updates)))
  {
    ghost var order;
    var feedsInfo, updated;
    result, feedsInfo, updated := SerializeValues(batch, rbIndices, cfg, rbIndexes);
    if rbIndices.None? {
      feedsInfo := InfoOf(rbIndexes.Keys, cfg, rbIndexes);
    }
    var texts;
    texts, feedsRbIndexes, order := FillRows(feedsInfo, updated, rbIndexes);
    var rows := SerializeRows(texts, PlaceAll(order, feedsInfo, updated));
    result := result + rows;
  }

  lemma UpdatedSnoc(updates: seq<VotedFeedUpdate>, u: VotedFeedUpdate)
    ensures UpdatedFeeds(updates + [u]) == UpdatedFeeds(updates) + {u.feed}
  {
  }

  lemma PrefixSnoc(updates: seq<VotedFeedUpdate>, i: nat)
    requires i < |updates|
    ensures updates[..i + 1] == updates[..i] + [updates[i]]
  {
  }

  lemma EmittedSnoc(header: seq<byte>, updates: seq<VotedFeedUpdate>, u: VotedFeedUpdate, cfg: Config, rbs: RoundBufferIndices)
    ensures header + EncodeValues(EmittedRecords(updates + [u], cfg, rbs)) ==
            header + EncodeValues(EmittedRecords(updates, cfg, rbs)) +
            RecordBytes(EmittedRecord(u, cfg, RbFor(rbs, u.feed)))
  {
    assert (updates + [u])[..|updates|] == updates;
    var rs := EmittedRecords(updates, cfg, rbs);
    match EmittedRecord(u, cfg, RbFor(rbs, u.feed))
    case None =>
      assert rs + [] == rs;
    case Some(r) =>
      assert (rs + [r])[..|rs|] == rs;
      Associative(header, EncodeValues(rs), EncodeValue(r));
  }

  lemma CollectedSnoc(updates: seq<VotedFeedUpdate>, u: VotedFeedUpdate, cfg: Config, rc: RoundBufferIndices)
    ensures InfoOf(NeighbourSet(updates), cfg, rc) + InfoOf(Elements(NeighbourFeedIds(u.feed)), cfg, rc) ==
            InfoOf(NeighbourSet(updates + [u]), cfg, rc)
  {
  }
}
