/** What calldata determines, and why the reporter rebuilds the sequencer's bytes. */
module AdfsAgreement {
  import opened Arithmetic
  import opened Bytes
  import opened Wrappers
  import opened AdfsLayout
  import opened AdfsRows
  import opened Sets
  import opened AdfsCalldata
  import opened AdfsDecoder

  //
  // Serialisation is injective
  //

  ghost predicate RealRows(rows: map<nat, Lanes>) {
    && PrintableRows(rows)
    && forall row, p :: row in rows && 0 <= p < |rows[row]| ==> rows[row][p] < MAX_HISTORY_ELEMENTS_PER_FEED
  }

  lemma {:induction false} RowBytesInjective(a: Lanes, b: Lanes)
    requires |a| == |b| && RowBytes(a) == RowBytes(b)
    requires forall p :: 0 <= p < |a| ==> a[p] < 65536 && b[p] < 65536
    ensures a == b
  {
    if a == [] {
    } else {
      assert RowBytes(a)[..2] == ToBE(a[0], 2) && RowBytes(a)[2..] == RowBytes(a[1..]);
      assert RowBytes(b)[..2] == ToBE(b[0], 2) && RowBytes(b)[2..] == RowBytes(b[1..]);
      assert Pow(256, 2) == 65536;
      FromToBESmall(a[0], 2);
      FromToBESmall(b[0], 2);
      RowBytesInjective(a[1..], b[1..]);
      assert a == [a[0]] + a[1..] && b == [b[0]] + b[1..];
    }
  }

  lemma {:induction false} RowRecordsInjective(keysA: set<nat>, a: map<nat, Lanes>, keysB: set<nat>, b: map<nat, Lanes>)
    requires keysA <= a.Keys && keysB <= b.Keys && RealRows(a) && RealRows(b)
    requires RowRecords(keysA, a) == RowRecords(keysB, b)
    ensures keysA == keysB && forall row :: row in keysA ==> a[row] == b[row]
    decreases keysA
  {
    assert keysA == {} <==> |RowRecords(keysA, a)| == 0;
    assert keysB == {} <==> |RowRecords(keysB, b)| == 0;
    if keysA == {} {
    } else {
      var row := Least(keysA);
      assert RowRecords(keysA, a)[0] == RowRecords(keysB, b)[0];
      assert RowRecords(keysA, a)[1..] == RowRecords(keysA - {row}, a);
      assert RowRecords(keysB, b)[1..] == RowRecords(keysB - {row}, b);
      RowBytesInjective(a[row], b[row]);
      RowRecordsInjective(keysA - {row}, a, keysB - {row}, b);
      assert keysA == keysA - {row} + {row} && keysB == keysB - {row} + {row};
    }
  }

  lemma RowRecordsUnfold(keys: set<nat>, rows: map<nat, Lanes>)
    requires keys != {} && keys <= rows.Keys
    ensures RowRecords(keys, rows) ==
            [RowRecord(Least(keys), RowBytes(rows[Least(keys)]))] + RowRecords(keys - {Least(keys)}, rows)
  {
  }

  /** Each row of the table is recorded, with its 32 bytes, and nothing else is. */
  lemma {:induction false} RowRecordsComplete(keys: set<nat>, rows: map<nat, Lanes>)
    requires keys <= rows.Keys
    ensures forall r :: r in RowRecords(keys, rows) <==> r.row in keys && r.data == RowBytes(rows[r.row])
    decreases keys
  {
    if keys == {} {
    } else {
      RowRecordsUnfold(keys, rows);
      RowRecordsComplete(keys - {Least(keys)}, rows);
    }
  }

  /** The rows come out in strictly ascending order. */
  lemma {:induction false} RowRecordsAscending(keys: set<nat>, rows: map<nat, Lanes>)
    requires keys <= rows.Keys
    ensures forall i, j :: 0 <= i < j < |RowRecords(keys, rows)| ==>
              RowRecords(keys, rows)[i].row < RowRecords(keys, rows)[j].row
    decreases keys
  {
    if keys == {} {
    } else {
      var least := Least(keys);
      var rest := RowRecords(keys - {least}, rows);
      RowRecordsUnfold(keys, rows);
      RowRecordsAscending(keys - {least}, rows);
      RowRecordsComplete(keys - {least}, rows);
      forall j | 0 <= j < |rest| ensures least < rest[j].row {
        assert rest[j] in rest;
      }
    }
  }

  /** Equal calldata means equal height, equal value records and equal rows. */
  lemma SerializationInjective(b1: Batch, cfg1: Config, rbs1: RoundBufferIndices, rows1: map<nat, Lanes>,
                               b2: Batch, cfg2: Config, rbs2: RoundBufferIndices, rows2: map<nat, Lanes>)
    requires WellTyped(b1, cfg1) && AllEmitted(b1, cfg1, rbs1) && RealRows(rows1)
    requires WellTyped(b2, cfg2) && AllEmitted(b2, cfg2, rbs2) && RealRows(rows2)
    requires Serialized(b1, cfg1, rbs1, rows1) == Serialized(b2, cfg2, rbs2, rows2)
    ensures b1.blockHeight == b2.blockHeight
    ensures EmittedRecords(b1.updates, cfg1, rbs1) == EmittedRecords(b2.updates, cfg2, rbs2)
    ensures rows1 == rows2
  {
    DecodeSerialized(b1, cfg1, rbs1, rows1);
    DecodeSerialized(b2, cfg2, rbs2, rows2);
    RowRecordsInjective(rows1.Keys, rows1, rows2.Keys, rows2);
  }

  /** A value record identifies feed, ring slot and encoded value. */
  lemma RecordIdentifiesUpdate(u: VotedFeedUpdate, rb: nat, v: VotedFeedUpdate, rb': nat, cfg: Config)
    requires Addressable(u.feed) && ValueConfig(cfg, u.feed).stride == u.feed.stride
    requires Addressable(v.feed) && ValueConfig(cfg, v.feed).stride == v.feed.stride
    requires EmittedRecord(u, cfg, rb).Some? && EmittedRecord(u, cfg, rb) == EmittedRecord(v, cfg, rb')
    ensures u.feed == v.feed
    ensures RingIndex(rb) == RingIndex(rb')
  {
    PowPositive(2, u.feed.stride);
    NoAddressCollision(u.feed, RingIndex(rb), 0, v.feed, RingIndex(rb'), 0);
  }

  //
  // Sequencer and reporter
  //

  ghost predicate KeysFit(batch: Batch, cfg: Config) {
    && (forall u :: u in batch.updates ==> u.feed.Valid())
    && (forall f :: f in cfg ==> cfg[f].stride < 256)
  }

  ghost function CollectedInfo(batch: Batch, cfg: Config, rc: RoundBufferIndices): FeedsInfo {
    InfoOf(NeighbourSet(batch.updates), cfg, rc)
  }

  /** The indices the sequencer ships with the batch: the counters of all collected feeds. */
  ghost function ShippedIndices(batch: Batch, rc: RoundBufferIndices): RoundBufferIndices {
    map f | f in NeighbourSet(batch.updates) :: RbFor(rc, f)
  }

  lemma UpdatedFeedIsListed(batch: Batch, u: VotedFeedUpdate)
    requires u in batch.updates
    ensures u.feed in NeighbourSet(batch.updates)
  {
    NeighbourIff(u.feed, u.feed);
  }

  /** The sequencer's call fills an empty map with the shipped indices; from them the reporter collects
      the same feeds and counters, each with the stride of its own configuration, and leaves the map unchanged. */
  lemma ReporterCollectsTheSame(batch: Batch, cs: Config, cr: Config, rc: RoundBufferIndices)
    ensures var m := ShippedIndices(batch, rc);
            var sent, rebuilt := CollectedInfo(batch, cs, rc), CollectedInfo(batch, cr, rc);
            && Recorded(sent, sent.Keys, map[]) == m
            && InfoOf(ListedFeeds(batch, None, m), cr, RbSource(None, m)) == rebuilt
            && Recorded(rebuilt, rebuilt.Keys, m) == m
            && sent.Keys == rebuilt.Keys
            && forall f :: f in sent ==> sent[f].rbIndex == rebuilt[f].rbIndex
  {
    var m := ShippedIndices(batch, rc);
    assert ListedFeeds(batch, None, m) == NeighbourSet(batch.updates);
  }

  lemma {:induction false} SameIndicesSameRecords(updates: seq<VotedFeedUpdate>, cfg: Config, a: RoundBufferIndices, b: RoundBufferIndices)
    requires forall u :: u in updates ==> RbFor(a, u.feed) == RbFor(b, u.feed)
    ensures EmittedRecords(updates, cfg, a) == EmittedRecords(updates, cfg, b)
  {
    if updates == [] {
    } else {
      SameIndicesSameRecords(updates[..|updates| - 1], cfg, a, b);
    }
  }

  lemma FilledRowsAreReal(order: seq<EncodedFeedId>, info: FeedsInfo, updated: set<EncodedFeedId>)
    requires forall f :: f in order ==> f in info
    requires forall f :: f in info ==> f.Valid() && info[f].stride < 256
    ensures RealRows(PlaceAll(order, info, updated))
  {
    var rows := PlaceAll(order, info, updated);
    forall row | row in rows ensures row < TWO_256 {
      PlaceAllSlots(order, info, updated, row, 0);
      var f :| f in order && RowOf(f, info) == row;
      RowFits(f.id, info[f].stride);
    }
    forall row, p | row in rows && 0 <= p < |rows[row]| ensures rows[row][p] < MAX_HISTORY_ELEMENTS_PER_FEED {
      PlaceAllSlots(order, info, updated, row, p);
    }
  }

  lemma RowFits(id: nat, stride: nat)
    requires id < TWO_120 && stride < 256
    ensures CalcRowIndex(id, stride) < TWO_256
  {
  }

  lemma CollectedInfoFits(batch: Batch, cfg: Config, rc: RoundBufferIndices)
    requires KeysFit(batch, cfg)
    ensures forall f :: f in CollectedInfo(batch, cfg, rc) ==> f.Valid() && CollectedInfo(batch, cfg, rc)[f].stride < 256
  {
    forall u, f | u in batch.updates && f in NeighbourFeedIds(u.feed) ensures f.Valid() {
      NeighbourIff(u.feed, f);
    }
  }

  ghost function Records(batch: Batch, cfg: Config, rc: RoundBufferIndices): seq<ValueRecord> {
    EmittedRecords(batch.updates, cfg, rc)
  }

  ghost function Rows(batch: Batch, cfg: Config, rc: RoundBufferIndices, order: seq<EncodedFeedId>): (rows: map<nat, Lanes>)
    requires Enumerates(order, CollectedInfo(batch, cfg, rc).Keys)
  {
    PlaceAll(order, CollectedInfo(batch, cfg, rc), UpdatedFeeds(batch.updates))
  }

  /** What the sequencer sends with its configuration `cs`, and what the reporter rebuilds with its own
      configuration `cr` from the batch and the shipped indices, for the orders their hash maps happen to
      be iterated in. */
  ghost function SequencerBytes(batch: Batch, cs: Config, rc: RoundBufferIndices, order: seq<EncodedFeedId>): seq<byte>
    requires Enumerates(order, CollectedInfo(batch, cs, rc).Keys)
  {
    Serialized(batch, cs, rc, Rows(batch, cs, rc, order))
  }

  ghost function ReporterBytes(batch: Batch, cr: Config, rc: RoundBufferIndices, order: seq<EncodedFeedId>): seq<byte>
    requires Enumerates(order, CollectedInfo(batch, cr, rc).Keys)
  {
    Serialized(batch, cr, ShippedIndices(batch, rc), Rows(batch, cr, rc, order))
  }

  /** The shipped indices are as good as the sequencer's counters. */
  lemma ShippedIndicesSuffice(batch: Batch, cr: Config, rc: RoundBufferIndices, order: seq<EncodedFeedId>)
    requires Enumerates(order, CollectedInfo(batch, cr, rc).Keys)
    ensures ReporterBytes(batch, cr, rc, order) == Serialized(batch, cr, rc, Rows(batch, cr, rc, order))
  {
    forall u | u in batch.updates ensures RbFor(rc, u.feed) == RbFor(ShippedIndices(batch, rc), u.feed) {
      UpdatedFeedIsListed(batch, u);
    }
    SameIndicesSameRecords(batch.updates, cr, rc, ShippedIndices(batch, rc));
  }

  lemma StripHeader(header: seq<byte>, a: seq<byte>, b: seq<byte>, c: seq<byte>, d: seq<byte>)
    requires header + a + b == header + c + d
    ensures a + b == c + d
  {
    assert (header + a + b)[|header|..] == a + b;
    assert (header + c + d)[|header|..] == c + d;
  }

  /** Equal bytes with equally many value records have equal records and rows. */
  lemma BytesDetermine(batch: Batch, rs: seq<ValueRecord>, a: map<nat, Lanes>, rs': seq<ValueRecord>, b: map<nat, Lanes>)
    requires (forall r :: r in rs ==> Printable(r)) && (forall r :: r in rs' ==> Printable(r)) && |rs| == |rs'|
    requires RealRows(a) && RealRows(b)
    requires Header(batch) + EncodeValues(rs) + EncodeRows(a.Keys, a) == Header(batch) + EncodeValues(rs') + EncodeRows(b.Keys, b)
    ensures rs == rs' && a == b
  {
    StripHeader(Header(batch), EncodeValues(rs), EncodeRows(a.Keys, a), EncodeValues(rs'), EncodeRows(b.Keys, b));
    DecodeValuesInverse(rs, EncodeRows(a.Keys, a));
    DecodeValuesInverse(rs', EncodeRows(b.Keys, b));
    DecodeRowsInverse(a.Keys, a);
    DecodeRowsInverse(b.Keys, b);
    RowRecordsInjective(a.Keys, a, b.Keys, b);
  }

  lemma RowsAreReal(batch: Batch, cfg: Config, rc: RoundBufferIndices, order: seq<EncodedFeedId>)
    requires KeysFit(batch, cfg) && Enumerates(order, CollectedInfo(batch, cfg, rc).Keys)
    ensures RealRows(Rows(batch, cfg, rc, order))
  {
    CollectedInfoFits(batch, cfg, rc);
    FilledRowsAreReal(order, CollectedInfo(batch, cfg, rc), UpdatedFeeds(batch.updates));
  }

  /** For one pair of iteration orders. */
  lemma SameBytesIff(batch: Batch, cs: Config, cr: Config, rc: RoundBufferIndices, a: seq<EncodedFeedId>, b: seq<EncodedFeedId>)
    requires KeysFit(batch, cs) && KeysFit(batch, cr) && WellTyped(batch, cs) && WellTyped(batch, cr)
    requires Enumerates(a, CollectedInfo(batch, cs, rc).Keys) && Enumerates(b, CollectedInfo(batch, cr, rc).Keys)
    ensures SequencerBytes(batch, cs, rc, a) == ReporterBytes(batch, cr, rc, b)
            && |Records(batch, cs, rc)| == |Records(batch, cr, rc)| <==>
            Records(batch, cs, rc) == Records(batch, cr, rc) && Rows(batch, cs, rc, a) == Rows(batch, cr, rc, b)
  {
    ShippedIndicesSuffice(batch, cr, rc, b);
    RowsAreReal(batch, cs, rc, a);
    RowsAreReal(batch, cr, rc, b);
    EmittedPrintable(batch.updates, cs, rc);
    EmittedPrintable(batch.updates, cr, rc);
    if SequencerBytes(batch, cs, rc, a) == ReporterBytes(batch, cr, rc, b)
       && |Records(batch, cs, rc)| == |Records(batch, cr, rc)|
    {
      BytesDetermine(batch, Records(batch, cs, rc), Rows(batch, cs, rc, a), Records(batch, cr, rc), Rows(batch, cr, rc, b));
    }
  }

  ghost predicate AlwaysAgree(batch: Batch, cs: Config, cr: Config, rc: RoundBufferIndices) {
    forall a, b :: Enumerates(a, CollectedInfo(batch, cs, rc).Keys) && Enumerates(b, CollectedInfo(batch, cr, rc).Keys)
                   ==> SequencerBytes(batch, cs, rc, a) == ReporterBytes(batch, cr, rc, b)
  }

  /** Sequencer and reporter, each with its own configuration, write equally many value records and produce
      identical bytes whatever their iteration orders, exactly when their value records are equal and
      their rows agree slot by slot. */
  lemma AgreementIff(batch: Batch, cs: Config, cr: Config, rc: RoundBufferIndices)
    requires KeysFit(batch, cs) && KeysFit(batch, cr) && WellTyped(batch, cs) && WellTyped(batch, cr)
    ensures AlwaysAgree(batch, cs, cr, rc) && |Records(batch, cs, rc)| == |Records(batch, cr, rc)| <==>
            && Records(batch, cs, rc) == Records(batch, cr, rc)
            && LanesAgree(CollectedInfo(batch, cs, rc), CollectedInfo(batch, cr, rc), UpdatedFeeds(batch.updates))
  {
    var s, r, updated := CollectedInfo(batch, cs, rc), CollectedInfo(batch, cr, rc), UpdatedFeeds(batch.updates);
    PlacementsAgreeIff(s, r, updated);
    forall a, b | Enumerates(a, s.Keys) && Enumerates(b, r.Keys)
      ensures SequencerBytes(batch, cs, rc, a) == ReporterBytes(batch, cr, rc, b)
              && |Records(batch, cs, rc)| == |Records(batch, cr, rc)| <==>
              Records(batch, cs, rc) == Records(batch, cr, rc) && PlaceAll(a, s, updated) == PlaceAll(b, r, updated)
    {
      SameBytesIff(batch, cs, cr, rc, a, b);
    }
    var a := SomeOrder(s.Keys);
    var b := SomeOrder(r.Keys);
  }

  //
  // When both configurations write the updated feeds alike
  //

  /** The two sides know the updated feeds by the same stride and decimals. */
  ghost predicate SameValues(batch: Batch, cs: Config, cr: Config) {
    forall u :: u in batch.updates ==> ValueConfig(cs, u.feed) == ValueConfig(cr, u.feed)
  }

  lemma {:induction false} SameConfigSameRecords(updates: seq<VotedFeedUpdate>, cs: Config, cr: Config, rbs: RoundBufferIndices)
    requires forall u :: u in updates ==> ValueConfig(cs, u.feed) == ValueConfig(cr, u.feed)
    ensures EmittedRecords(updates, cs, rbs) == EmittedRecords(updates, cr, rbs)
  {
    if updates == [] {
    } else {
      SameConfigSameRecords(updates[..|updates| - 1], cs, cr, rbs);
    }
  }

  lemma SameValuesAgreeIff(batch: Batch, cs: Config, cr: Config, rc: RoundBufferIndices)
    requires KeysFit(batch, cs) && KeysFit(batch, cr) && WellTyped(batch, cs) && WellTyped(batch, cr)
    requires SameValues(batch, cs, cr)
    ensures AlwaysAgree(batch, cs, cr, rc) <==>
            LanesAgree(CollectedInfo(batch, cs, rc), CollectedInfo(batch, cr, rc), UpdatedFeeds(batch.updates))
  {
    SameConfigSameRecords(batch.updates, cs, cr, rc);
    AgreementIff(batch, cs, cr, rc);
  }

  /** Every collected feed is placed by its own stride, and its id fits below the next stride. */
  ghost predicate ConsistentConfig(batch: Batch, cfg: Config) {
    && (forall f :: f in cfg ==> cfg[f].stride == f.stride)
    && (forall u :: u in batch.updates ==> u.feed.id < TWO_115)
  }

  lemma CollectedInfoConsistent(batch: Batch, cfg: Config, rc: RoundBufferIndices)
    requires ConsistentConfig(batch, cfg)
    ensures Consistent(CollectedInfo(batch, cfg, rc))
  {
    forall u, f | u in batch.updates && f in NeighbourFeedIds(u.feed) ensures f.id < TWO_115 {
      NeighbourIff(u.feed, f);
    }
  }

  /** Under a consistent configuration the calldata is one definite byte string. */
  ghost function CalldataOf(batch: Batch, cfg: Config, rc: RoundBufferIndices): seq<byte> {
    Serialized(batch, cfg, rc, RowTable(CollectedInfo(batch, cfg, rc), UpdatedFeeds(batch.updates)))
  }

  lemma SequencerProducesCalldata(batch: Batch, cs: Config, rc: RoundBufferIndices, order: seq<EncodedFeedId>)
    requires ConsistentConfig(batch, cs) && Enumerates(order, CollectedInfo(batch, cs, rc).Keys)
    ensures SequencerBytes(batch, cs, rc, order) == CalldataOf(batch, cs, rc)
  {
    CollectedInfoConsistent(batch, cs, rc);
    RowsExact(order, CollectedInfo(batch, cs, rc), UpdatedFeeds(batch.updates));
  }

  lemma SamePlacements(batch: Batch, cs: Config, cr: Config, rc: RoundBufferIndices)
    requires ConsistentConfig(batch, cs) && ConsistentConfig(batch, cr)
    ensures CollectedInfo(batch, cs, rc) == CollectedInfo(batch, cr, rc)
  {
  }

  lemma SameCalldata(batch: Batch, cs: Config, cr: Config, rc: RoundBufferIndices)
    requires ConsistentConfig(batch, cs) && ConsistentConfig(batch, cr) && SameValues(batch, cs, cr)
    ensures CalldataOf(batch, cs, rc) == CalldataOf(batch, cr, rc)
  {
    SamePlacements(batch, cs, cr, rc);
    SameConfigSameRecords(batch.updates, cs, cr, rc);
  }

  /** Whatever order the sequencer's or the reporter's hash map is iterated in, they produce it, if their
      configurations are consistent and know the updated feeds alike. */
  lemma BothProduceCalldata(batch: Batch, cs: Config, cr: Config, rc: RoundBufferIndices,
                            a: seq<EncodedFeedId>, b: seq<EncodedFeedId>)
    requires ConsistentConfig(batch, cs) && ConsistentConfig(batch, cr) && SameValues(batch, cs, cr)
    requires Enumerates(a, CollectedInfo(batch, cs, rc).Keys) && Enumerates(b, CollectedInfo(batch, cr, rc).Keys)
    ensures SequencerBytes(batch, cs, rc, a) == CalldataOf(batch, cs, rc)
    ensures ReporterBytes(batch, cr, rc, b) == CalldataOf(batch, cs, rc)
  {
    SequencerProducesCalldata(batch, cs, rc, a);
    SequencerProducesCalldata(batch, cr, rc, b);
    ShippedIndicesSuffice(batch, cr, rc, b);
    SameCalldata(batch, cs, cr, rc);
  }
}
