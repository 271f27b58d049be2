/** Reading calldata back: the record layout of the contract and of the off-chain decoder. */
module AdfsDecoder {
  import opened Arithmetic
  import opened Bytes
  import opened Wrappers
  import opened FeedTypes
  import opened AdfsLayout
  import opened AdfsRows
  import opened AdfsCalldata

  datatype RowRecord = RowRecord(row: nat, data: seq<byte>)

  datatype Calldata = Calldata(blockHeight: nat, values: seq<ValueRecord>, rows: seq<RowRecord>)

  function TakeBytes(bs: seq<byte>, n: nat): Option<(seq<byte>, seq<byte>)> {
    if n <= |bs| then Some((bs[..n], bs[n..])) else None
  }

  function TakeNat(bs: seq<byte>, n: nat): Option<(nat, seq<byte>)> {
    if n <= |bs| then Some((FromBE(bs[..n]), bs[n..])) else None
  }

  /** stride, index length, index, size length, size, data */
  function DecodeValue(bs: seq<byte>): Option<(ValueRecord, seq<byte>)> {
    var (stride, bs) :- TakeNat(bs, 1);
    var (indexLength, bs) :- TakeNat(bs, 1);
    var (index, bs) :- TakeNat(bs, indexLength);
    var (sizeLength, bs) :- TakeNat(bs, 1);
    var (size, bs) :- TakeNat(bs, sizeLength);
    var (data, bs) :- TakeBytes(bs, size);
    Some((ValueRecord(stride, index, data), bs))
  }

  function DecodeValues(bs: seq<byte>, count: nat): (r: Option<(seq<ValueRecord>, seq<byte>)>)
    ensures r.Some? ==> |r.value.0| == count
  {
    if count == 0 then Some(([], bs))
    else
      var (first, rest) :- DecodeValue(bs);
      var (others, end) :- DecodeValues(rest, count - 1);
      Some(([first] + others, end))
  }

  /** index length, index, 32 bytes of ring indices, until the calldata ends */
  function DecodeRows(bs: seq<byte>): Option<seq<RowRecord>> {
    if bs == [] then Some([])
    else
      var (indexLength, rest) :- TakeNat(bs, 1);
      var (row, rest) :- TakeNat(rest, indexLength);
      var (data, rest) :- TakeBytes(rest, 32);
      var others :- DecodeRows(rest);
      Some([RowRecord(row, data)] + others)
  }

  function Decode(bs: seq<byte>): Option<Calldata> {
    var (selector, bs) :- TakeNat(bs, 1);
    if selector != 1 then None
    else
      var (blockHeight, bs) :- TakeNat(bs, 8);
      var (count, bs) :- TakeNat(bs, 4);
      var (values, bs) :- DecodeValues(bs, count);
      var rows :- DecodeRows(bs);
      Some(Calldata(blockHeight, values, rows))
  }

  //
  // One field at a time
  //

  lemma TakePrefix(a: seq<byte>, rest: seq<byte>)
    ensures TakeBytes(a + rest, |a|) == Some((a, rest))
    ensures TakeNat(a + rest, |a|) == Some((FromBE(a), rest))
  {
    assert (a + rest)[..|a|] == a && (a + rest)[|a|..] == rest;
  }

  lemma TakeFixed(n: nat, width: nat, rest: seq<byte>)
    requires n < Pow(256, width)
    ensures TakeNat(ToBE(n, width) + rest, width) == Some((n, rest))
  {
    TakePrefix(ToBE(n, width), rest);
    FromToBESmall(n, width);
  }

  lemma OneByte(n: nat, rest: seq<byte>)
    requires n < 256
    ensures TakeNat(ToBE(n, 1) + rest, 1) == Some((n, rest))
  {
    assert Pow(256, 1) == 256;
    TakeFixed(n, 1, rest);
  }

  /** A length byte followed by that many bytes of a truncated number. */
  lemma TakeTruncated(n: nat, width: nat, rest: seq<byte>)
    requires 0 < width < 256 && n < Pow(256, width)
    ensures var digits := TruncateLeadingZeroBytes(ToBE(n, width));
            && TakeNat(ToBE(|digits|, 1) + (digits + rest), 1) == Some((|digits|, digits + rest))
            && TakeNat(digits + rest, |digits|) == Some((n, rest))
  {
    var digits := TruncateLeadingZeroBytes(ToBE(n, width));
    TruncatedRoundTrip(n, width);
    OneByte(|digits|, digits + rest);
    TakePrefix(digits, rest);
  }

  //
  // Value records
  //

  ghost predicate Printable(r: ValueRecord) {
    r.stride < 256 && r.index < TWO_256 && |r.data| < TWO_64
  }

  lemma EncodeValueGrouped(r: ValueRecord, rest: seq<byte>)
    ensures var index := TruncateLeadingZeroBytes(ToBE(r.index, 32));
            var length := TruncateLeadingZeroBytes(ToBE(|r.data|, 8));
            EncodeValue(r) + rest ==
            ToBE(r.stride, 1) + (ToBE(|index|, 1) + (index + (ToBE(|length|, 1) + (length + (r.data + rest)))))
  {
    var index := TruncateLeadingZeroBytes(ToBE(r.index, 32));
    var length := TruncateLeadingZeroBytes(ToBE(|r.data|, 8));
    Regroup(ToBE(r.stride, 1), ToBE(|index|, 1), index, ToBE(|length|, 1), length, r.data, rest);
  }

  lemma Regroup(a: seq<byte>, b: seq<byte>, c: seq<byte>, d: seq<byte>, e: seq<byte>, f: seq<byte>, g: seq<byte>)
    ensures a + b + c + d + e + f + g == a + (b + (c + (d + (e + (f + g)))))
  {
  }

  lemma DecodeValueInverse(r: ValueRecord, rest: seq<byte>)
    requires Printable(r)
    ensures DecodeValue(EncodeValue(r) + rest) == Some((r, rest))
  {
    var index := TruncateLeadingZeroBytes(ToBE(r.index, 32));
    var length := TruncateLeadingZeroBytes(ToBE(|r.data|, 8));
    EncodeValueGrouped(r, rest);
    Pow256Values();
    OneByte(r.stride, ToBE(|index|, 1) + (index + (ToBE(|length|, 1) + (length + (r.data + rest)))));
    TakeTruncated(r.index, 32, ToBE(|length|, 1) + (length + (r.data + rest)));
    TakeTruncated(|r.data|, 8, r.data + rest);
    TakePrefix(r.data, rest);
  }

  lemma EncodeValuesSnoc(rs: seq<ValueRecord>, r: ValueRecord)
    ensures EncodeValues(rs + [r]) == EncodeValues(rs) + EncodeValue(r)
  {
    assert (rs + [r])[..|rs|] == rs;
  }

  lemma {:induction false} EncodeValuesCons(r: ValueRecord, rs: seq<ValueRecord>)
    ensures EncodeValues([r] + rs) == EncodeValue(r) + EncodeValues(rs)
  {
    if rs == [] {
      EncodeValuesSnoc([], r);
      assert [] + [r] == [r] + rs;
      assert EncodeValues([]) + EncodeValue(r) == EncodeValue(r) + EncodeValues([]);
    } else {
      var front, last := rs[..|rs| - 1], rs[|rs| - 1];
      assert rs == front + [last] && [r] + rs == ([r] + front) + [last];
      EncodeValuesSnoc(front, last);
      EncodeValuesSnoc([r] + front, last);
      EncodeValuesCons(r, front);
      Associative(EncodeValue(r), EncodeValues(front), EncodeValue(last));
    }
  }

  lemma {:induction false} DecodeValuesInverse(rs: seq<ValueRecord>, rest: seq<byte>)
    requires forall r :: r in rs ==> Printable(r)
    ensures DecodeValues(EncodeValues(rs) + rest, |rs|) == Some((rs, rest))
  {
    if rs == [] {
      assert EncodeValues(rs) + rest == rest;
    } else {
      assert rs == [rs[0]] + rs[1..];
      EncodeValuesCons(rs[0], rs[1..]);
      Associative(EncodeValue(rs[0]), EncodeValues(rs[1..]), rest);
      DecodeValueInverse(rs[0], EncodeValues(rs[1..]) + rest);
      DecodeValuesInverse(rs[1..], rest);
    }
  }

  //
  // Row records
  //

  /** The rows of a table in ascending order. */
  ghost function RowRecords(keys: set<nat>, rows: map<nat, Lanes>): seq<RowRecord>
    requires keys <= rows.Keys
    decreases keys
  {
    if keys == {} then []
    else [RowRecord(Least(keys), RowBytes(rows[Least(keys)]))] + RowRecords(keys - {Least(keys)}, rows)
  }

  ghost predicate PrintableRows(rows: map<nat, Lanes>) {
    forall row :: row in rows ==> row < TWO_256 && |rows[row]| == NUM_FEED_IDS_IN_RB_INDEX_RECORD
  }

  /** The length byte of a row agrees with the bytes that follow it. */
  lemma RowLengthByte(row: nat)
    ensures var trimmed := |SkipZeros(ToBE(row, 32))|;
            (if trimmed > 1 then trimmed else 1) == |TruncateLeadingZeroBytes(ToBE(row, 32))|
  {
  }

  lemma DecodeRowInverse(row: nat, lanes: Lanes, rest: seq<byte>)
    requires row < TWO_256 && |lanes| == NUM_FEED_IDS_IN_RB_INDEX_RECORD
    ensures DecodeRows(EncodeRow(row, lanes) + rest) ==
            match DecodeRows(rest)
            case None => None
            case Some(others) => Some([RowRecord(row, RowBytes(lanes))] + others)
  {
    var digits := TruncateLeadingZeroBytes(ToBE(row, 32));
    var data := RowBytes(lanes);
    RowLengthByte(row);
    Regroup4(ToBE(|digits|, 1), digits, data, rest);
    Pow256Values();
    TakeTruncated(row, 32, data + rest);
    TakePrefix(data, rest);
  }

  lemma Regroup4(a: seq<byte>, b: seq<byte>, c: seq<byte>, d: seq<byte>)
    ensures a + b + c + d == a + (b + (c + d))
  {
  }

  lemma {:induction false} DecodeRowsInverse(keys: set<nat>, rows: map<nat, Lanes>)
    requires keys <= rows.Keys && PrintableRows(rows)
    ensures DecodeRows(EncodeRows(keys, rows)) == Some(RowRecords(keys, rows))
    decreases keys
  {
    if keys == {} {
    } else {
      var row := Least(keys);
      DecodeRowsInverse(keys - {row}, rows);
      DecodeRowInverse(row, rows[row], EncodeRows(keys - {row}, rows));
    }
  }

  //
  // The whole calldata
  //

  ghost predicate AllEmitted(batch: Batch, cfg: Config, rbs: RoundBufferIndices) {
    forall u :: u in batch.updates ==> EmittedRecord(u, cfg, RbFor(rbs, u.feed)).Some?
  }

  /** Widths of the source's integer types. */
  ghost predicate WellTyped(batch: Batch, cfg: Config) {
    && batch.blockHeight < TWO_64 && |batch.updates| < TWO_32
    && (forall f :: f in cfg ==> cfg[f].stride < 256)
    && (forall u :: u in batch.updates ==> ValueLength(u, cfg) < TWO_64)
  }

  function ValueLength(u: VotedFeedUpdate, cfg: Config): nat {
    var encoded := AsBytes(u.value, ValueConfig(cfg, u.feed).decimals, u.endSlotTimestamp);
    if encoded.Ok? then |encoded.value| else 0
  }

  lemma {:induction false} EmittedCount(updates: seq<VotedFeedUpdate>, cfg: Config, rbs: RoundBufferIndices)
    ensures |EmittedRecords(updates, cfg, rbs)| <= |updates|
    ensures |EmittedRecords(updates, cfg, rbs)| == |updates| <==>
            forall u :: u in updates ==> EmittedRecord(u, cfg, RbFor(rbs, u.feed)).Some?
  {
    if updates == [] {
    } else {
      var front, last := updates[..|updates| - 1], updates[|updates| - 1];
      EmittedCount(front, cfg, rbs);
      assert forall u :: u in updates <==> u in front || u == last;
    }
  }

  lemma EmittedRecordPrintable(u: VotedFeedUpdate, cfg: Config, rb: nat)
    requires forall f :: f in cfg ==> cfg[f].stride < 256
    requires ValueLength(u, cfg) < TWO_64
    ensures var r := EmittedRecord(u, cfg, rb); r.Some? ==> Printable(r.value)
  {
    ModKeepsSmall(RingSlot(u.feed, rb % MAX_HISTORY_ELEMENTS_PER_FEED) * Pow(2, ValueConfig(cfg, u.feed).stride), TWO_256);
  }

  lemma {:induction false} EmittedPrintable(updates: seq<VotedFeedUpdate>, cfg: Config, rbs: RoundBufferIndices)
    requires forall f :: f in cfg ==> cfg[f].stride < 256
    requires forall u :: u in updates ==> ValueLength(u, cfg) < TWO_64
    ensures forall r :: r in EmittedRecords(updates, cfg, rbs) ==> Printable(r)
  {
    if updates == [] {
    } else {
      var u := updates[|updates| - 1];
      EmittedPrintable(updates[..|updates| - 1], cfg, rbs);
      EmittedRecordPrintable(u, cfg, RbFor(rbs, u.feed));
    }
  }

  ghost predicate RoundTrips(batch: Batch, cfg: Config, rbs: RoundBufferIndices, rows: map<nat, Lanes>) {
    Decode(Serialized(batch, cfg, rbs, rows)) ==
    Some(Calldata(batch.blockHeight, EmittedRecords(batch.updates, cfg, rbs), RowRecords(rows.Keys, rows)))
  }

  lemma DecodeHeader(batch: Batch, rest: seq<byte>)
    requires batch.blockHeight < TWO_64 && |batch.updates| < TWO_32
    ensures Decode(Header(batch) + rest) ==
            match DecodeValues(rest, |batch.updates|)
            case None => None
            case Some((values, rest')) =>
              match DecodeRows(rest') case None => None case Some(rows) => Some(Calldata(batch.blockHeight, values, rows))
  {
    assert ToBE(1, 1) == [1];
    Pow256Values();
    assert Pow(256, 4) == TWO_32;
    Regroup4([1], ToBE(batch.blockHeight, 8), ToBE(|batch.updates|, 4), rest);
    OneByte(1, ToBE(batch.blockHeight, 8) + (ToBE(|batch.updates|, 4) + rest));
    TakeFixed(batch.blockHeight, 8, ToBE(|batch.updates|, 4) + rest);
    TakeFixed(|batch.updates|, 4, rest);
  }

  /** The decoder recovers height, every value record in order and the rows in ascending order
      exactly when no update was skipped: a skipped update is still counted in the header. */
  lemma DecodeSerialized(batch: Batch, cfg: Config, rbs: RoundBufferIndices, rows: map<nat, Lanes>)
    requires WellTyped(batch, cfg) && PrintableRows(rows)
    ensures RoundTrips(batch, cfg, rbs, rows) <==> AllEmitted(batch, cfg, rbs)
  {
    var rs := EmittedRecords(batch.updates, cfg, rbs);
    var tail := EncodeRows(rows.Keys, rows);
    Associative(Header(batch), EncodeValues(rs), tail);
    DecodeHeader(batch, EncodeValues(rs) + tail);
    EmittedCount(batch.updates, cfg, rbs);
    if AllEmitted(batch, cfg, rbs) {
      EmittedPrintable(batch.updates, cfg, rbs);
      DecodeValuesInverse(rs, tail);
      DecodeRowsInverse(rows.Keys, rows);
    }
  }
}
