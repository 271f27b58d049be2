/** The aggregated data feed store contract: how it applies calldata to its storage, and how it is read. */
module AdfsContract {
  import opened Arithmetic
  import opened Bytes
  import opened Wrappers
  import opened AdfsLayout
  import opened AdfsRows
  import opened AdfsCalldata
  import opened AdfsDecoder

  /** 256-bit words by storage slot; slots never written hold zero. */
  type Storage = map<nat, nat>

  function Sload(st: Storage, a: nat): nat {
    if a in st then st[a] else 0
  }

  //
  // Writing
  //

  /** Data is stored in words of 32 bytes; what remains is right-aligned in one more word. */
  function Words(data: seq<byte>): (ws: seq<nat>)
    ensures |data| <= 32 * |ws| < |data| + 32
  {
    if data == [] then [] else if |data| < 32 then [FromBE(data)] else [FromBE(data[..32])] + Words(data[32..])
  }

  /** Word `j` is the big-endian number of bytes 32j to 32j + 31, or of what there is of them: the last word is
      right-aligned. */
  lemma {:induction false} WordAt(data: seq<byte>, j: nat)
    requires j < |Words(data)|
    ensures 32 * j < |data|
    ensures Words(data)[j] == FromBE(if 32 * j + 32 <= |data| then data[32 * j..32 * j + 32] else data[32 * j..])
  {
    if |data| < 32 {
      assert data[0..] == data;
    } else if j == 0 {
      assert Words(data)[0] == FromBE(data[..32]);
    } else {
      var rest := data[32..];
      WordAt(rest, j - 1);
      assert Words(data)[j] == Words(rest)[j - 1];
      var at := 32 * (j - 1);
      assert 32 * j == at + 32;
      assert data[at + 32..] == rest[at..];
      if at + 64 <= |data| {
        assert data[at + 32..at + 64] == rest[at..at + 32];
      }
    }
  }

  /** The words determine the data once its length is known. */
  lemma {:induction false} WordsInjective(a: seq<byte>, b: seq<byte>)
    requires |a| == |b| && Words(a) == Words(b)
    ensures a == b
  {
    if |a| >= 32 {
      assert Words(a)[1..] == Words(a[32..]) && Words(b)[1..] == Words(b[32..]);
      FromBEInjective(a[..32], b[..32]);
      WordsInjective(a[32..], b[32..]);
      assert a == a[..32] + a[32..] && b == b[..32] + b[32..];
    } else if a != [] {
      assert Words(a)[0] == FromBE(a) && Words(b)[0] == FromBE(b);
      FromBEInjective(a, b);
    }
  }

  function Write(st: Storage, base: nat, words: seq<nat>): Storage {
    if words == [] then st else Write(st, base, words[..|words| - 1])[base + |words| - 1 := words[|words| - 1]]
  }

  function BaseOf(r: ValueRecord): nat {
    StrideAddress(r.stride) + r.index
  }

  /** Last slot a record is stored at, relative to its region, in 256-bit arithmetic. */
  function LastSlot(r: ValueRecord): nat {
    if r.index + |Words(r.data)| == 0 then TWO_256 - 1 else (r.index + |Words(r.data)| - 1) % TWO_256
  }

  predicate RecordAccepted(r: ValueRecord) {
    r.stride <= 31 && LastSlot(r) <= StrideAddress(r.stride) - 1
  }

  function ApplyValues(st: Storage, rs: seq<ValueRecord>): Option<Storage> {
    if rs == [] then Some(st)
    else
      var st' :- ApplyValues(st, rs[..|rs| - 1]);
      var r := rs[|rs| - 1];
      if RecordAccepted(r) then Some(Write(st', BaseOf(r), Words(r.data))) else None
  }

  /** Sixteen-bit lane of a word, counted from its low end. */
  function Lane(word: nat, k: nat): nat {
    if k == 0 then word % 65536 else Lane(word / 65536, k - 1)
  }

  function WordOf(lanes: Lanes): nat {
    if lanes == [] then 0 else WordOf(lanes[..|lanes| - 1]) * 65536 + lanes[|lanes| - 1]
  }

  function CutLanes(word: nat): (lanes: Lanes)
    ensures |lanes| == NUM_FEED_IDS_IN_RB_INDEX_RECORD
  {
    seq(NUM_FEED_IDS_IN_RB_INDEX_RECORD,
        p requires 0 <= p < NUM_FEED_IDS_IN_RB_INDEX_RECORD => RingIndex(Lane(word, 15 - p)))
  }

  /** Every lane of a table word is cut to a ring index below 8192. */
  function Masked(word: nat): nat {
    WordOf(CutLanes(word))
  }

  function ApplyRows(st: Storage, rows: seq<RowRecord>): Option<Storage> {
    if rows == [] then Some(st)
    else
      var st' :- ApplyRows(st, rows[..|rows| - 1]);
      var r := rows[|rows| - 1];
      if r.row < TWO_116 then Some(st'[TableAddress(r.row) := Masked(FromBE(r.data))]) else None
  }

  /** `setFeeds`; slot 0 holds the latest block height. None stands for a revert. */
  function SetFeeds(st: Storage, calldata: seq<byte>): Option<Storage> {
    var c :- Decode(calldata);
    if c.blockHeight <= Sload(st, 0) then None
    else
      var st' :- ApplyValues(st[0 := c.blockHeight], c.values);
      ApplyRows(st', c.rows)
  }

  /** A record is accepted only at one of 32 strides, and then every word it writes lies in the region of its own
      stride, between the regions of the next smaller and the next larger one. */
  lemma AcceptedStaysInRegion(r: ValueRecord)
    requires RecordAccepted(r) && r.data != [] && r.index + |Words(r.data)| <= TWO_256
    ensures r.stride < 32
    ensures Pow(2, 128 + r.stride) <= BaseOf(r) && BaseOf(r) + |Words(r.data)| <= Pow(2, 129 + r.stride)
  {
    PowAdd(2, 128, r.stride);
    PowAdd(2, 1, 128 + r.stride);
    assert Pow(2, 1) == 2;
    TwoTo128();
    ModKeepsSmall(r.index + |Words(r.data)| - 1, TWO_256);
  }

  /** Records that end within their region are accepted. */
  lemma RegionAccepted(r: ValueRecord)
    requires r.stride < 32 && r.data != [] && r.index + |Words(r.data)| <= Pow(2, 128 + r.stride) <= TWO_256
    ensures RecordAccepted(r)
  {
    PowAdd(2, 128, r.stride);
    TwoTo128();
    ModKeepsSmall(r.index + |Words(r.data)| - 1, TWO_256);
  }

  //
  // Reading
  //

  function GetLatestIndex(st: Storage, f: EncodedFeedId): Option<nat> {
    if !Addressable(f) then None
    else Some(Lane(Sload(st, RING_BUFFER_TABLE_ADDRESS + (TWO_115 * f.stride + f.id) / 16), 15 - f.id % 16))
  }

  function ReadSlots(st: Storage, start: nat, count: nat): (r: seq<nat>)
    ensures |r| == count
    ensures forall j :: 0 <= j < count ==> r[j] == Sload(st, start + j)
  {
    if count == 0 then [] else ReadSlots(st, start, count - 1) + [Sload(st, start + count - 1)]
  }

  function GetDataAtIndex(st: Storage, f: EncodedFeedId, index: nat): Option<seq<nat>> {
    if !Addressable(f) || index >= MAX_HISTORY_ELEMENTS_PER_FEED then None
    else
      var start := StrideAddress(f.stride) +
                   (f.id * MAX_HISTORY_ELEMENTS_PER_FEED) * Pow(2, f.stride) + index * Pow(2, f.stride);
      Some(ReadSlots(st, start, Pow(2, f.stride)))
  }

  function GetLatestData(st: Storage, f: EncodedFeedId): Option<seq<nat>> {
    var index :- GetLatestIndex(st, f);
    GetDataAtIndex(st, f, index)
  }

  /** What can be read: the index of every feed of 32 strides with 2^115 ids each, and the 2^stride words of each of
      its 8192 ring slots. */
  lemma ReadableIff(st: Storage, f: EncodedFeedId, index: nat)
    ensures GetLatestIndex(st, f).Some? <==> f.stride < 32 && f.id < Pow(2, 115)
    ensures GetDataAtIndex(st, f, index).Some? <==> f.stride < 32 && f.id < Pow(2, 115) && index < 8192
    ensures GetDataAtIndex(st, f, index).Some? ==> |GetDataAtIndex(st, f, index).value| == Pow(2, f.stride)
  {
    StorageLayout(f, 0, 0, 0);
  }

  //
  // Which slots are written
  //

  lemma {:induction false} WriteSlots(st: Storage, base: nat, words: seq<nat>, a: nat)
    ensures Sload(Write(st, base, words), a) ==
            if base <= a < base + |words| then words[a - base] else Sload(st, a)
  {
    if words == [] {
    } else {
      WriteSlots(st, base, words[..|words| - 1], a);
    }
  }

  predicate InRange(r: ValueRecord, a: nat) {
    BaseOf(r) <= a < BaseOf(r) + |Words(r.data)|
  }

  /** The value records are accepted one by one, whatever the storage holds. */
  lemma {:induction false} ValuesAcceptedIff(st: Storage, rs: seq<ValueRecord>)
    ensures ApplyValues(st, rs).Some? <==> forall r :: r in rs ==> RecordAccepted(r)
  {
    if rs == [] {
    } else {
      var front, last := rs[..|rs| - 1], rs[|rs| - 1];
      ValuesAcceptedIff(st, front);
      assert forall r :: r in rs <==> r in front || r == last;
    }
  }

  lemma {:induction false} ValuesUntouched(st: Storage, rs: seq<ValueRecord>, a: nat)
    requires ApplyValues(st, rs).Some?
    requires forall r :: r in rs ==> !InRange(r, a)
    ensures Sload(ApplyValues(st, rs).value, a) == Sload(st, a)
  {
    if rs == [] {
    } else {
      var front, last := rs[..|rs| - 1], rs[|rs| - 1];
      ValuesUntouched(st, front, a);
      assert !InRange(last, a);
      WriteSlots(ApplyValues(st, front).value, BaseOf(last), Words(last.data), a);
    }
  }

  ghost predicate LaterRecordsMiss(rs: seq<ValueRecord>, i: nat, address: nat) {
    forall k :: i < k < |rs| ==> !InRange(rs[k], address)
  }

  /** A word of a record stays unless a later record writes to its slot. */
  lemma {:induction false} ValuesWritten(st: Storage, rs: seq<ValueRecord>, i: nat, j: nat)
    requires ApplyValues(st, rs).Some? && i < |rs| && j < |Words(rs[i].data)|
    requires LaterRecordsMiss(rs, i, BaseOf(rs[i]) + j)
    ensures Sload(ApplyValues(st, rs).value, BaseOf(rs[i]) + j) == Words(rs[i].data)[j]
  {
    var front, last := rs[..|rs| - 1], rs[|rs| - 1];
    WriteSlots(ApplyValues(st, front).value, BaseOf(last), Words(last.data), BaseOf(rs[i]) + j);
    if i == |rs| - 1 {
    } else {
      ValuesWritten(st, front, i, j);
    }
  }

  lemma {:induction false} RowsAcceptedIff(st: Storage, rows: seq<RowRecord>)
    ensures ApplyRows(st, rows).Some? <==> forall r :: r in rows ==> r.row < TWO_116
  {
    if rows == [] {
    } else {
      var front, last := rows[..|rows| - 1], rows[|rows| - 1];
      RowsAcceptedIff(st, front);
      assert forall r :: r in rows <==> r in front || r == last;
    }
  }

  lemma {:induction false} RowsUntouched(st: Storage, rows: seq<RowRecord>, a: nat)
    requires ApplyRows(st, rows).Some?
    requires forall r :: r in rows ==> TableAddress(r.row) != a
    ensures Sload(ApplyRows(st, rows).value, a) == Sload(st, a)
  {
    if rows == [] {
    } else {
      RowsUntouched(st, rows[..|rows| - 1], a);
    }
  }

  lemma {:induction false} RowsWritten(st: Storage, rows: seq<RowRecord>, r: RowRecord)
    requires ApplyRows(st, rows).Some? && r in rows
    requires forall i, j :: 0 <= i < j < |rows| ==> rows[i].row < rows[j].row
    ensures Sload(ApplyRows(st, rows).value, TableAddress(r.row)) == Masked(FromBE(r.data))
  {
    if r == rows[|rows| - 1] {
    } else {
      var front := rows[..|rows| - 1];
      assert r in front;
      RowsWritten(st, front, r);
    }
  }

  //
  // Rows as words
  //

  lemma {:induction false} LaneOfWord(lanes: Lanes, p: nat)
    requires p < |lanes| && forall i :: 0 <= i < |lanes| ==> lanes[i] < 65536
    ensures Lane(WordOf(lanes), |lanes| - 1 - p) == lanes[p]
  {
    var front, last := lanes[..|lanes| - 1], lanes[|lanes| - 1];
    DivModUnique(WordOf(lanes), 65536, WordOf(front), last);
    if p == |lanes| - 1 {
    } else {
      LaneOfWord(front, p);
    }
  }

  lemma {:induction false} RowBytesSnoc(lanes: Lanes, v: nat)
    ensures RowBytes(lanes + [v]) == RowBytes(lanes) + ToBE(v, 2)
  {
    if lanes == [] {
      assert [] + [v] == [v] && [v][1..] == [];
    } else {
      assert (lanes + [v])[1..] == lanes[1..] + [v];
      RowBytesSnoc(lanes[1..], v);
    }
  }

  /** The 32 bytes of a row, read as a word, hold its lanes. */
  lemma {:induction false} RowBytesWord(lanes: Lanes)
    requires forall i :: 0 <= i < |lanes| ==> lanes[i] < 65536
    ensures FromBE(RowBytes(lanes)) == WordOf(lanes)
  {
    if lanes == [] {
    } else {
      var front, last := lanes[..|lanes| - 1], lanes[|lanes| - 1];
      assert lanes == front + [last];
      RowBytesSnoc(front, last);
      assert Pow(256, 2) == 65536;
      FromToBESmall(last, 2);
      FromBEConcat(RowBytes(front), ToBE(last, 2));
      RowBytesWord(front);
    }
  }

  lemma MaskedLane(lanes: Lanes, p: nat)
    requires |lanes| == NUM_FEED_IDS_IN_RB_INDEX_RECORD && p < |lanes|
    requires forall i :: 0 <= i < |lanes| ==> lanes[i] < MAX_HISTORY_ELEMENTS_PER_FEED
    ensures CutLanes(WordOf(lanes))[p] == lanes[p]
  {
    LaneOfWord(lanes, p);
  }

  lemma MaskedLanes(lanes: Lanes)
    requires |lanes| == NUM_FEED_IDS_IN_RB_INDEX_RECORD
    requires forall i :: 0 <= i < |lanes| ==> lanes[i] < MAX_HISTORY_ELEMENTS_PER_FEED
    ensures CutLanes(WordOf(lanes)) == lanes
  {
    var cut := CutLanes(WordOf(lanes));
    forall p | 0 <= p < |cut| ensures cut[p] == lanes[p] {
      MaskedLane(lanes, p);
    }
  }

  /** Masking keeps a row whose indices are below 8192. */
  lemma MaskedRow(lanes: Lanes)
    requires |lanes| == NUM_FEED_IDS_IN_RB_INDEX_RECORD
    requires forall i :: 0 <= i < |lanes| ==> lanes[i] < MAX_HISTORY_ELEMENTS_PER_FEED
    ensures Masked(FromBE(RowBytes(lanes))) == WordOf(lanes)
  {
    RowBytesWord(lanes);
    MaskedLanes(lanes);
  }
}
