/** Where a feed's values and its ring index live on chain. */
module AdfsLayout {
  import opened Arithmetic
  import opened Bytes

  const MAX_HISTORY_ELEMENTS_PER_FEED: nat := 8192
  const NUM_FEED_IDS_IN_RB_INDEX_RECORD: nat := 16

  const TWO_115: nat := 0x8_0000_0000_0000_0000_0000_0000_0000
  const TWO_116: nat := 0x10_0000_0000_0000_0000_0000_0000_0000
  const TWO_120: nat := 0x100_0000_0000_0000_0000_0000_0000_0000
  const TWO_128: nat := 0x1_0000_0000_0000_0000_0000_0000_0000_0000
  const TWO_160: nat := 0x1_0000_0000_0000_0000_0000_0000_0000_0000_0000_0000

  /** The packed 128-bit feed key: 8 bits of stride above 120 bits of feed id. */
  datatype EncodedFeedId = EncodedFeedId(stride: nat, id: nat) {
    predicate Valid() { stride < 256 && id < TWO_120 }

    function Packed(): nat { stride * TWO_120 + id }
  }

  /** Packed keys are distinct, and ordered by stride, then by id. */
  lemma PackedOrder(f: EncodedFeedId, g: EncodedFeedId)
    ensures f.Valid() <==> f.stride < 256 && f.id < Pow(2, 120)
    ensures f.Valid() && g.Valid() ==> (f.Packed() == g.Packed() <==> f == g)
    ensures f.Valid() && g.Valid() ==>
              (f.Packed() < g.Packed() <==> f.stride < g.stride || (f.stride == g.stride && f.id < g.id))
    ensures f.Packed() == f.stride * Pow(2, 120) + f.id
  {
    TwoTo120();
    if f.stride < g.stride {
      MulLeMul(f.stride + 1, TWO_120, g.stride, TWO_120);
    } else if g.stride < f.stride {
      MulLeMul(g.stride + 1, TWO_120, f.stride, TWO_120);
    }
  }

  lemma TwoTo40()
    ensures Pow(2, 40) == 0x100_0000_0000
  {
    assert Pow(2, 10) == 1024;
    PowAdd(2, 10, 10);
    PowAdd(2, 20, 20);
  }

  lemma TwoTo120()
    ensures TWO_120 == Pow(2, 120)
  {
    TwoTo40();
    PowAdd(2, 40, 40);
    PowAdd(2, 80, 40);
  }

  lemma TwoTo128()
    ensures TWO_128 == Pow(2, 128)
  {
    TwoTo120();
    assert Pow(2, 8) == 256;
    PowAdd(2, 120, 8);
  }

  lemma TwoTo116()
    ensures TWO_115 == Pow(2, 115) && TWO_116 == Pow(2, 116)
  {
    TwoTo120();
    assert Pow(2, 4) == 16 && Pow(2, 5) == 32;
    PowAdd(2, 116, 4);
    PowAdd(2, 115, 5);
  }

  /** Feeds the contract can address: 32 strides with 2^115 ids each. */
  predicate Addressable(f: EncodedFeedId) {
    f.stride < 32 && f.id < TWO_115
  }

  /** The up to 16 feeds whose ring indices share a table row. */
  function NeighbourFeedIds(f: EncodedFeedId): (r: seq<EncodedFeedId>)
    ensures |r| == NUM_FEED_IDS_IN_RB_INDEX_RECORD
  {
    var begin := f.id - f.id % NUM_FEED_IDS_IN_RB_INDEX_RECORD;
    seq(NUM_FEED_IDS_IN_RB_INDEX_RECORD, k requires 0 <= k => EncodedFeedId(f.stride, begin + k))
  }

  function CalcRowIndex(id: nat, stride: nat): nat {
    (TWO_115 * stride + id) / NUM_FEED_IDS_IN_RB_INDEX_RECORD
  }

  function SlotPosition(id: nat): nat {
    id % NUM_FEED_IDS_IN_RB_INDEX_RECORD
  }

  /** Ring slot number `n` of a feed falls on; the ring has 8192 slots. */
  function RingIndex(n: nat): (r: nat)
    ensures r < MAX_HISTORY_ELEMENTS_PER_FEED
    ensures n < MAX_HISTORY_ELEMENTS_PER_FEED ==> r == n
  {
    n % MAX_HISTORY_ELEMENTS_PER_FEED
  }

  /** Position of ring slot `rb` of feed `id` within the region of its stride, in 256-bit arithmetic. */
  function ValueIndex(id: nat, rb: nat, stride: nat): nat {
    ((id * MAX_HISTORY_ELEMENTS_PER_FEED + rb) * Pow(2, stride)) % TWO_256
  }

  /** The feed a table slot belongs to. */
  function FeedAt(row: nat, position: nat): EncodedFeedId {
    var first := row * NUM_FEED_IDS_IN_RB_INDEX_RECORD;
    EncodedFeedId(first / TWO_115, first % TWO_115 + position)
  }

  //
  // The index table
  //

  lemma NeighbourIff(f: EncodedFeedId, g: EncodedFeedId)
    ensures g in NeighbourFeedIds(f) <==> g.stride == f.stride && g.id / 16 == f.id / 16
  {
    var begin := f.id - f.id % 16;
    if g.stride == f.stride && g.id / 16 == f.id / 16 {
      assert NeighbourFeedIds(f)[g.id - begin] == g;
    }
  }

  /** The number of a row's first feed, counting through all strides. */
  lemma RowStart(f: EncodedFeedId)
    ensures CalcRowIndex(f.id, f.stride) * 16 + f.id % 16 == TWO_115 * f.stride + f.id
  {
  }

  /** A table slot determines its feed. */
  lemma FeedAtInverse(f: EncodedFeedId)
    requires f.id < TWO_115
    ensures FeedAt(CalcRowIndex(f.id, f.stride), SlotPosition(f.id)) == f
  {
    RowStart(f);
    DivModUnique(CalcRowIndex(f.id, f.stride) * 16, TWO_115, f.stride, f.id - f.id % 16);
  }

  lemma FeedAtInRow(g: EncodedFeedId, p: nat)
    requires g.id < TWO_115 && p < NUM_FEED_IDS_IN_RB_INDEX_RECORD
    ensures var row := CalcRowIndex(g.id, g.stride);
            var f := FeedAt(row, p);
            CalcRowIndex(f.id, f.stride) == row && SlotPosition(f.id) == p && f.id < TWO_115
  {
    var row := CalcRowIndex(g.id, g.stride);
    var q, r := DivModParts(g.id, 16);
    var f := EncodedFeedId(g.stride, q * 16 + p);
    DivModUnique(f.id, 16, q, p);
    RowStart(g);
    DivModUnique(TWO_115 * f.stride + f.id, 16, row, p);
    FeedAtInverse(f);
  }

  /** (row, position) is injective on feeds. */
  lemma TableSlotInjective(f: EncodedFeedId, g: EncodedFeedId)
    requires f.id < TWO_115 && g.id < TWO_115
    requires CalcRowIndex(f.id, f.stride) == CalcRowIndex(g.id, g.stride)
    requires SlotPosition(f.id) == SlotPosition(g.id)
    ensures f == g
  {
    FeedAtInverse(f);
    FeedAtInverse(g);
  }

  lemma StrideOfRow(f: EncodedFeedId)
    requires f.id < TWO_115
    ensures CalcRowIndex(f.id, f.stride) * 16 / TWO_115 == f.stride
  {
    RowStart(f);
    DivModUnique(CalcRowIndex(f.id, f.stride) * 16, TWO_115, f.stride, f.id - f.id % 16);
  }

  /** Two feeds share a row exactly when they are neighbours. */
  lemma SameRowIffNeighbours(f: EncodedFeedId, g: EncodedFeedId)
    requires f.id < TWO_115 && g.id < TWO_115
    ensures CalcRowIndex(f.id, f.stride) == CalcRowIndex(g.id, g.stride) <==> g in NeighbourFeedIds(f)
  {
    NeighbourIff(f, g);
    RowStart(f);
    RowStart(g);
    StrideOfRow(f);
    StrideOfRow(g);
    SameSixteen(f.id, g.id);
  }

  lemma SameSixteen(a: nat, b: nat)
    ensures a / 16 == b / 16 <==> a - a % 16 == b - b % 16
  {
    var q, r := DivModParts(a, 16);
    var q', r' := DivModParts(b, 16);
  }

  lemma SameRowMeans(f: EncodedFeedId, a: nat, g: EncodedFeedId, b: nat)
    requires f.id < TWO_115 && g.id < TWO_115
    ensures CalcRowIndex(f.id, a) == CalcRowIndex(g.id, b) <==> a == b && f.id / 16 == g.id / 16
    ensures CalcRowIndex(f.id, a) == CalcRowIndex(g.id, b) && SlotPosition(f.id) == SlotPosition(g.id) <==> a == b && f.id == g.id
  {
    var f', g' := EncodedFeedId(a, f.id), EncodedFeedId(b, g.id);
    SameRowIffNeighbours(f', g');
    NeighbourIff(f', g');
    if CalcRowIndex(f.id, a) == CalcRowIndex(g.id, b) && SlotPosition(f.id) == SlotPosition(g.id) {
      TableSlotInjective(f', g');
    }
  }

  lemma RowBound(f: EncodedFeedId)
    requires Addressable(f)
    ensures CalcRowIndex(f.id, f.stride) < TWO_116
  {
  }

  //
  // The value regions
  //

  /** First storage slot of the region that holds the values of a stride. */
  function StrideAddress(stride: nat): nat {
    TWO_128 * Pow(2, stride)
  }

  lemma TwoTo31()
    ensures Pow(2, 31) == 0x8000_0000
  {
    PowAdd(2, 8, 8);
    PowAdd(2, 16, 15);
    assert Pow(2, 8) == 256 && Pow(2, 15) == 32768;
  }

  lemma StrideBounds(stride: nat)
    requires stride < 32
    ensures 1 <= Pow(2, stride) <= 0x8000_0000
    ensures TWO_128 <= StrideAddress(stride) && StrideAddress(stride) + StrideAddress(stride) <= TWO_160
  {
    PowPositive(2, stride);
    TwoTo31();
    PowMono(2, stride, 31);
  }

  /** The ring slots of all feeds of one stride, numbered consecutively. */
  function RingSlot(f: EncodedFeedId, rb: nat): nat {
    f.id * MAX_HISTORY_ELEMENTS_PER_FEED + rb
  }

  /** No wrap-around for addressable feeds, and the whole window stays inside the region. */
  lemma ValueIndexInRegion(f: EncodedFeedId, rb: nat)
    requires Addressable(f) && rb < MAX_HISTORY_ELEMENTS_PER_FEED
    ensures ValueIndex(f.id, rb, f.stride) == RingSlot(f, rb) * Pow(2, f.stride)
    ensures ValueIndex(f.id, rb, f.stride) + Pow(2, f.stride) <= StrideAddress(f.stride) < TWO_160
  {
    var w := Pow(2, f.stride);
    StrideBounds(f.stride);
    assert RingSlot(f, rb) + 1 <= TWO_128;
    MulLeMul(RingSlot(f, rb) + 1, w, TWO_128, w);
    assert (RingSlot(f, rb) + 1) * w == RingSlot(f, rb) * w + w;
  }

  /** Storage slot number `j` of ring slot `rb` of a feed. */
  function ValueAddress(f: EncodedFeedId, rb: nat, j: nat): nat {
    StrideAddress(f.stride) + ValueIndex(f.id, rb, f.stride) + j
  }

  /** Where things are: the values of 32 strides with 2^115 feeds of 8192 ring slots each, from slot 2^(128 + stride)
      on, and the index table ahead of them, from slot 2^128 - 2^116 on. */
  lemma StorageLayout(f: EncodedFeedId, rb: nat, j: nat, row: nat)
    ensures Addressable(f) <==> f.stride < 32 && f.id < Pow(2, 115)
    ensures Addressable(f) && rb < 8192 ==>
              ValueAddress(f, rb, j) == Pow(2, 128 + f.stride) + (f.id * 8192 + rb) * Pow(2, f.stride) + j
    ensures TableAddress(row) == Pow(2, 128) - Pow(2, 116) + row
  {
    TwoTo116();
    TwoTo128();
    PowAdd(2, 128, f.stride);
    if Addressable(f) && rb < MAX_HISTORY_ELEMENTS_PER_FEED {
      ValueIndexInRegion(f, rb);
    }
  }

  /** No two ring slots, of the same or of different feeds, share a storage slot. */
  lemma NoAddressCollision(f: EncodedFeedId, rb: nat, j: nat, g: EncodedFeedId, rb': nat, j': nat)
    requires Addressable(f) && rb < MAX_HISTORY_ELEMENTS_PER_FEED && j < Pow(2, f.stride)
    requires Addressable(g) && rb' < MAX_HISTORY_ELEMENTS_PER_FEED && j' < Pow(2, g.stride)
    requires ValueAddress(f, rb, j) == ValueAddress(g, rb', j')
    ensures f == g && rb == rb' && j == j'
  {
    ValueIndexInRegion(f, rb);
    ValueIndexInRegion(g, rb');
    if f.stride < g.stride {
      RegionsDisjoint(f.stride, g.stride);
      assert false;
    } else if g.stride < f.stride {
      RegionsDisjoint(g.stride, f.stride);
      assert false;
    } else {
      EuclidUnique(Pow(2, f.stride), RingSlot(f, rb), j, RingSlot(g, rb'), j');
      EuclidUnique(MAX_HISTORY_ELEMENTS_PER_FEED, f.id, rb, g.id, rb');
    }
  }

  lemma RegionsDisjoint(s: nat, t: nat)
    requires s < t
    ensures StrideAddress(s) + StrideAddress(s) <= StrideAddress(t)
  {
    PowMono(2, s + 1, t);
  }

  /** Every value region lies above the index table, which lies above slot 0. */
  const RING_BUFFER_TABLE_ADDRESS: nat := TWO_128 - TWO_116

  function TableAddress(row: nat): nat {
    RING_BUFFER_TABLE_ADDRESS + row
  }

  lemma TableBelowValues(f: EncodedFeedId, rb: nat, j: nat, row: nat)
    requires Addressable(f) && rb < MAX_HISTORY_ELEMENTS_PER_FEED && j < Pow(2, f.stride)
    requires row < TWO_116
    ensures 0 < TableAddress(row) < ValueAddress(f, rb, j)
  {
    StrideBounds(f.stride);
  }
}
