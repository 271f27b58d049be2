/** The rows of 16 two-byte ring indices that close the calldata. */
module AdfsRows {
  import opened Bytes
  import opened AdfsLayout
  import opened Wrappers
  import opened Hex
  import opened Sets

  /** Row stride and ring index collected for one feed. */
  datatype Placement = Placement(stride: nat, rbIndex: nat)

  type FeedsInfo = map<EncodedFeedId, Placement>

  /** A row as 16 numbers; the calldata holds it as a hexadecimal string until it is emitted. */
  type Lanes = seq<nat>

  function ZeroRow(): (lanes: Lanes)
    ensures |lanes| == NUM_FEED_IDS_IN_RB_INDEX_RECORD
  {
    seq(NUM_FEED_IDS_IN_RB_INDEX_RECORD, _ => 0)
  }

  /** What a row stores for a feed: the index just written, or that of the last value before. */
  function LaneValue(rbIndex: nat, updated: bool): nat {
    RingIndex(if !updated && rbIndex > 0 then rbIndex - 1 else rbIndex)
  }

  function LaneOf(f: EncodedFeedId, info: FeedsInfo, updated: set<EncodedFeedId>): nat
    requires f in info
  {
    LaneValue(info[f].rbIndex, f in updated)
  }

  function RowOf(f: EncodedFeedId, info: FeedsInfo): nat
    requires f in info
  {
    CalcRowIndex(f.id, info[f].stride)
  }

  predicate LandsAt(f: EncodedFeedId, info: FeedsInfo, row: nat, position: nat)
    requires f in info
  {
    RowOf(f, info) == row && SlotPosition(f.id) == position
  }

  //
  // Filling the rows, one feed after the other
  //

  function Place(rows: map<nat, Lanes>, f: EncodedFeedId, info: FeedsInfo, updated: set<EncodedFeedId>): map<nat, Lanes>
    requires f in info
    requires forall row :: row in rows ==> |rows[row]| == NUM_FEED_IDS_IN_RB_INDEX_RECORD
  {
    var row := RowOf(f, info);
    var lanes := if row in rows then rows[row] else ZeroRow();
    rows[row := lanes[SlotPosition(f.id) := LaneOf(f, info, updated)]]
  }

  function PlaceAll(order: seq<EncodedFeedId>, info: FeedsInfo, updated: set<EncodedFeedId>): (rows: map<nat, Lanes>)
    requires forall f :: f in order ==> f in info
    ensures forall row :: row in rows ==> |rows[row]| == NUM_FEED_IDS_IN_RB_INDEX_RECORD
  {
    if order == [] then map[]
    else Place(PlaceAll(order[..|order| - 1], info, updated), order[|order| - 1], info, updated)
  }

  function RowBytes(lanes: Lanes): (bs: seq<byte>)
    ensures |bs| == 2 * |lanes|
  {
    if lanes == [] then [] else ToBE(lanes[0], 2) + RowBytes(lanes[1..])
  }

  /** Two bytes of an index as four hexadecimal characters. */
  function LaneText(v: nat): (s: string)
    ensures |s| == 4
  {
    Encode(ToBE(v, 2))
  }

  function LanesText(lanes: Lanes): (s: string)
    ensures |s| == 4 * |lanes|
  {
    if lanes == [] then "" else LaneText(lanes[0]) + LanesText(lanes[1..])
  }

  function RowText(lanes: Lanes): (s: string)
    ensures |s| == 2 + 4 * |lanes|
  {
    "0x" + LanesText(lanes)
  }

  function RowTexts(rows: map<nat, Lanes>): map<nat, string> {
    map row | row in rows :: RowText(rows[row])
  }

  /** Splices the index of one feed into the string of its row, which starts out as zeros. */
  method SpliceIndex(rows: map<nat, string>, f: EncodedFeedId, info: FeedsInfo, updated: set<EncodedFeedId>,
                     ghost order: seq<EncodedFeedId>)
    returns (rows': map<nat, string>)
    requires f in info && forall g :: g in order ==> g in info
    requires rows == RowTexts(PlaceAll(order, info, updated))
    ensures rows' == RowTexts(PlaceAll(order + [f], info, updated))
  {
    var Placement(stride, rbIndex) := info[f];
    var lane := RingIndex(if f !in updated && rbIndex > 0 then rbIndex - 1 else rbIndex);
    var row := CalcRowIndex(f.id, stride);
    var text := if row in rows then rows[row] else "0x" + seq(64, _ => '0');
    FillStep(order, f, info, updated, rows, text);
    rows' := rows[row := Splice(text, SlotPosition(f.id), LaneText(lane))];
  }

  /** Iterates `feedsInfo` in whatever order the hash map yields, splicing each feed's index into
      the hexadecimal string of its row, and records the indices used. */
  method FillRows(feedsInfo: FeedsInfo, updated: set<EncodedFeedId>, rbIndexes: map<EncodedFeedId, nat>)
    returns (rows: map<nat, string>, feedsRbIndexes: map<EncodedFeedId, nat>, ghost order: seq<EncodedFeedId>)
    ensures Enumerates(order, feedsInfo.Keys)
    ensures rows == RowTexts(PlaceAll(order, feedsInfo, updated))
    ensures feedsRbIndexes == Recorded(feedsInfo, feedsInfo.Keys, rbIndexes)
  {
    rows, feedsRbIndexes, order := map[], rbIndexes, [];
    var pending := feedsInfo.Keys;
    while pending != {}
      invariant pending <= feedsInfo.Keys
      invariant Enumerates(order, feedsInfo.Keys - pending)
      invariant rows == RowTexts(PlaceAll(order, feedsInfo, updated))
      invariant feedsRbIndexes == Recorded(feedsInfo, feedsInfo.Keys - pending, rbIndexes)
      decreases pending
    {
      var f :| f in pending;
      feedsRbIndexes := feedsRbIndexes[f := feedsInfo[f].rbIndex];
      rows := SpliceIndex(rows, f, feedsInfo, updated, order);
      DoneSnoc(feedsInfo.Keys, pending, f);
      EnumeratesSnoc(order, feedsInfo.Keys - pending, f);
      RecordedSnoc(feedsInfo, feedsInfo.Keys - pending, f, rbIndexes);
      order := order + [f];
      pending := pending - {f};
    }
    assert feedsInfo.Keys - pending == feedsInfo.Keys;
  }

  /** Every row string keeps its 66 characters through the splices. */
  lemma RowTextsLength(order: seq<EncodedFeedId>, info: FeedsInfo, updated: set<EncodedFeedId>)
    requires forall f :: f in order ==> f in info
    ensures forall row :: row in PlaceAll(order, info, updated)
                          ==> |RowTexts(PlaceAll(order, info, updated))[row]| == 66
  {
  }

  lemma DoneSnoc(all: set<EncodedFeedId>, pending: set<EncodedFeedId>, f: EncodedFeedId)
    requires f in pending && pending <= all
    ensures all - pending + {f} == all - (pending - {f}) && f !in all - pending
  {
  }

  lemma FillStep(order: seq<EncodedFeedId>, f: EncodedFeedId, info: FeedsInfo, updated: set<EncodedFeedId>,
                 rows: map<nat, string>, text: string)
    requires f in info && forall g :: g in order ==> g in info
    requires rows == RowTexts(PlaceAll(order, info, updated))
    requires text == if RowOf(f, info) in rows then rows[RowOf(f, info)] else "0x" + seq(64, _ => '0')
    ensures |text| == 66
    ensures rows[RowOf(f, info) := Splice(text, SlotPosition(f.id), LaneText(LaneOf(f, info, updated)))] ==
            RowTexts(PlaceAll(order + [f], info, updated))
  {
    PlaceText(PlaceAll(order, info, updated), f, info, updated, text);
    PlaceAllSnoc(order, f, info, updated);
  }

  /** `rbIndexes` after the indices of `keys` have been inserted. */
  function Recorded(info: FeedsInfo, keys: set<EncodedFeedId>, rbIndexes: map<EncodedFeedId, nat>): map<EncodedFeedId, nat>
    requires keys <= info.Keys
  {
    rbIndexes + map f | f in keys :: info[f].rbIndex
  }

  lemma RecordedSnoc(info: FeedsInfo, keys: set<EncodedFeedId>, f: EncodedFeedId, rbIndexes: map<EncodedFeedId, nat>)
    requires keys <= info.Keys && f in info
    ensures Recorded(info, keys, rbIndexes)[f := info[f].rbIndex] == Recorded(info, keys + {f}, rbIndexes)
  {
  }

  lemma PlaceAllSnoc(order: seq<EncodedFeedId>, f: EncodedFeedId, info: FeedsInfo, updated: set<EncodedFeedId>)
    requires f in info && forall g :: g in order ==> g in info
    ensures PlaceAll(order + [f], info, updated) == Place(PlaceAll(order, info, updated), f, info, updated)
  {
    assert (order + [f])[..|order|] == order;
  }

  lemma EnumeratesSnoc(order: seq<EncodedFeedId>, keys: set<EncodedFeedId>, f: EncodedFeedId)
    requires Enumerates(order, keys) && f !in keys
    ensures Enumerates(order + [f], keys + {f})
  {
  }

  /** Splicing one index into a row string is placing it in the row. */
  lemma PlaceText(rows: map<nat, Lanes>, f: EncodedFeedId, info: FeedsInfo, updated: set<EncodedFeedId>, text: string)
    requires f in info
    requires forall row :: row in rows ==> |rows[row]| == NUM_FEED_IDS_IN_RB_INDEX_RECORD
    requires text == if RowOf(f, info) in rows then RowText(rows[RowOf(f, info)]) else "0x" + seq(64, _ => '0')
    ensures |text| == 66
    ensures RowTexts(Place(rows, f, info, updated)) ==
            RowTexts(rows)[RowOf(f, info) := Splice(text, SlotPosition(f.id), LaneText(LaneOf(f, info, updated)))]
  {
    var row := RowOf(f, info);
    var lanes := if row in rows then rows[row] else ZeroRow();
    NewRowText();
    SpliceRowText(lanes, SlotPosition(f.id), LaneOf(f, info, updated));
    RowTextsUpdate(rows, row, lanes[SlotPosition(f.id) := LaneOf(f, info, updated)]);
  }

  lemma NewRowText()
    ensures RowText(ZeroRow()) == "0x" + seq(64, _ => '0')
  {
    ZeroLanesText(ZeroRow());
  }

  function Splice(text: string, p: nat, four: string): (s: string)
    requires |text| == 66 && p < NUM_FEED_IDS_IN_RB_INDEX_RECORD && |four| == 4
    ensures |s| == 66
  {
    text[..4 * p + 2] + four + text[4 * p + 6..]
  }

  lemma RowTextsUpdate(rows: map<nat, Lanes>, row: nat, lanes: Lanes)
    ensures RowTexts(rows[row := lanes]) == RowTexts(rows)[row := RowText(lanes)]
  {
  }

  lemma {:induction false} ZeroLanesText(lanes: Lanes)
    requires forall i :: 0 <= i < |lanes| ==> lanes[i] == 0
    ensures LanesText(lanes) == seq(4 * |lanes|, _ => '0')
  {
    if lanes == [] {
    } else {
      ZeroLanesText(lanes[1..]);
      assert ToBE(0, 2) == [0, 0] && [0, 0][1..] == [0];
      assert LaneText(0) == "0000";
    }
  }

  lemma {:induction false} LanesTextConcat(a: Lanes, b: Lanes)
    ensures LanesText(a + b) == LanesText(a) + LanesText(b)
  {
    if a == [] {
      assert a + b == b;
    } else {
      assert (a + b)[1..] == a[1..] + b;
      LanesTextConcat(a[1..], b);
    }
  }

  /** Replacing four hexadecimal characters of a row string replaces one lane. */
  lemma SpliceRowText(lanes: Lanes, p: nat, v: nat)
    requires p < |lanes| == NUM_FEED_IDS_IN_RB_INDEX_RECORD
    ensures RowText(lanes[p := v]) == Splice(RowText(lanes), p, LaneText(v))
  {
    var a, b := lanes[..p], lanes[p + 1..];
    assert lanes == a + ([lanes[p]] + b) && lanes[p := v] == a + ([v] + b);
    LanesTextAround(a, lanes[p], b);
    LanesTextAround(a, v, b);
    Regroup("0x", LanesText(a), LaneText(lanes[p]), LanesText(b));
    Regroup("0x", LanesText(a), LaneText(v), LanesText(b));
    CutOut("0x" + LanesText(a), LaneText(lanes[p]), LanesText(b));
  }

  lemma LanesTextAround(a: Lanes, v: nat, b: Lanes)
    ensures LanesText(a + ([v] + b)) == LanesText(a) + (LaneText(v) + LanesText(b))
  {
    LanesTextConcat(a, [v] + b);
    assert ([v] + b)[1..] == b;
  }

  lemma Regroup(x: string, a: string, m: string, b: string)
    ensures x + (a + (m + b)) == (x + a) + m + b
  {
  }

  lemma CutOut(a: string, m: string, b: string)
    ensures (a + m + b)[..|a|] == a && (a + m + b)[|a| + |m|..] == b
  {
  }

  /** Decoding the characters of a row gives its 32 bytes. */
  lemma {:induction false} LanesTextBytes(lanes: Lanes)
    ensures LanesText(lanes) == Encode(RowBytes(lanes))
  {
    if lanes == [] {
    } else {
      LanesTextBytes(lanes[1..]);
      EncodeConcat(ToBE(lanes[0], 2), RowBytes(lanes[1..]));
    }
  }

  //
  // Which order the hash map yields
  //

  /** The last feed of `order` whose index goes to the given slot. */
  function LastAt(order: seq<EncodedFeedId>, info: FeedsInfo, row: nat, position: nat): (r: Option<EncodedFeedId>)
    requires forall f :: f in order ==> f in info
    ensures r.Some? ==> r.value in order && LandsAt(r.value, info, row, position)
    ensures r.None? ==> forall f :: f in order ==> !LandsAt(f, info, row, position)
  {
    if order == [] then None
    else
      var f := order[|order| - 1];
      if LandsAt(f, info, row, position) then Some(f) else LastAt(order[..|order| - 1], info, row, position)
  }

  function LaneOfSome(f: Option<EncodedFeedId>, info: FeedsInfo, updated: set<EncodedFeedId>): nat
    requires f.Some? ==> f.value in info
  {
    match f
    case None => 0
    case Some(g) => LaneOf(g, info, updated)
  }

  /** A slot ends up with the index of the last feed placed there, or zero if there is none. */
  lemma {:induction false} PlaceAllSlots(order: seq<EncodedFeedId>, info: FeedsInfo, updated: set<EncodedFeedId>,
                                         row: nat, position: nat)
    requires forall f :: f in order ==> f in info
    requires position < NUM_FEED_IDS_IN_RB_INDEX_RECORD
    ensures row in PlaceAll(order, info, updated) <==> exists f :: f in order && RowOf(f, info) == row
    ensures row in PlaceAll(order, info, updated) ==>
              PlaceAll(order, info, updated)[row][position] ==
              LaneOfSome(LastAt(order, info, row, position), info, updated)
  {
    if order == [] {
    } else {
      var order', f := order[..|order| - 1], order[|order| - 1];
      PlaceAllSlots(order', info, updated, row, position);
      assert forall g :: g in order <==> g in order' || g == f;
    }
  }

  /** Two sides place the same feeds; `s` and `r` may differ in the strides of the rows. */
  ghost predicate PlacementsAgree(s: FeedsInfo, r: FeedsInfo, updated: set<EncodedFeedId>) {
    forall a, b :: Enumerates(a, s.Keys) && Enumerates(b, r.Keys) ==> PlaceAll(a, s, updated) == PlaceAll(b, r, updated)
  }

  ghost predicate HasRow(info: FeedsInfo, row: nat) {
    exists g :: g in info && RowOf(g, info) == row
  }

  ghost predicate Claimed(info: FeedsInfo, row: nat, position: nat) {
    exists g :: g in info && LandsAt(g, info, row, position)
  }

  /** The slot of feed `f` of side `s`, seen from side `r`: the row is there too, whoever claims the slot
      there brings the same index, and if nobody does the index is 0. */
  ghost predicate SlotMatches(s: FeedsInfo, r: FeedsInfo, updated: set<EncodedFeedId>, f: EncodedFeedId)
    requires f in s
  {
    var row, p := RowOf(f, s), SlotPosition(f.id);
    && HasRow(r, row)
    && (forall g :: g in r && LandsAt(g, r, row, p) ==> LaneOf(g, r, updated) == LaneOf(f, s, updated))
    && (!Claimed(r, row, p) ==> LaneOf(f, s, updated) == 0)
  }

  ghost predicate LanesAgree(s: FeedsInfo, r: FeedsInfo, updated: set<EncodedFeedId>) {
    && (forall f :: f in s ==> SlotMatches(s, r, updated, f))
    && (forall f :: f in r ==> SlotMatches(r, s, updated, f))
  }

  /** Where two sides disagree. */
  lemma Mismatch(s: FeedsInfo, r: FeedsInfo, updated: set<EncodedFeedId>) returns (f: EncodedFeedId, atS: bool)
    requires !LanesAgree(s, r, updated)
    ensures atS ==> f in s && !SlotMatches(s, r, updated, f)
    ensures !atS ==> f in r && !SlotMatches(r, s, updated, f)
  {
    if g :| g in s && !SlotMatches(s, r, updated, g) {
      f, atS := g, true;
    } else {
      f :| f in r && !SlotMatches(r, s, updated, f);
      atS := false;
    }
  }

  lemma SameRows(a: map<nat, Lanes>, b: map<nat, Lanes>)
    requires a.Keys == b.Keys
    requires forall row :: row in a ==> |a[row]| == |b[row]| == NUM_FEED_IDS_IN_RB_INDEX_RECORD
    requires forall row, p :: row in a && 0 <= p < NUM_FEED_IDS_IN_RB_INDEX_RECORD ==> a[row][p] == b[row][p]
    ensures a == b
  {
    forall row | row in a ensures a[row] == b[row] {
    }
  }

  lemma RowPlacedIff(a: seq<EncodedFeedId>, info: FeedsInfo, updated: set<EncodedFeedId>, row: nat)
    requires Enumerates(a, info.Keys)
    ensures row in PlaceAll(a, info, updated) <==> HasRow(info, row)
  {
    PlaceAllSlots(a, info, updated, row, 0);
  }

  lemma MatchingSlots(a: seq<EncodedFeedId>, s: FeedsInfo, b: seq<EncodedFeedId>, r: FeedsInfo,
                      updated: set<EncodedFeedId>, row: nat, p: nat)
    requires LanesAgree(s, r, updated) && Enumerates(a, s.Keys) && Enumerates(b, r.Keys)
    ensures LaneOfSome(LastAt(a, s, row, p), s, updated) == LaneOfSome(LastAt(b, r, row, p), r, updated)
  {
    var la, lb := LastAt(a, s, row, p), LastAt(b, r, row, p);
    assert la.Some? ==> SlotMatches(s, r, updated, la.value);
    assert lb.Some? ==> SlotMatches(r, s, updated, lb.value);
  }

  lemma AgreeingLanesSuffice(a: seq<EncodedFeedId>, s: FeedsInfo, b: seq<EncodedFeedId>, r: FeedsInfo,
                             updated: set<EncodedFeedId>)
    requires LanesAgree(s, r, updated) && Enumerates(a, s.Keys) && Enumerates(b, r.Keys)
    ensures PlaceAll(a, s, updated) == PlaceAll(b, r, updated)
  {
    var rowsA, rowsB := PlaceAll(a, s, updated), PlaceAll(b, r, updated);
    forall row ensures row in rowsA <==> row in rowsB {
      RowPlacedIff(a, s, updated, row);
      RowPlacedIff(b, r, updated, row);
      assert forall f :: f in s ==> SlotMatches(s, r, updated, f);
    }
    forall row, p | row in rowsA && 0 <= p < NUM_FEED_IDS_IN_RB_INDEX_RECORD
      ensures rowsA[row][p] == rowsB[row][p]
    {
      PlaceAllSlots(a, s, updated, row, p);
      PlaceAllSlots(b, r, updated, row, p);
      MatchingSlots(a, s, b, r, updated, row, p);
    }
    SameRows(rowsA, rowsB);
  }

  lemma {:induction false} SomeOrder(keys: set<EncodedFeedId>) returns (order: seq<EncodedFeedId>)
    ensures Enumerates(order, keys)
    decreases keys
  {
    if keys == {} {
      order := [];
    } else {
      var f :| f in keys;
      order := SomeOrder(keys - {f});
      EnumeratesSnoc(order, keys - {f}, f);
      assert keys - {f} + {f} == keys;
      order := order + [f];
    }
  }

  lemma OrderEndingWith(info: FeedsInfo, f: EncodedFeedId) returns (order: seq<EncodedFeedId>)
    requires f in info
    ensures Enumerates(order, info.Keys) && order != [] && order[|order| - 1] == f
  {
    order := SomeOrder(info.Keys - {f});
    EnumeratesSnoc(order, info.Keys - {f}, f);
    assert info.Keys - {f} + {f} == info.Keys;
    order := order + [f];
  }

  /** The last feed placed decides its slot. */
  lemma EndingDecides(a: seq<EncodedFeedId>, info: FeedsInfo, updated: set<EncodedFeedId>, f: EncodedFeedId)
    requires Enumerates(a, info.Keys) && a != [] && a[|a| - 1] == f
    ensures var rows := PlaceAll(a, info, updated);
            RowOf(f, info) in rows && rows[RowOf(f, info)][SlotPosition(f.id)] == LaneOf(f, info, updated)
  {
    PlaceAllSlots(a, info, updated, RowOf(f, info), SlotPosition(f.id));
  }

  lemma UnclaimedIsZero(b: seq<EncodedFeedId>, info: FeedsInfo, updated: set<EncodedFeedId>, row: nat, p: nat)
    requires Enumerates(b, info.Keys) && !Claimed(info, row, p) && p < NUM_FEED_IDS_IN_RB_INDEX_RECORD
    ensures row in PlaceAll(b, info, updated) ==> PlaceAll(b, info, updated)[row][p] == 0
  {
    PlaceAllSlots(b, info, updated, row, p);
  }

  lemma AgreementForcesMatch(s: FeedsInfo, r: FeedsInfo, updated: set<EncodedFeedId>, f: EncodedFeedId)
    requires PlacementsAgree(s, r, updated) && f in s
    ensures SlotMatches(s, r, updated, f)
  {
    var row, p := RowOf(f, s), SlotPosition(f.id);
    var a := OrderEndingWith(s, f);
    var b := SomeOrder(r.Keys);
    EndingDecides(a, s, updated, f);
    assert PlaceAll(a, s, updated) == PlaceAll(b, r, updated);
    RowPlacedIff(b, r, updated, row);
    forall g | g in r && LandsAt(g, r, row, p) ensures LaneOf(g, r, updated) == LaneOf(f, s, updated) {
      var c := OrderEndingWith(r, g);
      EndingDecides(c, r, updated, g);
      assert PlaceAll(a, s, updated) == PlaceAll(c, r, updated);
    }
    if !Claimed(r, row, p) {
      UnclaimedIsZero(b, r, updated, row, p);
    }
  }

  /** Two placements give the same rows for all pairs of iteration orders exactly when they agree slot
      by slot. */
  lemma PlacementsAgreeIff(s: FeedsInfo, r: FeedsInfo, updated: set<EncodedFeedId>)
    ensures PlacementsAgree(s, r, updated) <==> LanesAgree(s, r, updated)
  {
    if LanesAgree(s, r, updated) {
      forall a, b | Enumerates(a, s.Keys) && Enumerates(b, r.Keys)
        ensures PlaceAll(a, s, updated) == PlaceAll(b, r, updated)
      {
        AgreeingLanesSuffice(a, s, b, r, updated);
      }
    }
    if PlacementsAgree(s, r, updated) {
      forall f | f in s ensures SlotMatches(s, r, updated, f) {
        AgreementForcesMatch(s, r, updated, f);
      }
      assert PlacementsAgree(r, s, updated);
      forall f | f in r ensures SlotMatches(r, s, updated, f) {
        AgreementForcesMatch(r, s, updated, f);
      }
    }
  }

  /** No table slot is wanted by two feeds with different indices. */
  ghost predicate NoConflict(info: FeedsInfo, updated: set<EncodedFeedId>) {
    forall f, g :: f in info && g in info && LandsAt(f, info, RowOf(g, info), SlotPosition(g.id))
                   ==> LaneOf(f, info, updated) == LaneOf(g, info, updated)
  }

  /** The rows are the same for every iteration order exactly when no slot is wanted by two feeds
      with different indices. */
  lemma RowsOrderIndependentIff(info: FeedsInfo, updated: set<EncodedFeedId>)
    ensures PlacementsAgree(info, info, updated) <==> NoConflict(info, updated)
  {
    PlacementsAgreeIff(info, info, updated);
    forall f | f in info
      ensures SlotMatches(info, info, updated, f) <==>
              forall g :: g in info && LandsAt(g, info, RowOf(f, info), SlotPosition(f.id))
                          ==> LaneOf(g, info, updated) == LaneOf(f, info, updated)
    {
      assert LandsAt(f, info, RowOf(f, info), SlotPosition(f.id));
    }
  }

  //
  // The table, slot by slot
  //

  /** Every feed is placed by its own stride and its id fits below the next stride. */
  ghost predicate Consistent(info: FeedsInfo) {
    forall f :: f in info ==> info[f].stride == f.stride && f.id < TWO_115
  }

  function LaneAt(info: FeedsInfo, updated: set<EncodedFeedId>, row: nat, position: nat): nat {
    var f := FeedAt(row, position);
    if f in info then LaneOf(f, info, updated) else 0
  }

  function TableRow(info: FeedsInfo, updated: set<EncodedFeedId>, row: nat): (lanes: Lanes)
    ensures |lanes| == NUM_FEED_IDS_IN_RB_INDEX_RECORD
  {
    seq(NUM_FEED_IDS_IN_RB_INDEX_RECORD, p requires 0 <= p => LaneAt(info, updated, row, p))
  }

  /** The reference definition: the row of every listed feed, each slot read off its own feed. */
  function RowTable(info: FeedsInfo, updated: set<EncodedFeedId>): (rows: map<nat, Lanes>)
    ensures forall row :: row in rows ==> |rows[row]| == NUM_FEED_IDS_IN_RB_INDEX_RECORD
  {
    map row | row in (set f | f in info :: CalcRowIndex(f.id, f.stride)) :: TableRow(info, updated, row)
  }

  lemma LaneOfLast(order: seq<EncodedFeedId>, info: FeedsInfo, updated: set<EncodedFeedId>, row: nat, p: nat)
    requires Consistent(info) && Enumerates(order, info.Keys) && p < NUM_FEED_IDS_IN_RB_INDEX_RECORD
    requires exists g :: g in info && RowOf(g, info) == row
    ensures LaneAt(info, updated, row, p) == LaneOfSome(LastAt(order, info, row, p), info, updated)
  {
    var last := LastAt(order, info, row, p);
    var f := FeedAt(row, p);
    if last.Some? {
      FeedAtInverse(last.value);
    } else if f in info {
      var g :| g in info && RowOf(g, info) == row;
      FeedAtInRow(g, p);
      assert LandsAt(f, info, row, p);
    }
  }

  /** Whatever the iteration order, the filled rows are the reference table. */
  lemma RowsExact(order: seq<EncodedFeedId>, info: FeedsInfo, updated: set<EncodedFeedId>)
    requires Consistent(info) && Enumerates(order, info.Keys)
    ensures PlaceAll(order, info, updated) == RowTable(info, updated)
  {
    var rows, table := PlaceAll(order, info, updated), RowTable(info, updated);
    forall row ensures row in rows <==> row in table {
      PlaceAllSlots(order, info, updated, row, 0);
    }
    forall row, p | row in rows && 0 <= p < NUM_FEED_IDS_IN_RB_INDEX_RECORD
      ensures rows[row][p] == table[row][p]
    {
      PlaceAllSlots(order, info, updated, row, p);
      LaneOfLast(order, info, updated, row, p);
    }
    SameRows(rows, table);
  }
}
