/** The reporter's second-round check of a batch of aggregates. */
module Validation {
  import opened Arithmetic
  import opened Bytes
  import opened Wrappers
  import opened AdfsLayout
  import opened AdfsRows
  import Hex
  import opened Sets
  import opened AdfsCalldata
  import opened AdfsDecoder
  import opened AdfsAgreement
  import opened AdfsConfigs

  type Votes = map<EncodedFeedId, VotedFeedUpdate>

  type Deviations = map<EncodedFeedId, real>

  /** The batch as published to the reporters; numbers and addresses are given as they parse. */
  datatype SecondRoundBatch = SecondRoundBatch(
    batch: Batch,
    contractAddress: Option<nat>,
    safeAddress: Option<nat>,
    nonce: Option<nat>,
    chainId: Option<nat>,
    txHash: string,
    calldata: string,
    feedsRbIndices: RoundBufferIndices)

  /** Safe transaction hash of (safe, chain id, contract, calldata, nonce). */
  type TransactionHash = (nat, nat, nat, seq<byte>, nat) -> seq<byte>

  datatype ValidationError =
    | MissingVote(feed: EncodedFeedId)
    | NonNumeric(feed: EncodedFeedId)
    | Deviates(feeds: seq<EncodedFeedId>)
    | Malformed
    | HashMismatch

  function ToleratedPercent(tolerated: Deviations, f: EncodedFeedId): real {
    if f in tolerated then tolerated[f] else 0.5
  }

  predicate WithinBounds(voted: real, aggregate: real, percent: real) {
    var difference := (percent / 100.0) * voted;
    voted - difference <= aggregate <= voted + difference
  }

  predicate Confirmable(u: VotedFeedUpdate, lastVotes: Votes, tolerated: Deviations) {
    && u.feed in lastVotes && u.value.Numerical? && lastVotes[u.feed].value.Numerical?
    && WithinBounds(lastVotes[u.feed].value.val, u.value.val, ToleratedPercent(tolerated, u.feed))
  }

  /** Both sides have a number for the feed. */
  predicate BothNumeric(u: VotedFeedUpdate, lastVotes: Votes) {
    u.feed in lastVotes && u.value.Numerical? && lastVotes[u.feed].value.Numerical?
  }

  /** The percentage is of the signed vote, half a percent for a feed without a setting of its own. */
  lemma ConfirmableIff(u: VotedFeedUpdate, lastVotes: Votes, tolerated: Deviations)
    ensures Confirmable(u, lastVotes, tolerated) <==>
            && BothNumeric(u, lastVotes)
            && Abs(u.value.val - lastVotes[u.feed].value.val) * 100.0
               <= (if u.feed in tolerated then tolerated[u.feed] else 0.5) * lastVotes[u.feed].value.val
  {
    if BothNumeric(u, lastVotes) {
      WithinBoundsIff(lastVotes[u.feed].value.val, u.value.val, ToleratedPercent(tolerated, u.feed));
    }
  }

  lemma ConfirmableMeans(updates: seq<VotedFeedUpdate>, lastVotes: Votes, tolerated: Deviations)
    ensures (forall u :: u in updates ==> Confirmable(u, lastVotes, tolerated)) <==>
            forall u :: u in updates ==>
              && u.feed in lastVotes && u.value.Numerical? && lastVotes[u.feed].value.Numerical?
              && Abs(u.value.val - lastVotes[u.feed].value.val) * 100.0
                 <= (if u.feed in tolerated then tolerated[u.feed] else 0.5) * lastVotes[u.feed].value.val
  {
    forall u ensures Confirmable(u, lastVotes, tolerated) <==>
                     && BothNumeric(u, lastVotes)
                     && Abs(u.value.val - lastVotes[u.feed].value.val) * 100.0
                        <= (if u.feed in tolerated then tolerated[u.feed] else 0.5) * lastVotes[u.feed].value.val
    {
      ConfirmableIff(u, lastVotes, tolerated);
    }
  }

  /** The first update without two numbers fails the check at once; deviations are collected before failing. */
  method CheckAggregatedVotesDeviation(updates: seq<VotedFeedUpdate>, lastVotes: Votes, tolerated: Deviations)
    returns (r: Result<(), ValidationError>)
    ensures r.Ok? <==>
            forall u :: u in updates ==>
              && u.feed in lastVotes && u.value.Numerical? && lastVotes[u.feed].value.Numerical?
              && Abs(u.value.val - lastVotes[u.feed].value.val) * 100.0
                 <= (if u.feed in tolerated then tolerated[u.feed] else 0.5) * lastVotes[u.feed].value.val
    ensures r.Ok? <==> forall u :: u in updates ==> Confirmable(u, lastVotes, tolerated)
    ensures r.Err? && r.error.Deviates? ==>
              && r.error.feeds != []
              && (forall u :: u in updates ==> BothNumeric(u, lastVotes))
              && forall f :: f in r.error.feeds <==>
                   exists u :: u in updates && u.feed == f && !Confirmable(u, lastVotes, tolerated)
    ensures r.Err? && !r.error.Deviates? ==>
              exists i :: 0 <= i < |updates| && r.error == FirstError(updates[i], lastVotes) &&
                !BothNumeric(updates[i], lastVotes) && forall j :: 0 <= j < i ==> BothNumeric(updates[j], lastVotes)
  {
    var errors := [];
    for i := 0 to |updates|
      invariant forall f :: f in errors <==>
                  exists k :: 0 <= k < i && updates[k].feed == f && !Confirmable(updates[k], lastVotes, tolerated)
      invariant forall k :: 0 <= k < i ==> BothNumeric(updates[k], lastVotes)
    {
      var u := updates[i];
      assert u in updates;
      if u.feed !in lastVotes {
        return Err(MissingVote(u.feed));
      }
      if !u.value.Numerical? {
        return Err(NonNumeric(u.feed));
      }
      var reporterVote := lastVotes[u.feed];
      if !reporterVote.value.Numerical? {
        return Err(NonNumeric(u.feed));
      }
      var difference := (ToleratedPercent(tolerated, u.feed) / 100.0) * reporterVote.value.val;
      var lower, upper := reporterVote.value.val - difference, reporterVote.value.val + difference;
      if u.value.val < lower || u.value.val > upper {
        errors := errors + [u.feed];
      }
    }
    ConfirmableMeans(updates, lastVotes, tolerated);
    if errors != [] {
      assert errors[0] in errors;
      return Err(Deviates(errors));
    }
    assert forall k :: 0 <= k < |updates| && !Confirmable(updates[k], lastVotes, tolerated) ==> updates[k].feed in errors;
    return Ok(());
  }

  /** What an update without two numbers fails with. */
  function FirstError(u: VotedFeedUpdate, lastVotes: Votes): ValidationError {
    if u.feed !in lastVotes then MissingVote(u.feed) else NonNumeric(u.feed)
  }

  /** Hexadecimal text with or without its `0x`. */
  function DecodeHexText(s: string): Option<seq<byte>> {
    if |s| >= 2 && s[..2] == "0x" then Hex.Decode(s[2..]) else Hex.Decode(s)
  }

  /** The text of bytes reads back as those bytes, with the prefix or without. */
  lemma HexTextRoundTrip(bytes: seq<byte>)
    ensures DecodeHexText("0x" + Hex.Encode(bytes)) == Some(bytes) == DecodeHexText(Hex.Encode(bytes))
  {
    var text := Hex.Encode(bytes);
    Hex.DecodeEncode(bytes);
    assert ("0x" + text)[2..] == text;
    if bytes != [] {
      Hex.DigitRoundTrip(bytes[0] % 16);
      assert text[1] == Hex.DIGITS[bytes[0] % 16] != 'x';
    }
  }

  ghost predicate WellFormed(b: SecondRoundBatch) {
    && DecodeHexText(b.calldata).Some? && DecodeHexText(b.txHash).Some?
    && b.contractAddress.Some? && b.safeAddress.Some? && b.nonce.Some? && b.chainId.Some?
  }

  ghost function ReporterInfo(cfg: Config, b: SecondRoundBatch): FeedsInfo {
    InfoOf(b.feedsRbIndices.Keys, cfg, b.feedsRbIndices)
  }

  /** The calldata the reporter rebuilds for one iteration order of its hash map. */
  ghost function Rebuilt(cfg: Config, b: SecondRoundBatch, order: seq<EncodedFeedId>): seq<byte>
    requires Enumerates(order, ReporterInfo(cfg, b).Keys)
  {
    Serialized(b.batch, cfg, b.feedsRbIndices, PlaceAll(order, ReporterInfo(cfg, b), UpdatedFeeds(b.batch.updates)))
  }

  ghost predicate Accepts(cfg: Config, b: SecondRoundBatch, lastVotes: Votes, tolerated: Deviations,
                          hash: TransactionHash, order: seq<EncodedFeedId>)
    requires Enumerates(order, ReporterInfo(cfg, b).Keys)
  {
    && (forall u :: u in b.batch.updates ==> Confirmable(u, lastVotes, tolerated))
    && WellFormed(b)
    && DecodeHexText(b.txHash) == Some(hash(b.safeAddress.value, b.chainId.value, b.contractAddress.value,
                                            Rebuilt(cfg, b, order), b.nonce.value))
  }

  method RebuildCalldata(cfg: Config, b: SecondRoundBatch) returns (calldata: seq<byte>, ghost order: seq<EncodedFeedId>)
    ensures Enumerates(order, ReporterInfo(cfg, b).Keys) && calldata == Rebuilt(cfg, b, order)
  {
    var feedsRbIndices;
    calldata, feedsRbIndices := AdfsSerializeUpdates(b.batch, None, cfg, b.feedsRbIndices);
    order :| Enumerates(order, ReporterInfo(cfg, b).Keys) && calldata == Rebuilt(cfg, b, order);
  }

  /** A mismatch of the received calldata itself is only logged; the hash decides. */
  method Validate(cfg: Config, b: SecondRoundBatch, lastVotes: Votes, tolerated: Deviations, hash: TransactionHash)
    returns (r: Result<(), ValidationError>)
    ensures exists order :: Enumerates(order, ReporterInfo(cfg, b).Keys) &&
              (r.Ok? <==> Accepts(cfg, b, lastVotes, tolerated, hash, order))
  {
    ghost var order := SomeOrder(ReporterInfo(cfg, b).Keys);
    r := CheckAggregatedVotesDeviation(b.batch.updates, lastVotes, tolerated);
    if r.Err? {
      return;
    }
    var calldata;
    calldata, order := RebuildCalldata(cfg, b);
    if DecodeHexText(b.calldata).None? || b.contractAddress.None? || b.safeAddress.None? || b.nonce.None? || b.chainId.None? {
      r := Err(Malformed);
      return;
    }
    var txHash := hash(b.safeAddress.value, b.chainId.value, b.contractAddress.value, calldata, b.nonce.value);
    match DecodeHexText(b.txHash)
    case None => r := Err(Malformed);
    case Some(received) => r := if txHash == received then Ok(()) else Err(HashMismatch);
  }

  //
  // Honest batches
  //

  /** A batch put together by the sequencer, with its configuration `cs`. */
  ghost predicate BuiltBySequencer(cs: Config, b: SecondRoundBatch, rc: RoundBufferIndices, hash: TransactionHash,
                                   order: seq<EncodedFeedId>)
    requires Enumerates(order, CollectedInfo(b.batch, cs, rc).Keys)
  {
    && WellFormed(b)
    && b.feedsRbIndices == ShippedIndices(b.batch, rc)
    && DecodeHexText(b.calldata) == Some(SequencerBytes(b.batch, cs, rc, order))
    && DecodeHexText(b.txHash) == Some(hash(b.safeAddress.value, b.chainId.value, b.contractAddress.value,
                                            SequencerBytes(b.batch, cs, rc, order), b.nonce.value))
  }

  ghost predicate CollisionFree(hash: TransactionHash) {
    forall s, c, a, d, n, s', c', a', d', n' :: hash(s, c, a, d, n) == hash(s', c', a', d', n') ==> d == d'
  }

  lemma RebuiltIsReporterBytes(cr: Config, b: SecondRoundBatch, rc: RoundBufferIndices, order: seq<EncodedFeedId>)
    requires b.feedsRbIndices == ShippedIndices(b.batch, rc)
    ensures ReporterInfo(cr, b) == CollectedInfo(b.batch, cr, rc)
    ensures Enumerates(order, ReporterInfo(cr, b).Keys) ==> Rebuilt(cr, b, order) == ReporterBytes(b.batch, cr, rc, order)
  {
    ReporterCollectsTheSame(b.batch, cr, cr, rc);
  }

  /** An honestly built batch is accepted exactly when every update is confirmable and the reporter, with its
      own configuration and iteration order, rebuilds the sequencer's bytes. */
  lemma HonestBatchNeedsSameBytes(cs: Config, cr: Config, b: SecondRoundBatch, lastVotes: Votes, tolerated: Deviations,
                                  rc: RoundBufferIndices, hash: TransactionHash,
                                  built: seq<EncodedFeedId>, order: seq<EncodedFeedId>)
    requires CollisionFree(hash)
    requires Enumerates(built, CollectedInfo(b.batch, cs, rc).Keys) && Enumerates(order, ReporterInfo(cr, b).Keys)
    requires BuiltBySequencer(cs, b, rc, hash, built)
    ensures Enumerates(order, CollectedInfo(b.batch, cr, rc).Keys)
    ensures Accepts(cr, b, lastVotes, tolerated, hash, order) <==>
            && (forall u :: u in b.batch.updates ==> Confirmable(u, lastVotes, tolerated))
            && SequencerBytes(b.batch, cs, rc, built) == ReporterBytes(b.batch, cr, rc, order)
  {
    RebuiltIsReporterBytes(cr, b, rc, order);
  }

  /** If both configurations place feeds by their own strides and know the updated feeds alike, an honestly
      built batch is accepted exactly when every update is confirmable, whatever orders the two hash maps
      are iterated in. */
  lemma HonestBatchAcceptedIff(cs: Config, cr: Config, b: SecondRoundBatch, lastVotes: Votes, tolerated: Deviations,
                               rc: RoundBufferIndices, hash: TransactionHash,
                               built: seq<EncodedFeedId>, order: seq<EncodedFeedId>)
    requires ConsistentConfig(b.batch, cs) && ConsistentConfig(b.batch, cr) && SameValues(b.batch, cs, cr)
    requires Enumerates(built, CollectedInfo(b.batch, cs, rc).Keys) && Enumerates(order, ReporterInfo(cr, b).Keys)
    requires BuiltBySequencer(cs, b, rc, hash, built)
    ensures Accepts(cr, b, lastVotes, tolerated, hash, order) <==>
            forall u :: u in b.batch.updates ==> Confirmable(u, lastVotes, tolerated)
  {
    RebuiltIsReporterBytes(cr, b, rc, order);
    BothProduceCalldata(b.batch, cs, cr, rc, built, order);
  }

  /** With the configurations both sides really use: an honestly built batch whose misplaced feeds are all
      harmless is accepted exactly when every update is confirmable. */
  lemma HarmlessBatchAcceptedIff(registered: Feeds, own: Feeds, b: SecondRoundBatch, lastVotes: Votes, tolerated: Deviations,
                                 rc: RoundBufferIndices, hash: TransactionHash,
                                 built: seq<EncodedFeedId>, order: seq<EncodedFeedId>)
    requires Fits(b.batch, registered, own) && CollisionFree(hash)
    requires SameValues(b.batch, SequencerConfig(registered, b.batch), ReporterConfig(own))
    requires AllHarmless(b.batch, registered, rc)
    requires Enumerates(built, CollectedInfo(b.batch, SequencerConfig(registered, b.batch), rc).Keys)
    requires Enumerates(order, ReporterInfo(ReporterConfig(own), b).Keys)
    requires BuiltBySequencer(SequencerConfig(registered, b.batch), b, rc, hash, built)
    ensures Accepts(ReporterConfig(own), b, lastVotes, tolerated, hash, order) <==>
            forall u :: u in b.batch.updates ==> Confirmable(u, lastVotes, tolerated)
  {
    BuiltConfigsAgreeIff(b.batch, registered, own, rc);
    HonestBatchNeedsSameBytes(SequencerConfig(registered, b.batch), ReporterConfig(own), b, lastVotes, tolerated, rc, hash, built, order);
  }

  /** With a misplaced feed whose stride-0 row is not rewritten otherwise, an honestly built batch is refused
      whatever it says and whatever the iteration orders are. */
  lemma StrayRowRefused(registered: Feeds, own: Feeds, b: SecondRoundBatch, lastVotes: Votes, tolerated: Deviations,
                        rc: RoundBufferIndices, hash: TransactionHash, f: EncodedFeedId,
                        built: seq<EncodedFeedId>, order: seq<EncodedFeedId>)
    requires Fits(b.batch, registered, own) && CollisionFree(hash)
    requires SameValues(b.batch, SequencerConfig(registered, b.batch), ReporterConfig(own))
    requires Misplaced(b.batch, registered, f) && EncodedFeedId(0, f.id) !in NeighbourSet(b.batch.updates)
    requires Enumerates(built, CollectedInfo(b.batch, SequencerConfig(registered, b.batch), rc).Keys)
    requires Enumerates(order, ReporterInfo(ReporterConfig(own), b).Keys)
    requires BuiltBySequencer(SequencerConfig(registered, b.batch), b, rc, hash, built)
    ensures !Accepts(ReporterConfig(own), b, lastVotes, tolerated, hash, order)
  {
    HonestBatchNeedsSameBytes(SequencerConfig(registered, b.batch), ReporterConfig(own), b, lastVotes, tolerated, rc, hash, built, order);
    UnregisteredNeighbourNeverAgrees(b.batch, registered, own, rc, f, built, order);
  }

  /** Calldata the reporter accepts places every index by the feed's own stride: with the indices the sequencer
      ships and its own configuration, whatever the iteration order, it can only have accepted this calldata. */
  lemma AcceptedIsCalldata(own: Feeds, b: SecondRoundBatch, lastVotes: Votes, tolerated: Deviations, rc: RoundBufferIndices,
                           hash: TransactionHash, order: seq<EncodedFeedId>, sent: seq<byte>)
    requires CollisionFree(hash) && Enumerates(order, ReporterInfo(ReporterConfig(own), b).Keys)
    requires b.feedsRbIndices == ShippedIndices(b.batch, rc) && forall u :: u in b.batch.updates ==> u.feed.id < TWO_115
    requires Accepts(ReporterConfig(own), b, lastVotes, tolerated, hash, order)
    requires DecodeHexText(b.txHash) == Some(hash(b.safeAddress.value, b.chainId.value, b.contractAddress.value, sent, b.nonce.value))
    ensures sent == CalldataOf(b.batch, ReporterConfig(own), rc)
  {
    var cr := ReporterConfig(own);
    RebuiltIsReporterBytes(cr, b, rc, order);
    BothProduceCalldata(b.batch, cr, cr, rc, order, order);
  }

  /** Whoever built the batch: if it is accepted and the hash it carries is that of some calldata,
      then sending that calldata writes exactly the checked updates, each within tolerance, and the rows the
      reporter rebuilt. */
  lemma AcceptedWritesCheckedUpdates(cfg: Config, b: SecondRoundBatch, lastVotes: Votes, tolerated: Deviations,
                                     hash: TransactionHash, order: seq<EncodedFeedId>, sent: seq<byte>)
    requires Enumerates(order, ReporterInfo(cfg, b).Keys) && CollisionFree(hash)
    requires Accepts(cfg, b, lastVotes, tolerated, hash, order)
    requires DecodeHexText(b.txHash) == Some(hash(b.safeAddress.value, b.chainId.value, b.contractAddress.value, sent, b.nonce.value))
    requires WellTyped(b.batch, cfg) && AllEmitted(b.batch, cfg, b.feedsRbIndices)
    requires forall f :: f in b.feedsRbIndices ==> f.Valid()
    ensures forall u :: u in b.batch.updates ==>
              && u.feed in lastVotes && u.value.Numerical? && lastVotes[u.feed].value.Numerical?
              && Abs(u.value.val - lastVotes[u.feed].value.val) * 100.0
                 <= (if u.feed in tolerated then tolerated[u.feed] else 0.5) * lastVotes[u.feed].value.val
    ensures var c := Decode(sent);
            && c.Some? && c.value.blockHeight == b.batch.blockHeight
            && c.value.values == EmittedRecords(b.batch.updates, cfg, b.feedsRbIndices)
            && |c.value.values| == |b.batch.updates|
            && var rows := PlaceAll(order, ReporterInfo(cfg, b), UpdatedFeeds(b.batch.updates));
            && c.value.rows == RowRecords(rows.Keys, rows)
  {
    var info := ReporterInfo(cfg, b);
    ConfirmableMeans(b.batch.updates, lastVotes, tolerated);
    assert sent == Rebuilt(cfg, b, order);
    FilledRowsAreReal(order, info, UpdatedFeeds(b.batch.updates));
    DecodeSerialized(b.batch, cfg, b.feedsRbIndices, PlaceAll(order, info, UpdatedFeeds(b.batch.updates)));
    EmittedCount(b.batch.updates, cfg, b.feedsRbIndices);
  }

  //
  // The tolerance interval
  //

  /** The bounds tolerate a deviation of `percent` of the signed vote. */
  lemma WithinBoundsIff(voted: real, aggregate: real, percent: real)
    ensures WithinBounds(voted, aggregate, percent) <==> Abs(aggregate - voted) * 100.0 <= percent * voted
  {
    assert (percent / 100.0) * voted * 100.0 == percent * voted;
  }

  /** They are the percentage of the vote's magnitude exactly when the vote is not negative;
      a negative vote confirms nothing, not even itself. */
  lemma ToleranceNeedsNonNegativeVote(voted: real, percent: real)
    requires percent > 0.0
    ensures (forall x :: WithinBounds(voted, x, percent) <==> Abs(x - voted) * 100.0 <= percent * Abs(voted)) <==> voted >= 0.0
    ensures voted < 0.0 ==> forall x :: !WithinBounds(voted, x, percent)
  {
    forall x ensures WithinBounds(voted, x, percent) <==> Abs(x - voted) * 100.0 <= percent * voted {
      WithinBoundsIff(voted, x, percent);
    }
    if voted < 0.0 {
      assert percent * voted < 0.0;
      assert Abs(voted - voted) * 100.0 == 0.0 <= percent * Abs(voted);
      assert !WithinBounds(voted, voted, percent);
    }
  }
}
