# Verified model of the Blocksense sequencer and reporter

A Dafny model of the parts of the sequencer and reporter that decide what ends up on chain, with proofs about
all inputs, all runs and all iteration orders. `dafny verify dfyconfig.toml` checks the project.

## What is modelled

**Calldata and storage** (`AdfsLayout`, `AdfsCalldata`, `AdfsRows`, `AdfsDecoder`, `AdfsAgreement`, `AdfsConfigs`,
`AdfsContract`, `AdfsStore`, `AdfsPosts`, `AdfsFeeds`, `AdfsRuns`, `AdfsDirect`, `Validation`, with `Bytes`, `Hex`,
`Sets` and `Arithmetic`). A batch of feed updates is printed as length-prefixed records and rows of ring indices. The
serializer is modelled with its loops and its row strings; hash maps are visited in arbitrary order. The model of
the contract is a machine over storage slots, after the Solidity source. The results are the round trip through the calldata decoder, independence from
iteration order, agreement of sequencer and reporter with the configurations each really has, and the refinement
of the storage to "the last 8192 values per feed" over every run, with and without restarts. Batches reach the
contract on two routes: signed by reporters, through a Safe, or posted directly on networks that have none.

**Values** (`Decimal`, `FeedTypes`). Floats are a real number together with the decimal text it prints as. The
codec works on that text, as the source does.

**WIT converter** (`GroupOrder`, `WitConverter`). Kahn's ordering with its queue, in-degrees and fallback, over
arrays updated in place; and the memoising converter as a class whose methods equal the plain recursion.

**Blocks** (`SlotClock`, `BlockCreator`, `BlockCreatorRuns`, `BlockCommands`, `InMemDb`, `BlockProduction`, `Pipeline`). The batching
state machine, the slot clock and the hash-linked chain, each on its own and then together. `Pipeline` puts
production and contract together: whatever a timely run emits is accepted and can be read back at its ring slot,
and exactly when the index table points there too.

**Aggregation and publishing** (`Aggregation`, `MajorityVote`, `History`, `PublishPolicy`). Median and majority vote
over reports in arbitrary order, the frame of byte results, the overwriting history ring, and the skip policy
with its time bound.

**Second round** (`TxSender`, `TxAccounting`, `SafeNonces`, `OverlappingRuns`). The retry loops of the task that posts a signed
batch, with every answer of the network as an input (which determines the exit, `TxSender.ExitIsDetermined`); the
books of the provider, a class with its counters, over runs of overlapping batches; the Safe's nonces; and what
the contract then stores.

## Where the code does not do what it seems to promise

Each of these is a proved condition or a concrete input in the table below.

- The header counts skipped updates, so calldata with a skipped update does not decode to what was sent
  (`AdfsDecoder.DecodeSerialized`).
- The sequencer gives a neighbour that is not registered stride 0, the reporter the stride of its key. Honest
  batches are then refused, already one with the single update of feed 1 at stride 1 when no other feed is
  registered (`AdfsConfigs.BuiltConfigsAgreeIff`, `AdfsConfigs.LoneFeedNeverAgrees`, `Validation.StrayRowRefused`).
- Posted directly, such a batch is accepted: the sequencer's stray row of stride 0 resets the index of stride-0 feeds
  the batch never mentions, and the row of the unregistered feed is zeroed on its slot (`AdfsDirect.SequencerRunIff`,
  `AdfsDirect.LonePostResetsFeed`).
- The contract reverts on an empty value at the first slot of a region (`AdfsStore.BatchAcceptedIff`).
- Counters reloaded from the chain wrap at 8192, so a neighbour whose latest value is in slot 8191 loses it when
  its row is rewritten (`AdfsFeeds.ReloadKeepsNeighbourIff`, `AdfsRuns.StoredAcrossRestartsIff`).
- The reporter's tolerance is a percentage of the signed vote, so a negative price is never confirmed
  (`Validation.ToleranceNeedsNonNegativeVote`).
- Encoded decimals survive only below 2^192, and a fraction with no digits to keep is an error
  (`FeedTypes.CodecRoundTrip`, `FeedTypes.EncodableExactly`); negative ones do not encode
  (`FeedTypes.NegativeIsRejected`).
- A report stamped exactly at a slot boundary counts for both slots (`SlotClock.RelevantIff`).
- The refill after a block loses an update when the backlog overfills the next block (`BlockCreatorRuns.RefillDropsIff`),
  and a later update of a pending feed is ignored, not taken over (`BlockCreatorRuns.PendingIsKept`).
- The length prefix of byte results wraps at 65536 (`MajorityVote.UnframeFrameIff`).
- The publication gap bound is strict only for a heartbeat of at least 1 ms (`PublishPolicy.ZeroHeartbeatReachesBound`).
- A batch that times out waiting for signatures gives its ring indices back but stays in the in-progress counter,
  from which the next safe nonce is computed; a batch the message stream did not take stays in both
  (`TxAccounting.CounterCountsWaitingIff`, `TxAccounting.IndexCountsPostedIff`). From then on no batch
  announced later is executed, for as long as the run goes on (`SafeNonces.LossStalls`).
- A batch can be rolled back although the network took its transaction (`TxSender.RollbackOfPostedBatch`), and a
  rollback while a newer batch with the same feed is under way makes a later value overwrite that batch's ring
  slot (`TxAccounting.SlotsStayFreshIff`, `TxAccounting.OverlappingRollbackReusesSlot`). The newer batch gets past the
  Safe's nonce only if the older one was executed all the same (`SafeNonces.ReuseNeedsExecution`).
- A batch that lists a feed for a neighbour's sake rewrites the feed's index with the counter it was announced
  with, which is wrong if that counter's value is not posted yet (`OverlappingRuns.ResolvesIff`).

## Conventions

Feed ids are pairs of stride and id; `Packed` is the 128-bit form. 64-bit and 256-bit wrap-around is written out
where values can reach it. Errors are `Result` and `Option` values. Where Rust iterates a hash map the method picks
an arbitrary element, and its contract holds for some order of all elements. Configurations are maps from feeds to
stride and decimals.

## Model

| member | source | states |
|---|---|---|
| `Bytes.TruncatedRoundTrip` | libs/feeds_processing/src/adfs_gen_calldata.rs:32-41 | dropping leading zero bytes of a big-endian integer is inverted by reading the bytes back; at least one byte is left |
| `AdfsLayout.TableSlotInjective` | libs/feeds_processing/src/adfs_gen_calldata.rs:61-64 | for ids below 2^115, row index and slot position together determine stride and feed id |
| `AdfsLayout.SameRowIffNeighbours` | libs/feeds_processing/src/adfs_gen_calldata.rs:255-264 | two feeds share a table row if and only if one is among the other's 16 neighbours |
| `AdfsLayout.ValueIndexInRegion` | libs/feeds_processing/src/adfs_gen_calldata.rs:147-150 | for addressable feeds the 256-bit address arithmetic does not wrap, and the whole 2^stride-slot window of a ring slot stays inside the region of its stride, below 2^160 |
| `AdfsLayout.NoAddressCollision` | libs/ts/contracts/contracts/AggregatedDataFeedStore.sol:292-309 | storage slots of ring slots of any two feeds, of any two strides, coincide only for the same feed, the same ring slot and the same word |
| `AdfsLayout.TableBelowValues` | libs/ts/contracts/contracts/AggregatedDataFeedStore.sol:32-40 | the index table lies above slot 0 and below every value window |
| `AdfsLayout.StorageLayout` | libs/ts/contracts/contracts/AggregatedDataFeedStore.sol:32-40 | the values of 32 strides with 2^115 feeds of 8192 ring slots each lie from storage slot 2^(128 + stride) on, and the index table from slot 2^128 - 2^116 on |
| `AdfsLayout.PackedOrder` | libs/utils/src/lib.rs:30-70 | packed keys are distinct, and ordered by stride, then by id |
| `AdfsCalldata.CollectNeighbours` | libs/feeds_processing/src/adfs_gen_calldata.rs:101-123 | collecting a feed's row adds stride and counter of exactly its 16 neighbours and yields the feed's own counter |
| `AdfsCalldata.SerializeUpdate` | libs/feeds_processing/src/adfs_gen_calldata.rs:130-180 | bytes are appended if and only if the value encodes with the feed's decimals and its length, in 32-bit arithmetic, is at most 32 * 2^stride for a stride below 8, or 0 for any other; they are those of the update's value record |
| `AdfsCalldata.RecordEmittedIff` | libs/feeds_processing/src/adfs_gen_calldata.rs:19-160 | the same for the record, which has the configured stride, the encoded value, and the position (id * 8192 + counter mod 8192) * 2^stride in 256-bit arithmetic; an unregistered feed counts as stride 0 with 18 decimals |
| `AdfsCalldata.SerializeValues` | libs/feeds_processing/src/adfs_gen_calldata.rs:77-181 | header and value records in batch order; with the counters given, what is collected is the configuration of all neighbours of all updates |
| `AdfsRows.SpliceIndex` | libs/feeds_processing/src/adfs_gen_calldata.rs:203-229 | splicing four hexadecimal digits into the row string is placing one 16-bit lane in the row; a new row starts as zeros |
| `AdfsRows.FillRows` | libs/feeds_processing/src/adfs_gen_calldata.rs:195-230 | for the iteration order the hash map happens to have, the row strings are those of the feeds placed in that order, and the used counters are recorded |
| `AdfsCalldata.SerializeRows` | libs/feeds_processing/src/adfs_gen_calldata.rs:232-246 | rows come out in ascending row order, each with its index length, index and 32 bytes |
| `AdfsCalldata.AdfsSerializeUpdates` | libs/feeds_processing/src/adfs_gen_calldata.rs:67-253 | the whole call, for the sequencer (counters given) and the reporter (shipped indices): the updated index map as a function of the inputs, and the bytes as those of some iteration order |
| `AdfsRows.PlaceAllSlots` | libs/feeds_processing/src/adfs_gen_calldata.rs:198-229 | a slot ends up with the index of the last feed placed on it, or zero |
| `AdfsRows.RowTextsLength` | libs/feeds_processing/src/adfs_gen_calldata.rs:208-229 | every row string has 66 characters after any number of splices |
| `AdfsRows.RowsOrderIndependentIff` | libs/feeds_processing/src/adfs_gen_calldata.rs:198-230 | the rows are the same for every iteration order if and only if no slot is claimed by two feeds with different indices |
| `AdfsRows.PlacementsAgreeIff` | libs/feeds_processing/src/adfs_gen_calldata.rs:184-230 | two placements, such as those of sequencer and reporter, give the same rows for all pairs of iteration orders if and only if they agree slot by slot |
| `AdfsRows.RowsExact` | libs/feeds_processing/src/adfs_gen_calldata.rs:196-230 | when the recorded strides are the feeds' own, the rows of every iteration order are the reference table: rb mod 8192 for updated feeds, the previous index or 0 for the others, 0 elsewhere |
| `AdfsDecoder.DecodeValuesInverse` | libs/ts/contracts/lib/utils/calldata-decoder.ts:36-165 | the decoder recovers every value record in order and leaves what follows |
| `AdfsDecoder.DecodeRowsInverse` | libs/ts/contracts/lib/utils/calldata-decoder.ts:36-165 | the decoder recovers every row record in order; the length byte of a row agrees with the index bytes that follow it |
| `AdfsDecoder.DecodeSerialized` | libs/feeds_processing/src/adfs_gen_calldata.rs:80-83 | decoding gives back height, all value records and the ascending rows if and only if no update was skipped: skipped updates are still counted in the header |
| `AdfsAgreement.SerializationInjective` | libs/feeds_processing/src/adfs_gen_calldata.rs:147-250 | equal calldata of two batches without skipped updates has equal height, value records and rows |
| `AdfsAgreement.RecordIdentifiesUpdate` | libs/feeds_processing/src/adfs_gen_calldata.rs:147-176 | equal value records come from the same feed and the same ring slot |
| `AdfsAgreement.ReporterCollectsTheSame` | libs/feeds_processing/src/adfs_gen_calldata.rs:185-199 | from the indices the sequencer ships, the reporter collects the same feeds and counters, with the strides of its own configuration, and leaves the index map unchanged |
| `AdfsAgreement.AgreementIff` | libs/feeds_processing/src/adfs_gen_calldata.rs:66-253 | sequencer and reporter, each with its own configuration, write equally many value records and produce identical bytes for all pairs of iteration orders if and only if their value records are equal and their rows agree slot by slot |
| `AdfsAgreement.SameValuesAgreeIff` | libs/feeds_processing/src/adfs_gen_calldata.rs:66-253 | if both know the updated feeds by the same stride and decimals, they always produce identical bytes if and only if their rows agree slot by slot |
| `AdfsAgreement.BothProduceCalldata` | libs/feeds_processing/src/adfs_gen_calldata.rs:66-253 | if moreover both place feeds by the encoded strides, both always produce one and the same calldata, whatever else their configurations say |
| `AdfsConfigs.BuiltConfigsAgreeIff` | apps/sequencer/src/providers/eth_send_utils.rs:106-123 | with the configurations the two sides really build, all pairs of iteration orders give identical bytes if and only if every feed of a rewritten row that is unregistered at a stride above 0 has index 0, lands on a slot that is rewritten with 0 anyway, and has a registered neighbour |
| `AdfsConfigs.UnregisteredNeighbourNeverAgrees` | libs/config/src/lib.rs:101-118 | one unregistered feed in a rewritten row, with nothing updated in the stride-0 row of the same ids: the bytes differ for every pair of iteration orders |
| `AdfsConfigs.LoneFeedNeverAgrees` | apps/trigger-oracle/src/lib.rs:313-327 | the smallest such batch: one update of feed 1 at stride 1, with no other feed registered |
| `Validation.CheckAggregatedVotesDeviation` | libs/feeds_processing/src/utils.rs:273-323 | succeeds if and only if every update and the reporter's vote are numbers whose distance times 100 is at most the feed's percentage, or 0.5 without one, of the signed vote; a deviation error names exactly the deviating feeds, any other the first feed without two numbers |
| `Validation.ConfirmableIff` | libs/feeds_processing/src/utils.rs:303-312 | for one update |
| `Validation.HexTextRoundTrip` | libs/feeds_processing/src/utils.rs:379-412 | the text of bytes reads back with the 0x prefix or without |
| `Validation.Validate` | libs/feeds_processing/src/utils.rs:325-419 | for some iteration order it succeeds if and only if all updates are confirmable, the textual fields parse and the carried hash is that of the rebuilt calldata; a calldata mismatch alone is only logged |
| `Validation.HonestBatchNeedsSameBytes` | libs/feeds_processing/src/utils.rs:325-419 | an honestly built batch is accepted if and only if every update is within tolerance of the reporter's vote and the reporter, with its own configuration, rebuilds the sequencer's bytes |
| `Validation.HonestBatchAcceptedIff` | libs/feeds_processing/src/utils.rs:325-419 | if both sides place feeds by their own strides and know the updated ones alike, tolerance alone decides, whatever orders the two sides iterate in |
| `Validation.HarmlessBatchAcceptedIff` | libs/feeds_processing/src/utils.rs:325-419 | the same for the configurations the two sides really build, if every misplaced feed is harmless |
| `Validation.StrayRowRefused` | libs/feeds_processing/src/utils.rs:404-416 | an honestly built batch with a misplaced feed whose stride-0 row is not rewritten otherwise is refused, whatever its values |
| `Validation.AcceptedIsCalldata` | libs/feeds_processing/src/utils.rs:379-416 | the only calldata a reporter can accept, given the indices the sequencer ships, is the one that places every feed by its own stride, which is the calldata the storage results are about |
| `Validation.AcceptedWritesCheckedUpdates` | libs/feeds_processing/src/utils.rs:404-416 | whoever built the batch: if it is accepted, the calldata behind its hash writes exactly the checked updates, each within the configured percentage (0.5 by default) of the reporter's vote, and the rows the reporter rebuilt |
| `Validation.ToleranceNeedsNonNegativeVote` | libs/feeds_processing/src/utils.rs:303-312 | they are a percentage of the vote's magnitude if and only if the vote is not negative; a negative vote confirms no value at all |
| `AdfsContract.WordsInjective` | libs/ts/contracts/contracts/AggregatedDataFeedStore.sol:341-375 | the stored words, last one right-aligned, determine the data of a known length |
| `AdfsContract.WordAt` | libs/ts/contracts/contracts/AggregatedDataFeedStore.sol:341-375 | word j is the big-endian number of bytes 32j to 32j + 31, the last one of what is left, right-aligned |
| `AdfsContract.AcceptedStaysInRegion` | libs/ts/contracts/contracts/AggregatedDataFeedStore.sol:315-360 | an accepted record has one of 32 strides and writes only inside the region of its own |
| `AdfsContract.RegionAccepted` | libs/ts/contracts/contracts/AggregatedDataFeedStore.sol:315-360 | every record that ends inside its region is accepted |
| `AdfsContract.ReadableIff` | libs/ts/contracts/contracts/AggregatedDataFeedStore.sol:60-164 | exactly the indices of 2^115 feeds at each of 32 strides, and the 2^stride words of each of their 8192 ring slots, can be read |
| `AdfsContract.LaneOfWord` | libs/ts/contracts/contracts/AggregatedDataFeedStore.sol:136-164 | reading a feed's 16-bit lane of a table word gives the index written for it |
| `AdfsStore.RollbackRestores` | apps/sequencer/src/providers/eth_send_utils.rs:1247-1302 | rolling back a failed batch right after its increments restores every counter |
| `AdfsStore.HeaderFitsWord` | libs/ts/contracts/contracts/AggregatedDataFeedStore.sol:315-339 | everything in front of the data of an emitted record fits the single word the contract reads it from |
| `AdfsStore.BatchAcceptedIff` | libs/ts/contracts/contracts/AggregatedDataFeedStore.sol:268-430 | whatever rows it is sent with, the contract accepts a good batch if and only if its height is above the stored one and no empty value goes to the very first slot of a region |
| `AdfsStore.HeightAfterBatch` | libs/ts/contracts/contracts/AggregatedDataFeedStore.sol:273-280 | after an accepted batch slot 0 holds its height |
| `AdfsStore.NewValueStored` | libs/ts/contracts/contracts/AggregatedDataFeedStore.sol:310-376 | after an accepted batch the window of each update's ring slot holds its encoded value |
| `AdfsStore.WindowKept` | libs/ts/contracts/contracts/AggregatedDataFeedStore.sol:310-376 | a window no update of the batch is addressed to keeps its words |
| `AdfsStore.TableAfterBatch` | libs/ts/contracts/contracts/AggregatedDataFeedStore.sol:402-430 | after an accepted batch a table row holds the new lanes if it was listed and its old word otherwise |
| `AdfsStore.IndexAfterBatch` | libs/ts/contracts/contracts/AggregatedDataFeedStore.sol:136-164 | the latest index of any feed after a batch: what the sent rows have on its slot, else unchanged |
| `AdfsPosts.IndexAfterPost` | libs/feeds_processing/src/adfs_gen_calldata.rs:184-248 | for any configuration that places a feed by its own stride or by 0, any counters and any iteration order: every feed whose row is rewritten resolves to the index of the last feed put on its slot, or to 0 if there is none; all others as before |
| `AdfsPosts.SafeIff` | libs/feeds_processing/src/adfs_gen_calldata.rs:198-230 | a post leaves a feed's index right for every iteration order if and only if every feed put on its slot brings the right index, and the right one is 0 if its row is rewritten and nobody is put there |
| `AdfsFeeds.PostKeepsStoredIff` | libs/ts/contracts/contracts/AggregatedDataFeedStore.sol:268-430 | a post keeps a feed's last 8192 values and appends its new one; the table points at the newest afterwards if and only if the post puts no wrong index on the feed's slot |
| `AdfsFeeds.NeighbourKeptIff` | libs/feeds_processing/src/adfs_gen_calldata.rs:198-206 | a feed that is not updated resolves to the same value after a post if and only if its row is not rewritten or the table already had the index put on its slot |
| `AdfsFeeds.ReloadKeepsNeighbourIff` | apps/sequencer/src/providers/provider.rs:210-234 | after counters are reloaded from the chain, rewriting a neighbour's row keeps the feed's latest value if and only if that value is not in ring slot 8191 |
| `AdfsRuns.StoredIff` | apps/sequencer/src/providers/eth_send_utils.rs:329-375 | over every run of posts with any configurations and iteration orders, rolled-back failures and restarts: a feed resolves to its newest value and its last 8192 values are held, at every point, if and only if no post puts a wrong index on its slot |
| `AdfsRuns.RunKeepsValues` | libs/feeds_processing/src/adfs_gen_calldata.rs:101-181 | over every run without restarts, whatever is put in the table: a feed's counter is the number of its published values, and its last 8192 values are in their ring slots |
| `AdfsRuns.RunKeepsFeeds` | libs/feeds_processing/src/adfs_gen_calldata.rs:101-248 | over every run without restarts in which every batch places feeds by their own strides, as signed batches do: counter, table entry and last 8192 values of every feed are those published |
| `AdfsRuns.HistoryIsReadable` | libs/ts/contracts/contracts/AggregatedDataFeedStore.sol:60-134 | after any run without restarts each of a feed's last 8192 values can be read at its ring index, whatever was put in the table |
| `AdfsRuns.LatestIsReadable` | libs/ts/contracts/contracts/AggregatedDataFeedStore.sol:136-227 | after any run in which no post put a wrong index on its slot, a feed that was ever published resolves, through its row slot, to the value published last |
| `AdfsRuns.RunAcceptedIff` | libs/ts/contracts/contracts/AggregatedDataFeedStore.sol:270-280 | a run of good batches with non-empty values is accepted if and only if the published heights increase strictly |
| `AdfsRuns.StoredAcrossRestartsIff` | apps/sequencer/src/providers/provider.rs:210-234 | over every run with restarts in which batches place feeds by their own strides: a feed resolves to its newest value at every point if and only if its index is never rewritten for a neighbour's sake while its counter is 0 although it has values |
| `AdfsDirect.DirectRunIff` | apps/sequencer/src/providers/eth_send_utils.rs:176-245 | over every run of direct posts: a feed resolves to its newest value at every point, whatever orders the hash maps are iterated in, if and only if every post is safe for it |
| `AdfsDirect.CheckedIff` | apps/sequencer/src/providers/eth_send_utils.rs:106-123 | what the sequencer can check ahead of a post decides whether it is safe: a misplaced feed must resolve to slot 0, a listed feed's counter must stand for its index, misplaced feeds with its id must bring its index to the row of stride 0, and a feed of a stray row nobody is put on must resolve to slot 0 |
| `AdfsDirect.SequencerRunIff` | apps/sequencer/src/providers/eth_send_utils.rs:329-375 | with the configuration the sequencer builds: a feed resolves to its newest value at every point, whatever the iteration orders, if and only if every post passes that check |
| `AdfsDirect.StrayIndexWritten` | libs/config/src/lib.rs:101-118 | an unregistered feed that alone is put on the row of stride 0 sets the index of the stride-0 feed with its id, whatever is stored and whatever the iteration order |
| `AdfsDirect.LonePostResetsFeed` | apps/sequencer/src/providers/eth_send_utils.rs:106-123 | the smallest such post: one update of feed 1 at stride 1 while feed 2 of stride 1 is not registered resets feed 2 of stride 0, which the batch never mentions, to slot 0 |
| `FeedTypes.EncodableExactly` | libs/feed_registry/src/types.rs:206-252 | for every decimal text without a sign: the error without fractional digits to keep, the failure from 2^256 on, and otherwise the 32 bytes |
| `FeedTypes.RawValues` | libs/feed_registry/src/types.rs:253-255 | texts and bytes are written as they are |
| `FeedTypes.ShortBytesRejected` | libs/feed_registry/src/types.rs:273-276 | fewer than 32 bytes, and no others, are rejected as too short for a decimal |
| `FeedTypes.NegativeIsRejected` | libs/feed_registry/src/types.rs:206-236 | every text with a minus sign is a parse error |
| `FeedTypes.EncodedFields` | libs/feed_registry/src/types.rs:239-251 | 24 bytes hold the scaled value modulo 2^192 and the last 8 the timestamp |
| `FeedTypes.CodecRoundTrip` | libs/feed_registry/src/types.rs:266-296 | decoding an encoded decimal gives the text cut or filled up to d fractional digits if and only if the scaled value is below 2^192 |
| `GroupOrder.EdgeIff` | apps/wit-converter/src/main.rs:75-90 | in the graph a group depends on another if and only if the other is the last one with a name the group lists among its dependencies |
| `GroupOrder.BuildEdges` | apps/wit-converter/src/main.rs:75-91 | the edge list of a group names exactly the groups that need it, by name, and in-degrees are the numbers of resolved dependencies; unknown names are left out |
| `GroupOrder.Release` | apps/wit-converter/src/main.rs:99-107 | counting down a group's dependents never underflows, keeps every in-degree equal to the unmet dependencies, and queues exactly those that become ready, each once |
| `GroupOrder.TopologicalOrder` | apps/wit-converter/src/main.rs:75-111 | terminates with a permutation; every group stands after all groups it needs, by name, if and only if none needs itself through others, and otherwise the order is that of insertion |
| `GroupOrder.OrderedIsAcyclic` | apps/wit-converter/src/main.rs:108-111 | a permutation with every dependency before its dependents exists only for acyclic graphs |
| `GroupOrder.StuckIsCyclic` | apps/wit-converter/src/main.rs:108-111 | if every remaining group has a remaining dependency there is a cycle |
| `WitConverter.DependsOnNameOnlyAtTop` | apps/wit-converter/src/converter.rs:103-111 | the plain conversion of a type depends on the requested name only in the top-level name field, aliases included |
| `WitConverter.DescribedIff` | apps/wit-converter/src/converter.rs:103-288 | conversion of a type succeeds exactly with a component that describes it, kind by kind and stated on the type table: a record is a tuple with one component per field, in order, named by the field and describing its type; variants, enums, options and results are unions with their cases in order, and so on for every kind |
| `WitConverter.ElementIff` | apps/wit-converter/src/converter.rs:303-360 | the text and size of a list's element are exactly those of its kind, with names in pascal case not looked into |
| `WitConverter.Converter.ConvertTypedef` | apps/wit-converter/src/converter.rs:103-288 | from every reachable memo the result is that of the recursion without memo: a component of the requested name that describes the type, or an error if there is none; the memo stays right and only grows |
| `WitConverter.Converter.ConvertAll` | apps/wit-converter/src/converter.rs:24-51 | succeeds if and only if every named record and variant has a component, and then gives the schema of the table: each name in pascal case stands for the last record or variant of that name and describes it; the not-a-tuple error never occurs |
| `WitConverter.ConvertsAllIff` | apps/wit-converter/src/converter.rs:42-50 | the conversion succeeds if and only if every entry converts, and then holds every entry's name |
| `WitConverter.VisitingOrderIrrelevant` | apps/wit-converter/src/converter.rs:27-50 | the result does not depend on the visiting order as long as types that share a converted name convert alike |
| `WitConverter.OneResultIff` | apps/wit-converter/src/converter.rs:27-50 | if every entry converts, all visiting orders give one result if and only if types that share a converted name convert alike |
| `SlotClock.WaitEndsTheSlot` | libs/feed_registry/src/registry.rs:345-358 | the computed wait is positive, at most one slot long, and ends exactly where the next slot begins |
| `SlotClock.SlotLasts` | libs/feed_registry/src/registry.rs:394-396 | the slot number does not change before the wait is over |
| `SlotClock.WakesInLaterSlot` | libs/feed_registry/src/registry.rs:326-343 | a timer that does not fire early wakes in a strictly later slot than it was set in |
| `SlotClock.RelevantIff` | libs/feed_registry/src/types.rs:153-172 | a report counts if and only if it is stamped in the current slot or exactly at the end of it, so a report at a boundary counts for two slots; a later one is from the future, and one stamped ahead of the first slot never counts |
| `BlockCreator.BlockCreator.RecvdFeedUpdateToBlock` | apps/sequencer/src/block_creator.rs:128-178 | an update whose value encodes, with the feed's decimals or 18, goes to the pending set if that is not full and to the end of the backlog otherwise; any other leaves the state unchanged |
| `BlockCreator.BlockCreator.constructor` | apps/sequencer/src/block_creator.rs:46-56 | the batch limit is the configured one, but at most 512 |
| `BlockCreator.BlockCreator.RecvdFeedManagementCmdToBlock` | apps/sequencer/src/block_creator.rs:181-213 | commands are kept in order, at most 32 of each kind |
| `BlockCreator.BlockCreator.EndOfSlot` | apps/sequencer/src/block_creator.rs:80-113 | emits a block exactly when there is something to emit, in ascending feed order, and refills from the backlog |
| `BlockCommands.CommandsAreAccounted` | apps/sequencer/src/block_creator.rs:100-213 | over every run, for each kind of command: those of all emitted blocks in order, followed by the waiting ones, are exactly those received in order, less those that arrived while 32 of the kind were waiting |
| `BlockCommands.SlotEndEmits` | apps/sequencer/src/block_creator.rs:80-113 | a slot end emits one block with all pending updates and commands if there are any, and none otherwise, and leaves no command waiting |
| `BlockCreator.BlockCreator.FillFromBacklog` | apps/sequencer/src/block_creator.rs:104-110 | the refill loop computes the refill function, which takes an update off the backlog before it looks at the capacity |
| `BlockCreator.OrderedAscending` | libs/data_feeds/src/feeds_processing.rs:50-56 | what is emitted is strictly ascending in the packed feed id, so a block never has two updates of one feed |
| `BlockCreatorRuns.RefillDropsIff` | apps/sequencer/src/block_creator.rs:104-110 | the refill loses an update if and only if the backlog without its last update already covers as many feeds as a block takes |
| `BlockCreatorRuns.RefillTakesFront` | apps/sequencer/src/block_creator.rs:104-110 | the refill takes from the front only and loses at most one update, the one just before what stays; a non-empty backlog gets strictly shorter |
| `BlockCreatorRuns.RunKeepsInv` | apps/sequencer/src/block_creator.rs:78-213 | over every run: the pending set is bounded with one update per feed, a backlog means it is full, the backlog is the latest part of what was accepted (so nothing overtakes it), every block fits, and at most one update is dropped per block |
| `BlockCreatorRuns.RunIsBalanced` | apps/sequencer/src/block_creator.rs:78-178 | over every run each accepted update is accounted for: as often as accepted it was emitted, is pending, is waiting, was ignored as a repeat of a pending feed, or was dropped by a refill |
| `BlockCreatorRuns.RunKeepsOrder` | apps/sequencer/src/block_creator.rs:78-178 | over every run each feed's updates leave in the order they were accepted, pending ones before waiting ones |
| `BlockCreatorRuns.BacklogDrains` | apps/sequencer/src/block_creator.rs:78-117 | without arrivals every block takes something off the backlog, and one block more than its length empties everything |
| `BlockCreatorRuns.PendingIsKept` | apps/sequencer/src/block_creator.rs:164-174 | a later update never replaces a pending one; it is ignored |
| `InMemDb.InMemDb.CreateNewBlock` | libs/blockchain_data_model/src/in_mem_db.rs:58-113 | the new block has the given issuer, height and time, the root of its actions, and the hash of the latest header, or the genesis hash if there is none; its actions have the same height and the first 32 feeds and deletions |
| `InMemDb.InMemDb.AddNextBlock` | libs/blockchain_data_model/src/in_mem_db.rs:138-173 | accepts exactly a header with a higher height that refers to the latest block or to genesis; a rejected call changes nothing |
| `InMemDb.RunIsChain` | libs/blockchain_data_model/src/in_mem_db.rs:138-173 | in every ledger reached by any calls, following previous-block hashes from the latest height visits the accepted headers in strictly descending height, and ends at the genesis hash |
| `InMemDb.StoredHeightsAreAccepted` | libs/blockchain_data_model/src/in_mem_db.rs:122-126 | the heights that can be looked up are exactly those of the accepted blocks |
| `InMemDb.RunIsAppendOnly` | libs/blockchain_data_model/src/in_mem_db.rs:115-136 | later calls never change or remove a height, header or actions entry |
| `InMemDb.ChainIsUnique` | libs/blockchain_data_model/src/in_mem_db.rs:49-56 | the chain below a hash is unique |
| `InMemDb.CreatedBlockAcceptedIff` | libs/blockchain_data_model/src/in_mem_db.rs:94-106 | a created block is accepted if and only if its height is above the latest one |
| `InMemDb.SlotsKeepTheFirst` | libs/blockchain_data_model/src/in_mem_db.rs:68-92 | reading the slots back gives the list cut to the slots there are, so a list that fits is not changed |
| `BlockProduction.HeightIsNew` | apps/sequencer/src/block_creator.rs:78-98 | in a timely turn the height computed after the timer fired is above every slot number known when it was set |
| `BlockProduction.RunOnSchedule` | apps/sequencer/src/block_creator.rs:73-133 | in every timely run, whatever the loop wakes up for, heights strictly increase and the chain never refuses a created block |
| `BlockProduction.RunRecordsCommands` | apps/sequencer/src/block_creator.rs:215-275 | in every timely run each emitted block with commands stands on the chain at its height, with all of its commands and no others |
| `BlockProduction.RunIssuesBlocks` | apps/sequencer/src/block_creator.rs:215-275 | in every timely run the chain has no blocks but those of emitted blocks with commands, each issued by this sequencer in some turn, at the height after the slot that was read in it and with its time |
| `BlockProduction.RefusalStops` | apps/sequencer/src/block_creator.rs:215-275 | in any turn, timely or not: a block with commands gets on the chain unless the loop fails, and then its height is above the latest one; otherwise the chain is as before |
| `Pipeline.EmittedBatchIsGood` | apps/sequencer/src/block_creator.rs:277-309 | a block's updates form a batch serializer and contract can handle on either route, if each update is of an addressable registered feed, encodes and fits its stride |
| `Pipeline.EmittedIsGood` | apps/sequencer/src/block_creator.rs:128-178 | it is enough that the updates that arrive are so, because every emitted one was accepted |
| `Pipeline.ProducedRunIsStored` | apps/sequencer/src/block_creator.rs:73-309 | end to end: the batches of a timely run, published in order, are all accepted, and every feed's counter and last 8192 values are those published; through a Safe every feed also resolves to its newest value at every point, and posted directly it does if and only if no post puts a wrong index on its slot |
| `Pipeline.ProducedDirectlyIff` | apps/sequencer/src/providers/eth_send_utils.rs:1130-1143 | a timely run posted directly, as on networks without a Safe: a feed resolves to its newest value at every point, whatever the iteration orders, if and only if every batch passes the sequencer's check for it |
| `Pipeline.ProductionBatches` | apps/sequencer/src/block_creator.rs:73-133 | the batching of a production run is a run of the block creator, so all its invariants hold of what is published |
| `Aggregation.CollectReportedValues` | libs/feeds_processing/src/utils.rs:188-213 | whatever order the reports are visited in, the values of the expected type are collected in that order and nothing else |
| `Aggregation.Median` | libs/feed_registry/src/aggregate.rs:121-145 | the middle value, or the mean of the two middle values, of the sorted numbers; an error if there is none |
| `Aggregation.NumbersOf` | libs/feed_registry/src/aggregate.rs:121-131 | only numbers count, in order |
| `Aggregation.MedianIsMiddle` | libs/feed_registry/src/aggregate.rs:135-145 | the median is the mean of the two values in the middle, counted by how many are below and up to them, which are one and the same for an odd number |
| `Aggregation.MedianInMajority` | libs/feed_registry/src/aggregate.rs:121-145 | if strictly more than half of the numbers lie in an interval, so does the median, for odd and even counts |
| `Aggregation.MedianBetweenExtremes` | libs/feed_registry/src/aggregate.rs:121-145 | the median is never outside the range of the numbers |
| `Aggregation.MedianOrderIndependent` | libs/feed_registry/src/aggregate.rs:121-145 | the median is the same for every order of the values |
| `Aggregation.MedianOfReports` | libs/feeds_processing/src/utils.rs:188-213 | two ways of visiting the same reports give the same median |
| `Aggregation.FaultyMinorityCannotMoveMedian` | libs/feeds_processing/src/utils.rs:97-111 | with a quorum reached, faulty reporters numbering less than half of it cannot move the median out of the interval all others agree on |
| `MajorityVote.MaxByCount` | libs/feed_registry/src/aggregate.rs:54-75 | whatever order the tally is visited in, the winner has the largest count |
| `MajorityVote.Vote` | libs/feed_registry/src/aggregate.rs:38-116 | errors for mixed and for no usable types; otherwise a value that occurs at least as often as any other, framed if it is bytes |
| `MajorityVote.StrictMajorityWins` | libs/feed_registry/src/aggregate.rs:54-75 | a value more than half of the votes agree on is the only possible winner |
| `MajorityVote.BuildFrame` | libs/feed_registry/src/aggregate.rs:77-116 | the bytes built from prefix, payload and padding are the frame |
| `MajorityVote.FrameLayout` | libs/feed_registry/src/aggregate.rs:90-116 | 16 bits of length including the prefix, the payload, and zeros up to the least length that is 2 modulo 64 |
| `MajorityVote.UnframeFrameIff` | libs/feed_registry/src/aggregate.rs:90-116 | the payload can be read back by its length prefix if and only if its length plus 2 is below 65536 |
| `History.PushContents` | libs/feed_registry/src/registry.rs:227-247 | the two slices of the ring hold the old values and the new one in order, without the oldest if the ring was full |
| `History.FeedAggregateHistory.PushNext` | libs/feed_registry/src/registry.rs:227-247 | pushes with the next number, or number 0 into an empty ring; no effect on an unregistered feed |
| `History.RunAgrees` | libs/feed_registry/src/registry.rs:185-264 | after any run of registering, pushing, clearing and deregistering, the slices are the last min(n, capacity) values since registration or clearing, in order, with consecutive numbers from 0 |
| `PublishPolicy.UnchangedSkippedIff` | libs/data_feeds/src/feeds_processing.rs:175 | an unchanged value is skipped until the heartbeat if and only if neither threshold nor value is zero |
| `PublishPolicy.HistoryIsPublished` | apps/sequencer/src/feeds/feed_slots_processor.rs:200-237 | when exactly the candidates that are not skipped are pushed, deciding against the ring is deciding against the last published value, whatever the capacity |
| `PublishPolicy.SkippedIff` | libs/data_feeds/src/feeds_processing.rs:152-196 | a candidate is skipped if and only if it is a number whose distance from the last published number, times 100, is below the threshold percentage of that number's magnitude, and less than the heartbeat has passed |
| `PublishPolicy.ReasonIff` | libs/data_feeds/src/feeds_processing.rs:152-196 | the reason a candidate is published for: no number, nothing or no number to compare with, the threshold, and the heartbeat only below the threshold |
| `PublishPolicy.PublicationGap` | libs/data_feeds/src/feeds_processing.rs:166-187 | with a heartbeat of at least 1 ms, consecutive publications are less than heartbeat plus arrival interval apart in every run |
| `PublishPolicy.ZeroHeartbeatReachesBound` | libs/data_feeds/src/feeds_processing.rs:166-174 | with heartbeat 0 the strict bound fails: a run with publications a whole interval apart |
| `TxSender.GetNonce` | apps/sequencer/src/aggregate_batch_consensus_processor.rs:203-227 | at most one round more than the limit; fails if and only if every allowed round failed |
| `TxSender.PostTransaction` | apps/sequencer/src/aggregate_batch_consensus_processor.rs:231-394 | at most one round more than the limit; ends with the first round that is not retried, and gives up if and only if all were |
| `TxSender.OutcomeIff` | apps/sequencer/src/aggregate_batch_consensus_processor.rs:231-394 | what each outcome of a round takes: the safe's nonce equal to the signed one, on a repeated attempt a configured network, an account and fees, and the answers to sending and receipt |
| `TxSender.SendSafeTransaction` | apps/sequencer/src/aggregate_batch_consensus_processor.rs:174-398 | for every sequence of network answers: every exit but a panic takes the transaction off the counter once, and the ring indices are rolled back once if and only if the task ends without a receipt |
| `TxSender.ReceiptIff` | apps/sequencer/src/aggregate_batch_consensus_processor.rs:231-396 | the task ends with a receipt if and only if it gets a nonce and the first round that is not retried has one |
| `TxSender.SuccessIff` | apps/sequencer/src/aggregate_batch_consensus_processor.rs:231-396 | it ends with a receipt of success if and only if some allowed round is ready, sent and gets its receipt, after rounds with another nonce, without fees or with a timeout |
| `TxSender.RollbackMeansNotPosted` | apps/sequencer/src/aggregate_batch_consensus_processor.rs:348-388 | a task that rolls back posted nothing in any round it took, unless a receipt timed out there |
| `TxSender.RollbackOfPostedBatch` | apps/sequencer/src/aggregate_batch_consensus_processor.rs:353-363 | a concrete sequence of answers after which a batch whose transaction the network took is rolled back |
| `TxAccounting.RunKeepsBooks` | apps/sequencer/src/feeds/votes_result_sender.rs:355-387 | over every run of announced, discarded and posted batches, in any overlap, the in-progress counter and every ring index are exact sums; no rollback ever saturates |
| `TxAccounting.EndedLikeTask` | apps/sequencer/src/aggregate_batch_consensus_processor.rs:348-409 | the end of a task changes the books exactly as the task changes the provider, and leaves the batch posted if and only if it got a receipt |
| `TxAccounting.ExpiredRollsBackOnly` | apps/sequencer/src/aggregate_batch_consensus_processor.rs:50-64 | a batch out of its time for signatures gives its ring indices back and leaves the in-progress counter |
| `TxAccounting.AnnouncedRaises` | apps/sequencer/src/feeds/votes_result_sender.rs:355-387 | a batch that goes out raises indices and counter, whether or not the message stream took it, and waits for its signatures if and only if it did and no other batch waits at its height |
| `TxAccounting.CounterCountsWaitingIff` | apps/sequencer/src/aggregate_batch_consensus_processor.rs:50-64 | the in-progress counter is the number of waiting batches if and only if no batch timed out waiting for signatures, failed to be delivered or had its task panic: the time-out path rolls indices back but not the counter |
| `TxAccounting.IndexCountsPostedIff` | apps/sequencer/src/feeds/votes_result_sender.rs:363-386 | with nothing waiting, a feed's index counts its posted batches if and only if none of its batches was undelivered or panicked |
| `TxAccounting.SlotsStayFreshIff` | apps/sequencer/src/providers/eth_send_utils.rs:1273-1302 | over every run: a feed's next value never goes to a slot that a live batch holds, or to an earlier one, if and only if every rollback of a batch with the feed hits the newest live batch with it |
| `TxAccounting.LiveCountersAscend` | apps/sequencer/src/providers/eth_send_utils.rs:1247-1302 | then no two live batches were serialized with the same counter of the feed, and later ones have higher ones |
| `TxAccounting.OverlappingRollbackReusesSlot` | apps/sequencer/src/providers/eth_send_utils.rs:1273-1302 | a run that fails it, taking the Safe's nonce aside: an older batch is rolled back after a newer one was announced, and the next value then goes to the ring slot the newer batch wrote |
| `SafeNonces.ExecutedInNonceOrder` | apps/sequencer/src/feeds/votes_result_sender.rs:291-312 | over every run the Safe executes batches in the order of the nonces they were announced with, each nonce once and without a gap |
| `SafeNonces.LossStalls` | apps/sequencer/src/aggregate_batch_consensus_processor.rs:50-64 | after one batch ran out of its time for signatures, was not delivered or had its task panic, no batch of the network announced later is ever executed, however the run goes on |
| `SafeNonces.NextIsExecutableIff` | apps/sequencer/src/feeds/votes_result_sender.rs:304-310 | with nothing waiting, the next batch gets the nonce the Safe executes next if and only if no batch was lost |
| `SafeNonces.ReuseNeedsExecution` | apps/sequencer/src/aggregate_batch_consensus_processor.rs:239-262 | the Safe's nonce allows that run if and only if the older transaction was executed although it was rolled back, as after a receipt that timed out |
| `OverlappingRuns.PostedValuesStay` | libs/ts/contracts/contracts/AggregatedDataFeedStore.sol:310-376 | over every run whose rollbacks hit the newest batch, with batches posted in any order the contract accepts: each posted value among the feed's last 8192 counters is in the slot its batch was announced with |
| `OverlappingRuns.ResolvesIff` | libs/feeds_processing/src/adfs_gen_calldata.rs:198-206 | over every run of overlapping batches: at every point the table resolves a feed to its newest posted value, if and only if every batch that only lists the feed is posted with the counter of that value |
| `OverlappingRuns.InTurnAlwaysCaughtUp` | libs/feeds_processing/src/adfs_gen_calldata.rs:198-206 | that holds if rollbacks hit the newest batch that updates or lists the feed, and a batch that only lists it is posted while no earlier batch with the feed is pending |
| `OverlappingRuns.OverlapKeepsFeed` | libs/ts/contracts/contracts/AggregatedDataFeedStore.sol:136-227 | in such runs the feed resolves to the value posted last, and that value is read back |

## Left out

- AdfsRuns.StoredIff: takes each batch as published or failed before the next one is serialized, as the loop of direct posts does; overlapping batches are in `OverlappingRuns`. Restarts come between batches and know the feed. A post whose receipt is not seen counts as the sequencer books it.
- AdfsRuns.RunKeepsFeeds: is about batches that place feeds by their own strides; `AdfsRuns.StoredIff` and `AdfsDirect.SequencerRunIff` have the exact condition for all others.
- AdfsDirect.SequencerRunIff: the registered feeds do not change during the run; `AdfsDirect.DirectRunIff` lets them.
- AdfsAgreement.AgreementIff: nothing is said about byte strings that coincide although one side skipped an update the other emitted; `AdfsAgreement.SameValuesAgreeIff` has no such case.
- AdfsPosts.IndexAfterPost: updated feeds are registered if their stride is above 0, and every update is emitted; an update of a feed deregistered meanwhile would be written to the region of stride 0.
- Pipeline.ProducedRunIsStored: every batch is posted with all of its updates; the feeds a network allows and its publish criteria, which may drop some ahead of posting, are not applied.
- OverlappingRuns.ResolvesIff: a transaction counts as executed exactly when its receipt says so; one that is mined after its batch was rolled back is not followed further.
- AdfsStore.BatchAcceptedIff: the contract reads a record's header from one 32-byte word; the model reads it field by field, and `AdfsStore.HeaderFitsWord` shows that serialized headers fit.
- FeedTypes.CodecRoundTrip: states the decoded decimal text, not the float, because printing and parsing of IEEE 754 floats (with NaN, infinities and rounding) are not modelled.
- FeedTypes.EncodableExactly: the big-integer parser's acceptance of `+` and `_` is not modelled; floats never print them.
- AdfsCalldata.SerializeUpdate: a decimal of 2^256 or more makes the source panic; the model skips such an update.
- BlockCreator.BlockCreator.RecvdFeedUpdateToBlock: the same panic is modelled as an update that does not encode.
- BlockCreator.BlockCreator.EndOfSlot: the ordered set is a map by packed feed id, and the proofs that travel with updates are not carried along.
- InMemDb.RunIsChain: Merkle roots are arbitrary functions without collisions and never fail; SSZ serialization and the fields of a feed's configuration that the chain only stores are not modelled.
- Aggregation.Median: sorting is a specification function (the standard library sorts in the source), over reals.
- Validation.Validate: the transaction hash is an arbitrary function; textual numbers and addresses are given as they parse.
- TxSender.SendSafeTransaction: gas fees, metrics and waiting times are not modelled; the account nonce is only obtained, not used.
- TxAccounting.RunKeepsBooks: one network; collecting signatures and the time-out rule of `AggregationBatchConsensus` are events, not computed.
- WitConverter.Converter.ConvertTypedef: the type table is acyclic, as the WIT parser guarantees; `error-context` types, which the source does not implement, do not occur.
- GroupOrder.TopologicalOrder: parsing packages and inserting them into the resolver are not modelled.
- SafeNonces.LossStalls: the nonce of the Safe is read and the counter raised in one step, and nobody else uses the Safe.
- SlotClock.WaitEndsTheSlot: periodic slots only; one-shot feeds have the single slot 0, whose wait can be negative.
- Averages, quorum in 32-bit floats, pegged stable coins and anomaly detection (which returns the last value) are not modelled.
- Access control, events, upgrades and slices of reads in the contract are not modelled.
- Network, Kafka, RPC transport, WASM execution, metrics, logging, configuration loading and all TypeScript user interfaces are not modelled.
- Signatures and hashing (BLS, ECDSA, keccak, EIP-712) are not modelled beyond being functions.
