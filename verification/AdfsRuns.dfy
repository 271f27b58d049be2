/** Runs of the sequencer against the store, one batch after the other: which feeds always resolve to their
    latest value. */
module AdfsRuns {
  import opened Sets
  import opened Bytes
  import opened Wrappers
  import opened AdfsLayout
  import opened AdfsRows
  import opened AdfsCalldata
  import opened AdfsAgreement
  import opened AdfsContract
  import opened AdfsStore
  import opened AdfsPosts
  import opened AdfsFeeds

  datatype Event =
    /** A batch reaches the contract, with the configuration the sequencer has then and the order its hash
        map is iterated in. */
    | Published(batch: Batch, cfg: Config, order: seq<EncodedFeedId>)
    /** Its transaction fails and the counters are rolled back. */
    | Failed(batch: Batch)
    /** The sequencer reads the counters of the registered feeds back from the contract. */
    | Restarted(registered: set<EncodedFeedId>)

  datatype World = World(storage: Storage, rbs: RoundBufferIndices)

  const START: World := World(map[], map[])

  function LatestOrZero(st: Storage, f: EncodedFeedId): nat {
    match GetLatestIndex(st, f)
    case None => 0
    case Some(latest) => latest
  }

  /** The registered feeds, and their neighbours with an index other than 0. */
  function LoadedFeeds(st: Storage, registered: set<EncodedFeedId>): set<EncodedFeedId> {
    registered + set g, f | g in registered && f in NeighbourFeedIds(g) && LatestOrZero(st, f) != 0 :: f
  }

  function Loaded(st: Storage, registered: set<EncodedFeedId>): RoundBufferIndices {
    map f | f in LoadedFeeds(st, registered) :: ReloadedCounter(LatestOrZero(st, f))
  }

  ghost predicate OrderFits(e: Event) {
    e.Published? ==> Enumerates(e.order, NeighbourSet(e.batch.updates))
  }

  /** None when the contract reverts. */
  ghost function Step(w: World, e: Event): Option<World>
    requires OrderFits(e)
  {
    match e
    case Published(batch, cfg, order) =>
      var st :- Post(w.storage, batch, cfg, w.rbs, order);
      Some(World(st, Incremented(w.rbs, FeedsOf(batch))))
    case Failed(batch) =>
      Some(World(w.storage, Decremented(Incremented(w.rbs, FeedsOf(batch)), FeedsOf(batch))))
    case Restarted(registered) =>
      Some(World(w.storage, Loaded(w.storage, registered)))
  }

  ghost predicate OrdersFit(events: seq<Event>) {
    forall e :: e in events ==> OrderFits(e)
  }

  ghost function Run(events: seq<Event>): Option<World>
    requires OrdersFit(events)
  {
    if events == [] then Some(START)
    else
      var w :- Run(events[..|events| - 1]);
      Step(w, events[|events| - 1])
  }

  /** Everything a run has published for a feed, oldest first. */
  function Log(events: seq<Event>, f: EncodedFeedId): seq<seq<byte>> {
    if events == [] then [] else Log(events[..|events| - 1], f) + Appended(events[|events| - 1], f)
  }

  function Appended(e: Event, f: EncodedFeedId): seq<seq<byte>> {
    if e.Published? then ValuesOf(e.batch.updates, e.cfg, f) else []
  }

  /** The ring slot of the feed's first value: a restart before it leaves slot 0 out. */
  function Base(events: seq<Event>, f: EncodedFeedId): nat {
    if events == [] then 0 else NextBase(events[|events| - 1], Log(events[..|events| - 1], f), Base(events[..|events| - 1], f))
  }

  function NextBase(e: Event, log: seq<seq<byte>>, base: nat): nat {
    if e.Restarted? && log == [] then 1 else base
  }

  /** Good batches, and restarts that know the feed. */
  ghost predicate GoodEvent(e: Event, f: EncodedFeedId) {
    && OrderFits(e)
    && match e
       case Published(batch, cfg, _) => GoodBatch(batch, cfg)
       case Failed(batch) => Distinct(FeedsOf(batch))
       case Restarted(registered) => f in registered
  }

  ghost predicate GoodEvents(events: seq<Event>, f: EncodedFeedId) {
    forall e :: e in events ==> GoodEvent(e, f)
  }

  /** The counter stands for the slot after the newest value; the first slot is 0 or 1. */
  predicate CounterInv(rbs: RoundBufferIndices, f: EncodedFeedId, log: seq<seq<byte>>, base: nat) {
    && base <= 1
    && RingIndex(RbFor(rbs, f)) == RingIndex(base + |log|)
    && (log == [] ==> RbFor(rbs, f) == base)
  }

  lemma RingIndexNext(n: nat)
    ensures RingIndex(n + 1) == if RingIndex(n) == MAX_HISTORY_ELEMENTS_PER_FEED - 1 then 0 else RingIndex(n) + 1
  {
  }

  lemma RingIndexAfter(n: nat, m: nat)
    requires RingIndex(n) == RingIndex(m)
    ensures RingIndex(n + 1) == RingIndex(m + 1)
  {
    RingIndexNext(n);
    RingIndexNext(m);
  }

  lemma ReloadedNext(m: nat)
    requires m > 0
    ensures RingIndex(ReloadedCounter(RingIndex(m - 1))) == RingIndex(m)
  {
    RingIndexAfter(RingIndex(m - 1), m - 1);
  }

  lemma NothingAppended(batch: Batch, cfg: Config, f: EncodedFeedId, log: seq<seq<byte>>)
    requires f !in UpdatedFeeds(batch.updates)
    ensures log + ValuesOf(batch.updates, cfg, f) == log
  {
    ValuesOfAbsent(batch.updates, cfg, f);
  }

  lemma PublishKeepsCounter(rbs: RoundBufferIndices, batch: Batch, cfg: Config, f: EncodedFeedId, log: seq<seq<byte>>, base: nat)
    requires Distinct(FeedsOf(batch)) && CounterInv(rbs, f, log, base)
    ensures CounterInv(Incremented(rbs, FeedsOf(batch)), f, log + ValuesOf(batch.updates, cfg, f), base)
  {
    IncrementedCount(rbs, FeedsOf(batch), f);
    ValuesOfCount(batch, cfg, f);
    if f in FeedsOf(batch) {
      RingIndexAfter(RbFor(rbs, f), base + |log|);
      assert base + |log + ValuesOf(batch.updates, cfg, f)| == base + |log| + 1;
    } else {
      NothingAppended(batch, cfg, f, log);
    }
  }

  lemma RestartKeepsCounter(st: Storage, registered: set<EncodedFeedId>, f: EncodedFeedId, log: seq<seq<byte>>, base: nat)
    requires f in registered && base <= 1 && GetLatestIndex(st, f) == Some(LatestSlot(log, base))
    ensures CounterInv(Loaded(st, registered), f, log, if log == [] then 1 else base)
  {
    assert f in LoadedFeeds(st, registered);
    if log != [] {
      ReloadedNext(base + |log|);
    }
  }

  //
  // Exactly when a feed always resolves to its newest value
  //

  /** The event puts no wrong index on the feed's slot. */
  ghost predicate PutsRight(w: World, e: Event, f: EncodedFeedId, latest: nat) {
    e.Published? ==> Undisturbed(e.batch, e.cfg, w.rbs, e.order, f, latest)
  }

  lemma PublishedStep(w: World, e: Event, f: EncodedFeedId, log: seq<seq<byte>>, base: nat)
    requires e.Published? && GoodEvent(e, f) && Addressable(f) && Step(w, e).Some?
    requires StoredInv(w.storage, f, log, base) && CounterInv(w.rbs, f, log, base)
    ensures var w', log' := Step(w, e).value, log + Appended(e, f);
            && CounterInv(w'.rbs, f, log', base)
            && (StoredInv(w'.storage, f, log', base) <==> PutsRight(w, e, f, LatestSlot(log, base)))
  {
    PublishKeepsCounter(w.rbs, e.batch, e.cfg, f, log, base);
    PostKeepsStoredIff(w.storage, e.batch, e.cfg, w.rbs, e.order, f, log, base);
  }

  lemma FailedStep(w: World, e: Event, f: EncodedFeedId, log: seq<seq<byte>>, base: nat)
    requires e.Failed? && GoodEvent(e, f) && StoredInv(w.storage, f, log, base) && CounterInv(w.rbs, f, log, base)
    ensures var w' := Step(w, e).value;
            CounterInv(w'.rbs, f, log + [], base) && StoredInv(w'.storage, f, log + [], base)
  {
    assert log + [] == log;
    RollbackRestores(w.rbs, FeedsOf(e.batch), f);
  }

  lemma RestartedStep(w: World, e: Event, f: EncodedFeedId, log: seq<seq<byte>>, base: nat)
    requires e.Restarted? && GoodEvent(e, f) && StoredInv(w.storage, f, log, base) && CounterInv(w.rbs, f, log, base)
    ensures var w', base' := Step(w, e).value, NextBase(e, log, base);
            CounterInv(w'.rbs, f, log + [], base') && StoredInv(w'.storage, f, log + [], base')
  {
    assert log + [] == log;
    RestartKeepsCounter(w.storage, e.registered, f, log, base);
    RestartKeepsStored(w.storage, f, log, base);
  }

  lemma RestartKeepsStored(st: Storage, f: EncodedFeedId, log: seq<seq<byte>>, base: nat)
    requires StoredInv(st, f, log, base)
    ensures StoredInv(st, f, log, if log == [] then 1 else base)
  {
  }

  /** One step from a state in which index, values and counter fit the log. */
  lemma StepStoredIff(w: World, e: Event, f: EncodedFeedId, log: seq<seq<byte>>, base: nat)
    requires GoodEvent(e, f) && Addressable(f) && Step(w, e).Some?
    requires StoredInv(w.storage, f, log, base) && CounterInv(w.rbs, f, log, base)
    ensures var w', log', base' := Step(w, e).value, log + Appended(e, f), NextBase(e, log, base);
            && CounterInv(w'.rbs, f, log', base')
            && (StoredInv(w'.storage, f, log', base') <==> PutsRight(w, e, f, LatestSlot(log, base)))
  {
    match e
    case Published(_, _, _) => PublishedStep(w, e, f, log, base);
    case Failed(_) => FailedStep(w, e, f, log, base);
    case Restarted(_) => RestartedStep(w, e, f, log, base);
  }

  /** At every point of the run the feed resolves to its newest value, and its newest values are held. */
  ghost predicate AlwaysStored(events: seq<Event>, f: EncodedFeedId)
    requires OrdersFit(events) && Run(events).Some?
  {
    StoredInv(Run(events).value.storage, f, Log(events, f), Base(events, f)) &&
    (events == [] || AlwaysStored(events[..|events| - 1], f))
  }

  /** At every step of the run. */
  ghost predicate AlwaysPutsRight(events: seq<Event>, f: EncodedFeedId)
    requires OrdersFit(events) && Run(events).Some?
  {
    events == [] ||
    (var front := events[..|events| - 1];
     && AlwaysPutsRight(front, f)
     && PutsRight(Run(front).value, events[|events| - 1], f, LatestSlot(Log(front, f), Base(front, f))))
  }

  /** Over every run of accepted, failed and restarted steps, with any configuration and iteration order of each
      batch: the contract resolves the feed to its newest value, and holds its last 8192 values, at every point
      exactly if no posted batch puts a wrong index on the feed's slot. */
  lemma {:induction false} StoredIff(events: seq<Event>, f: EncodedFeedId)
    requires GoodEvents(events, f) && OrdersFit(events) && Run(events).Some? && Addressable(f)
    ensures AlwaysStored(events, f) <==> AlwaysPutsRight(events, f)
    ensures AlwaysStored(events, f) ==> CounterInv(Run(events).value.rbs, f, Log(events, f), Base(events, f))
  {
    if events == [] {
      NothingStored(f);
    } else {
      var front, e := events[..|events| - 1], events[|events| - 1];
      StoredIff(front, f);
      if AlwaysStored(front, f) {
        StepStoredIff(Run(front).value, e, f, Log(front, f), Base(front, f));
      }
    }
  }

  //
  // Without restarts the values are held whatever happens to the table
  //

  ghost predicate NoRestart(events: seq<Event>) {
    forall e :: e in events ==> !e.Restarted?
  }

  lemma {:induction false} BaseIsZero(events: seq<Event>, f: EncodedFeedId)
    requires NoRestart(events)
    ensures Base(events, f) == 0
  {
    if events == [] {
    } else {
      BaseIsZero(events[..|events| - 1], f);
    }
  }

  lemma StepKeepsValues(w: World, e: Event, f: EncodedFeedId, log: seq<seq<byte>>)
    requires GoodEvent(e, f) && !e.Restarted? && Addressable(f) && Step(w, e).Some?
    requires RbFor(w.rbs, f) == |log| && HoldsLog(w.storage, f, log, 0)
    ensures RbFor(Step(w, e).value.rbs, f) == |log + Appended(e, f)|
    ensures HoldsLog(Step(w, e).value.storage, f, log + Appended(e, f), 0)
  {
    StepCounts(w, e, f, log);
    if e.Published? {
      PublishedHolds(w, e, f, log);
    } else {
      FailedHolds(w, e, f, log);
    }
  }

  lemma PublishedHolds(w: World, e: Event, f: EncodedFeedId, log: seq<seq<byte>>)
    requires e.Published? && GoodEvent(e, f) && Addressable(f) && Step(w, e).Some?
    requires RbFor(w.rbs, f) == |log| && HoldsLog(w.storage, f, log, 0)
    ensures HoldsLog(Step(w, e).value.storage, f, log + Appended(e, f), 0)
  {
    assert RingIndex(RbFor(w.rbs, f)) == RingIndex(0 + |log|);
    PublishedLog(w, e, f, log, 0);
  }

  lemma PublishedLog(w: World, e: Event, f: EncodedFeedId, log: seq<seq<byte>>, base: nat)
    requires e.Published? && GoodEvent(e, f) && Addressable(f) && Step(w, e).Some?
    requires RingIndex(RbFor(w.rbs, f)) == RingIndex(base + |log|) && HoldsLog(w.storage, f, log, base)
    ensures HoldsLog(Step(w, e).value.storage, f, log + Appended(e, f), base)
  {
    PostKeepsLog(w.storage, e.batch, e.cfg, w.rbs, e.order, f, log, base);
  }

  lemma FailedHolds(w: World, e: Event, f: EncodedFeedId, log: seq<seq<byte>>)
    requires e.Failed? && GoodEvent(e, f) && HoldsLog(w.storage, f, log, 0)
    ensures HoldsLog(Step(w, e).value.storage, f, log + Appended(e, f), 0)
  {
    assert log + [] == log;
  }

  lemma StepCounts(w: World, e: Event, f: EncodedFeedId, log: seq<seq<byte>>)
    requires GoodEvent(e, f) && !e.Restarted? && Step(w, e).Some? && RbFor(w.rbs, f) == |log|
    ensures RbFor(Step(w, e).value.rbs, f) == |log + Appended(e, f)|
  {
    if e.Published? {
      IncrementedCount(w.rbs, FeedsOf(e.batch), f);
      ValuesOfCount(e.batch, e.cfg, f);
    } else {
      RollbackRestores(w.rbs, FeedsOf(e.batch), f);
    }
  }

  /** After any run without restarts a feed's counter is the number of its published values, and its last 8192
      values are in their ring slots, whatever was put in the table. */
  lemma {:induction false} RunKeepsValues(events: seq<Event>, f: EncodedFeedId)
    requires GoodEvents(events, f) && NoRestart(events) && OrdersFit(events) && Run(events).Some? && Addressable(f)
    ensures RbFor(Run(events).value.rbs, f) == |Log(events, f)|
    ensures HoldsLog(Run(events).value.storage, f, Log(events, f), 0)
  {
    if events == [] {
    } else {
      var front := events[..|events| - 1];
      RunKeepsValues(front, f);
      StepKeepsValues(Run(front).value, events[|events| - 1], f, Log(front, f));
    }
  }

  /** After any run without restarts the last 8192 values of a feed are all readable at their ring slots. */
  lemma HistoryIsReadable(events: seq<Event>, f: EncodedFeedId, k: nat)
    requires GoodEvents(events, f) && NoRestart(events) && OrdersFit(events) && Run(events).Some? && Addressable(f)
    requires k < |Log(events, f)| <= k + MAX_HISTORY_ELEMENTS_PER_FEED
    ensures ReadableAt(Run(events).value.storage, f, Log(events, f), 0, k)
  {
    RunKeepsValues(events, f);
    HeldIsReadable(Run(events).value.storage, f, Log(events, f), 0, k);
  }

  /** After any run in which no batch put a wrong index on its slot, a feed that was ever published resolves to
      the value published last. */
  lemma LatestIsReadable(events: seq<Event>, f: EncodedFeedId)
    requires GoodEvents(events, f) && OrdersFit(events) && Run(events).Some? && Addressable(f)
    requires AlwaysPutsRight(events, f) && Log(events, f) != []
    ensures ReadsNewest(Run(events).value.storage, f, Log(events, f), Base(events, f))
  {
    StoredIff(events, f);
    NewestIsReadable(Run(events).value.storage, f, Log(events, f), Base(events, f));
  }

  //
  // When every batch places every feed by its own stride
  //

  ghost predicate OwnStrides(events: seq<Event>) {
    forall e :: e in events && e.Published? ==> ConsistentConfig(e.batch, e.cfg)
  }

  lemma LastRingIndex(m: nat)
    requires m > 0 && RingIndex(m) == 0
    ensures RingIndex(m - 1) == MAX_HISTORY_ELEMENTS_PER_FEED - 1
  {
    RingIndexNext(m - 1);
  }

  lemma RingIndexBefore(n: nat, m: nat)
    requires n > 0 && m > 0 && RingIndex(n) == RingIndex(m)
    ensures RingIndex(n - 1) == RingIndex(m - 1)
  {
    RingIndexNext(n - 1);
    RingIndexNext(m - 1);
  }

  /** The counter of a listed feed stands for the newest value unless it is 0 though there are values. */
  lemma ListedFitsIff(rbs: RoundBufferIndices, f: EncodedFeedId, log: seq<seq<byte>>, base: nat)
    requires CounterInv(rbs, f, log, base)
    ensures LaneValue(RbFor(rbs, f), false) == LatestSlot(log, base) <==> !(RbFor(rbs, f) == 0 && log != [])
  {
    if log != [] {
      if RbFor(rbs, f) == 0 {
        LastRingIndex(base + |log|);
      } else {
        RingIndexBefore(RbFor(rbs, f), base + |log|);
      }
    }
  }

  /** The batch rewrites the feed's index for a neighbour's sake while the counter is 0 though there are values. */
  predicate LosesIndex(w: World, e: Event, f: EncodedFeedId, log: seq<seq<byte>>) {
    && e.Published?
    && f in NeighbourSet(e.batch.updates) && f !in UpdatedFeeds(e.batch.updates)
    && RbFor(w.rbs, f) == 0 && log != []
  }

  lemma OwnStridePutsRightIff(w: World, e: Event, f: EncodedFeedId, log: seq<seq<byte>>, base: nat)
    requires GoodEvent(e, f) && (e.Published? ==> ConsistentConfig(e.batch, e.cfg)) && CounterInv(w.rbs, f, log, base)
    ensures PutsRight(w, e, f, LatestSlot(log, base)) <==> !LosesIndex(w, e, f, log)
  {
    if e.Published? {
      ConsistentPut(e.batch, e.cfg, w.rbs, e.order, f);
      ListedFitsIff(w.rbs, f, log, base);
    }
  }

  ghost predicate NeverLosesIndex(events: seq<Event>, f: EncodedFeedId)
    requires OrdersFit(events) && Run(events).Some?
  {
    events == [] ||
    (var front := events[..|events| - 1];
     NeverLosesIndex(front, f) && !LosesIndex(Run(front).value, events[|events| - 1], f, Log(front, f)))
  }

  /** If every batch places every feed by its own stride, only a restart can spoil the table: the feed resolves to
      its newest value at every point exactly if its index is never rewritten for a neighbour's sake while its
      counter is 0 though it has values. */
  lemma {:induction false} StoredAcrossRestartsIff(events: seq<Event>, f: EncodedFeedId)
    requires GoodEvents(events, f) && OwnStrides(events) && OrdersFit(events) && Run(events).Some? && Addressable(f)
    ensures AlwaysStored(events, f) <==> NeverLosesIndex(events, f)
  {
    if events == [] {
      NothingStored(f);
    } else {
      var front, e := events[..|events| - 1], events[|events| - 1];
      StoredAcrossRestartsIff(front, f);
      StoredIff(front, f);
      if AlwaysStored(front, f) {
        StepStoredIff(Run(front).value, e, f, Log(front, f), Base(front, f));
        OwnStridePutsRightIff(Run(front).value, e, f, Log(front, f), Base(front, f));
      }
    }
  }

  /** What the storage and the counters say about one feed, given everything published for it. */
  ghost predicate FeedInv(w: World, f: EncodedFeedId, log: seq<seq<byte>>) {
    RbFor(w.rbs, f) == |log| && StoredInv(w.storage, f, log, 0)
  }

  lemma {:induction false} NeverLosesWithoutRestart(events: seq<Event>, f: EncodedFeedId)
    requires GoodEvents(events, f) && NoRestart(events) && OrdersFit(events) && Run(events).Some? && Addressable(f)
    ensures NeverLosesIndex(events, f)
  {
    if events == [] {
    } else {
      NeverLosesWithoutRestart(events[..|events| - 1], f);
      RunKeepsValues(events[..|events| - 1], f);
    }
  }

  /** After any run without restarts whose batches place every feed by its own stride, counters, index table and
      value regions agree with the list of values published for each feed. */
  lemma RunKeepsFeeds(events: seq<Event>, f: EncodedFeedId)
    requires GoodEvents(events, f) && NoRestart(events) && OwnStrides(events)
    requires OrdersFit(events) && Run(events).Some? && Addressable(f)
    ensures FeedInv(Run(events).value, f, Log(events, f)) && AlwaysPutsRight(events, f)
  {
    RunKeepsValues(events, f);
    NeverLosesWithoutRestart(events, f);
    StoredAcrossRestartsIff(events, f);
    StoredIff(events, f);
    BaseIsZero(events, f);
  }

  //
  // Which runs the contract accepts
  //

  /** The height of the last published batch; 0 before the first one. */
  function LatestHeight(events: seq<Event>): nat {
    if events == [] then 0
    else if events[|events| - 1].Published? then events[|events| - 1].batch.blockHeight
    else LatestHeight(events[..|events| - 1])
  }

  /** Published heights increase strictly. */
  predicate HeightsIncrease(events: seq<Event>) {
    events == [] ||
    (var front, e := events[..|events| - 1], events[|events| - 1];
     HeightsIncrease(front) && (e.Published? ==> e.batch.blockHeight > LatestHeight(front)))
  }

  ghost predicate ValuesNotEmpty(events: seq<Event>) {
    forall e, u :: e in events && e.Published? && u in e.batch.updates ==> EncodedValue(u, e.cfg) != []
  }

  ghost predicate GoodBatches(events: seq<Event>) {
    forall e :: e in events && e.Published? ==> GoodBatch(e.batch, e.cfg)
  }

  /** A run of good batches with non-empty values is accepted exactly when its heights increase. */
  lemma {:induction false} RunAcceptedIff(events: seq<Event>)
    requires GoodBatches(events) && ValuesNotEmpty(events) && OrdersFit(events)
    ensures Run(events).Some? <==> HeightsIncrease(events)
    ensures Run(events).Some? ==> Sload(Run(events).value.storage, 0) == LatestHeight(events)
  {
    if events == [] {
    } else {
      var front, e := events[..|events| - 1], events[|events| - 1];
      RunAcceptedIff(front);
      if Run(front).Some? {
        StepAcceptedIff(Run(front).value, e);
      }
    }
  }

  lemma StepAcceptedIff(w: World, e: Event)
    requires OrderFits(e) && (e.Published? ==> GoodBatch(e.batch, e.cfg))
    requires e.Published? ==> forall u :: u in e.batch.updates ==> EncodedValue(u, e.cfg) != []
    ensures Step(w, e).Some? <==> !e.Published? || e.batch.blockHeight > Sload(w.storage, 0)
    ensures Step(w, e).Some? ==>
            Sload(Step(w, e).value.storage, 0) == if e.Published? then e.batch.blockHeight else Sload(w.storage, 0)
  {
    if e.Published? {
      var rows := Rows(e.batch, e.cfg, w.rbs, e.order);
      RowsFit(e.batch, e.cfg, w.rbs, e.order);
      BatchAcceptedIff(w.storage, e.batch, e.cfg, w.rbs, rows);
      if Step(w, e).Some? {
        HeightAfterBatch(w.storage, e.batch, e.cfg, w.rbs, rows);
      }
    }
  }
}
