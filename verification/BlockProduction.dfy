/** Clock, block creator and chain together: a slot ends, a block is emitted, its commands go on the
    chain and its updates to the contract. */
module BlockProduction {
  import opened Bytes
  import opened Wrappers
  import opened SlotClock
  import opened BlockCreator
  import opened BlockCreatorRuns
  import opened InMemDb

  datatype Setup = Setup(tracker: SlotTimeTracker, max: nat, issuer: nat, roots: Roots)

  /** One turn of the event loop. The timer is set at `started`; if the slot end is what the loop wakes
      up for, it does so at `woken`, reads the clock for the height at `read`, and stamps the block at
      `stamped`. */
  datatype Turn = Turn(event: Event, started: nat, woken: nat, read: nat, stamped: nat, ended: nat)

  /** The clock never runs backwards, timers do not fire early, and times in milliseconds fit 64 bits. */
  ghost predicate TimelyTurn(t: SlotTimeTracker, clock: nat, turn: Turn)
    requires t.Valid() && t.start <= clock
  {
    && clock <= turn.started <= turn.woken <= turn.read <= turn.stamped <= turn.ended < TWO_64 - 1
    && (turn.event.SlotEnd? ==> turn.started + t.DurationUntilEndOfCurrentSlot(turn.started) <= turn.woken)
  }

  function ClockAfter(begin: nat, turns: seq<Turn>): nat {
    if turns == [] then begin else turns[|turns| - 1].ended
  }

  ghost predicate Timely(t: SlotTimeTracker, begin: nat, turns: seq<Turn>)
    ensures t.Valid() && t.start <= begin && Timely(t, begin, turns) ==> t.start <= ClockAfter(begin, turns)
  {
    && t.Valid()
    && t.start <= begin
    && (turns == [] ||
        (var front := turns[..|turns| - 1];
         Timely(t, begin, front) && TimelyTurn(t, ClockAfter(begin, front), turns[|turns| - 1])))
  }

  /** The height of the block of a slot, cut to 64 bits. */
  function BlockHeight(t: SlotTimeTracker, read: nat): nat
    requires t.Valid() && t.start <= read
  {
    (t.LastSlot(read) + 1) % TWO_64
  }

  datatype System = System(books: Books, ledger: Ledger, heights: seq<nat>, failed: bool)

  predicate HasCommands(block: EmittedBlock) {
    block.newFeeds != [] || block.toDelete != []
  }

  function NewBlockOf(p: Setup, l: Ledger, block: EmittedBlock, height: nat, stamped: nat): (BlockHeader, FeedActions)
    requires l.LatestReadable()
  {
    NewBlock(p.roots, l, p.issuer, height, stamped, block.newFeeds, block.toDelete)
  }

  /** `generate_block`: a block that carries commands is added to the chain; the loop dies if the chain
      refuses it. */
  function Advance(p: Setup, s: System, turn: Turn): (next: System)
    requires p.tracker.Valid() && p.tracker.start <= turn.read && s.ledger.LatestReadable()
    ensures next.ledger.LatestReadable()
  {
    var books := BlockCreatorRuns.Step(p.max, s.books, turn.event);
    if !turn.event.SlotEnd? || !s.books.state.HasData() then s.(books := books)
    else
      var block := Emission(s.books.state);
      var height := BlockHeight(p.tracker, turn.read);
      var heights := s.heights + [height];
      if !HasCommands(block) then System(books, s.ledger, heights, s.failed)
      else
        var (header, actions) := NewBlockOf(p, s.ledger, block, height, turn.stamped);
        System(books, AddNext(p.roots, s.ledger, header, actions), heights,
               s.failed || !Accepts(p.roots, s.ledger, header))
  }

  ghost function Run(p: Setup, begin: nat, turns: seq<Turn>): (s: System)
    requires Timely(p.tracker, begin, turns)
    ensures s.ledger.LatestReadable()
  {
    if turns == [] then System(BlockCreatorRuns.Run(p.max, []), EMPTY, [], false)
    else Advance(p, Run(p, begin, turns[..|turns| - 1]), turns[|turns| - 1])
  }

  //
  // Heights
  //

  ghost predicate Increasing(heights: seq<nat>) {
    forall i, j :: 0 <= i < j < |heights| ==> heights[i] < heights[j]
  }

  function LastOf(heights: seq<nat>): nat {
    if heights == [] then 0 else heights[|heights| - 1]
  }

  /** Nothing failed so far, heights increase, and none is above the slot after the current one. */
  ghost predicate OnSchedule(p: Setup, s: System, clock: nat)
    requires p.tracker.Valid() && p.tracker.start <= clock
  {
    && !s.failed
    && |s.heights| == |s.books.blocks|
    && Increasing(s.heights)
    && LastOf(s.heights) <= p.tracker.LastSlot(clock) + 1
    && s.ledger.latest <= LastOf(s.heights)
    && (forall i :: 0 <= i < |s.heights| ==> 0 < s.heights[i] < TWO_64)
  }

  /** The height of the next block is above every slot number known when the timer was set. */
  lemma HeightIsNew(t: SlotTimeTracker, clock: nat, turn: Turn)
    requires t.Valid() && t.start <= clock && TimelyTurn(t, clock, turn) && turn.event.SlotEnd?
    ensures t.LastSlot(clock) + 1 < BlockHeight(t, turn.read) < TWO_64
    ensures BlockHeight(t, turn.read) <= t.LastSlot(turn.ended) + 1
  {
    SlotMonotone(t, clock, turn.started);
    WakesInLaterSlot(t, turn.started, turn.woken);
    SlotMonotone(t, turn.woken, turn.read);
    SlotMonotone(t, turn.read, turn.ended);
    SlotBounds(t, turn.read);
    SlotAtMost(t, turn.read);
  }

  lemma SlotAtMost(t: SlotTimeTracker, now: nat)
    requires t.Valid() && t.start <= now
    ensures t.LastSlot(now) <= now
  {
    SlotBounds(t, now);
    Arithmetic.MulLeMul(t.LastSlot(now), 1, t.LastSlot(now), t.interval);
  }

  lemma IncreasingSnoc(heights: seq<nat>, h: nat)
    requires Increasing(heights) && h > LastOf(heights)
    ensures Increasing(heights + [h])
  {
  }

  lemma AdvanceOnSchedule(p: Setup, s: System, clock: nat, turn: Turn)
    requires p.tracker.Valid() && p.tracker.start <= clock && s.ledger.LatestReadable()
    requires TimelyTurn(p.tracker, clock, turn) && OnSchedule(p, s, clock)
    ensures OnSchedule(p, Advance(p, s, turn), turn.ended)
  {
    SlotMonotone(p.tracker, clock, turn.ended);
    if turn.event.SlotEnd? && s.books.state.HasData() {
      var height := BlockHeight(p.tracker, turn.read);
      HeightIsNew(p.tracker, clock, turn);
      IncreasingSnoc(s.heights, height);
      var block := Emission(s.books.state);
      CreatedBlockAcceptedIff(p.roots, s.ledger, p.issuer, height, turn.stamped, block.newFeeds, block.toDelete);
    }
  }

  /** In every timely run block production never fails: heights strictly increase, and the chain
      accepts every block that is created for it. */
  lemma {:induction false} RunOnSchedule(p: Setup, begin: nat, turns: seq<Turn>)
    requires Timely(p.tracker, begin, turns)
    ensures OnSchedule(p, Run(p, begin, turns), ClockAfter(begin, turns))
  {
    if turns == [] {
    } else {
      var front := turns[..|turns| - 1];
      RunOnSchedule(p, begin, front);
      AdvanceOnSchedule(p, Run(p, begin, front), ClockAfter(begin, front), turns[|turns| - 1]);
    }
  }

  //
  // Commands end up on the chain
  //

  /** The chain has a block at `height` whose actions are exactly the commands of `block`. */
  ghost predicate Recorded(l: Ledger, block: EmittedBlock, height: nat) {
    && height in l.heightToHash
    && l.heightToHash[height] in l.hashToHeader
    && var header := l.hashToHeader[l.heightToHash[height]];
    && header.blockHeight == height
    && header.addRemoveFeedsMerkleRoot in l.addRemoveFeeds
    && var actions := l.addRemoveFeeds[header.addRemoveFeedsMerkleRoot];
    && actions.blockHeight == height
    && Filled(actions.newFeeds) == block.newFeeds
    && Filled(actions.feedIdsToRm) == block.toDelete
  }

  ghost predicate AllRecorded(s: System) {
    |s.heights| == |s.books.blocks| &&
    forall i :: 0 <= i < |s.heights| && (s.books.blocks[i].newFeeds != [] || s.books.blocks[i].toDelete != []) ==>
      Recorded(s.ledger, s.books.blocks[i], s.heights[i])
  }

  lemma RecordedKept(before: Ledger, after: Ledger, block: EmittedBlock, height: nat)
    requires Extends(before, after) && Recorded(before, block, height)
    ensures Recorded(after, block, height)
  {
  }

  lemma NewBlockRecorded(p: Setup, l: Ledger, block: EmittedBlock, height: nat, stamped: nat)
    requires l.LatestReadable() && height > l.latest && FitsBlock(p.max, block)
    ensures var (header, actions) := NewBlockOf(p, l, block, height, stamped);
            Recorded(AddNext(p.roots, l, header, actions), block, height)
  {
    SlotsKeepTheFirst(block.newFeeds, MAX_NEW_FEEDS_IN_BLOCK);
    SlotsKeepTheFirst(block.toDelete, MAX_FEED_ID_TO_DELETE_IN_BLOCK);
  }

  /** What the ledger gains in one turn. */
  lemma AdvanceLedger(p: Setup, s: System, turn: Turn)
    requires p.tracker.Valid() && p.tracker.start <= turn.read
    requires p.roots.CollisionFree() && s.ledger.LatestReadable() && Indexed(p.roots, s.ledger)
    ensures var next := Advance(p, s, turn);
            Indexed(p.roots, next.ledger) && Extends(s.ledger, next.ledger)
  {
    if turn.event.SlotEnd? && s.books.state.HasData() {
      var block := Emission(s.books.state);
      var (header, actions) := NewBlockOf(p, s.ledger, block, BlockHeight(p.tracker, turn.read), turn.stamped);
      AddNextExtends(p.roots, s.ledger, header, actions);
    }
  }

  lemma AdvanceRecords(p: Setup, s: System, clock: nat, turn: Turn)
    requires p.tracker.Valid() && p.tracker.start <= clock && s.ledger.LatestReadable()
    requires TimelyTurn(p.tracker, clock, turn) && OnSchedule(p, s, clock) && Inv(p.max, s.books)
    requires turn.event.SlotEnd? && s.books.state.HasData() && HasCommands(Emission(s.books.state))
    ensures Recorded(Advance(p, s, turn).ledger, Emission(s.books.state), BlockHeight(p.tracker, turn.read))
  {
    HeightIsNew(p.tracker, clock, turn);
    EmissionFits(p.max, s.books);
    assert FitsBlock(p.max, (s.books.blocks + [Emission(s.books.state)])[|s.books.blocks|]);
    NewBlockRecorded(p, s.ledger, Emission(s.books.state), BlockHeight(p.tracker, turn.read), turn.stamped);
  }

  lemma AdvanceKeepsRecorded(p: Setup, s: System, clock: nat, turn: Turn)
    requires p.tracker.Valid() && p.tracker.start <= clock && s.ledger.LatestReadable()
    requires TimelyTurn(p.tracker, clock, turn) && OnSchedule(p, s, clock) && Inv(p.max, s.books)
    requires p.roots.CollisionFree() && Indexed(p.roots, s.ledger) && AllRecorded(s)
    ensures AllRecorded(Advance(p, s, turn))
  {
    var next := Advance(p, s, turn);
    AdvanceLedger(p, s, turn);
    forall i | 0 <= i < |s.heights| && HasCommands(s.books.blocks[i])
      ensures Recorded(next.ledger, s.books.blocks[i], s.heights[i])
    {
      RecordedKept(s.ledger, next.ledger, s.books.blocks[i], s.heights[i]);
    }
    if turn.event.SlotEnd? && s.books.state.HasData() && HasCommands(Emission(s.books.state)) {
      AdvanceRecords(p, s, clock, turn);
    }
  }

  /** In every timely run each emitted block that carries commands stands on the chain at its height,
      with all of its commands and no others. */
  lemma {:induction false} RunRecordsCommands(p: Setup, begin: nat, turns: seq<Turn>)
    requires Timely(p.tracker, begin, turns) && p.roots.CollisionFree()
    ensures Inv(p.max, Run(p, begin, turns).books)
    ensures Indexed(p.roots, Run(p, begin, turns).ledger)
    ensures AllRecorded(Run(p, begin, turns))
  {
    if turns == [] {
    } else {
      var front, turn := turns[..|turns| - 1], turns[|turns| - 1];
      var s := Run(p, begin, front);
      RunRecordsCommands(p, begin, front);
      RunOnSchedule(p, begin, front);
      AdvanceLedger(p, s, turn);
      StepKeepsInv(p.max, s.books, turn.event);
      AdvanceKeepsRecorded(p, s, ClockAfter(begin, front), turn);
    }
  }

  //
  // Where the blocks of the chain come from
  //

  /** The block at `height` was issued by this sequencer at a slot end: its height is the number of the slot after the
      one that was read then, and its time is the one read afterwards. */
  ghost predicate IssuedIn(p: Setup, l: Ledger, height: nat, turn: Turn)
    requires p.tracker.Valid()
  {
    && height in l.heightToHash && l.heightToHash[height] in l.hashToHeader
    && var header := l.hashToHeader[l.heightToHash[height]];
    && turn.event.SlotEnd? && p.tracker.start <= turn.read
    && header.issuerId == p.issuer && header.timestamp == turn.stamped
    && header.blockHeight == height == p.tracker.LastSlot(turn.read) + 1
  }

  /** The emitted block at this height carries commands. */
  ghost predicate CarriesCommands(s: System, height: nat) {
    |s.heights| == |s.books.blocks| &&
    exists i :: 0 <= i < |s.heights| && s.heights[i] == height &&
      (s.books.blocks[i].newFeeds != [] || s.books.blocks[i].toDelete != [])
  }

  ghost predicate AllIssued(p: Setup, s: System, turns: seq<Turn>)
    requires p.tracker.Valid()
  {
    forall height :: height in s.ledger.heightToHash ==>
      CarriesCommands(s, height) && Issued(p, s.ledger, height, turns)
  }

  ghost predicate Issued(p: Setup, l: Ledger, height: nat, turns: seq<Turn>)
    requires p.tracker.Valid()
  {
    exists turn :: turn in turns && IssuedIn(p, l, height, turn)
  }

  lemma CommandsKept(s: System, next: System, height: nat)
    requires CarriesCommands(s, height) && s.heights <= next.heights && s.books.blocks <= next.books.blocks
    requires |next.heights| == |next.books.blocks|
    ensures CarriesCommands(next, height)
  {
    var i :| 0 <= i < |s.heights| && s.heights[i] == height &&
             (s.books.blocks[i].newFeeds != [] || s.books.blocks[i].toDelete != []);
    assert next.heights[i] == height && next.books.blocks[i] == s.books.blocks[i];
  }

  lemma IssuedKept(p: Setup, before: Ledger, after: Ledger, height: nat, turns: seq<Turn>, turn: Turn)
    requires p.tracker.Valid() && Extends(before, after) && Issued(p, before, height, turns)
    ensures Issued(p, after, height, turns + [turn])
  {
    var t :| t in turns && IssuedIn(p, before, height, t);
    assert t in turns + [turn] && IssuedIn(p, after, height, t);
  }

  /** A turn that adds a block to the chain. */
  lemma AdvanceIssues(p: Setup, s: System, clock: nat, turn: Turn)
    requires p.tracker.Valid() && p.tracker.start <= clock && s.ledger.LatestReadable()
    requires TimelyTurn(p.tracker, clock, turn) && OnSchedule(p, s, clock)
    requires turn.event.SlotEnd? && s.books.state.HasData() && HasCommands(Emission(s.books.state))
    ensures var next, height := Advance(p, s, turn), p.tracker.LastSlot(turn.read) + 1;
            && IssuedIn(p, next.ledger, height, turn) && CarriesCommands(next, height)
            && next.ledger.heightToHash.Keys == s.ledger.heightToHash.Keys + {height}
  {
    HeightIsNew(p.tracker, clock, turn);
    SlotBounds(p.tracker, turn.read);
    SlotAtMost(p.tracker, turn.read);
    var height, block := p.tracker.LastSlot(turn.read) + 1, Emission(s.books.state);
    assert BlockHeight(p.tracker, turn.read) == height;
    CreatedBlockAcceptedIff(p.roots, s.ledger, p.issuer, height, turn.stamped, block.newFeeds, block.toDelete);
    var next := Advance(p, s, turn);
    assert next.heights[|s.heights|] == height && next.books.blocks[|s.heights|] == block;
  }

  predicate AddsBlock(s: System, turn: Turn) {
    turn.event.SlotEnd? && s.books.state.HasData() && HasCommands(Emission(s.books.state))
  }

  /** A block that is emitted and does not get on the chain stops the loop for good. */
  lemma RefusalStops(p: Setup, s: System, turn: Turn)
    requires p.tracker.Valid() && p.tracker.start <= turn.read && s.ledger.LatestReadable()
    ensures var next, height := Advance(p, s, turn), BlockHeight(p.tracker, turn.read);
            && (s.failed ==> next.failed)
            && (turn.event.SlotEnd? && s.books.state.HasData() &&
                (s.books.state.newFeeds != [] || s.books.state.toDelete != []) && !next.failed ==>
                  next.ledger.latest == height > s.ledger.latest)
            && (next.failed && !s.failed ==> next.ledger == s.ledger && height <= s.ledger.latest)
  {
    var block := Emission(s.books.state);
    CreatedBlockAcceptedIff(p.roots, s.ledger, p.issuer, BlockHeight(p.tracker, turn.read), turn.stamped, block.newFeeds, block.toDelete);
  }

  lemma AdvanceAddsNothing(p: Setup, s: System, turn: Turn)
    requires p.tracker.Valid() && p.tracker.start <= turn.read && s.ledger.LatestReadable() && !AddsBlock(s, turn)
    ensures Advance(p, s, turn).ledger == s.ledger
  {
  }

  lemma AdvanceAppends(p: Setup, s: System, turn: Turn)
    requires p.tracker.Valid() && p.tracker.start <= turn.read && s.ledger.LatestReadable()
    ensures s.heights <= Advance(p, s, turn).heights && s.books.blocks <= Advance(p, s, turn).books.blocks
  {
  }

  lemma OldBlockKept(p: Setup, s: System, next: System, turns: seq<Turn>, turn: Turn, height: nat)
    requires p.tracker.Valid() && AllIssued(p, s, turns) && height in s.ledger.heightToHash && Extends(s.ledger, next.ledger)
    requires s.heights <= next.heights && s.books.blocks <= next.books.blocks && |next.heights| == |next.books.blocks|
    ensures CarriesCommands(next, height) && Issued(p, next.ledger, height, turns + [turn])
  {
    CommandsKept(s, next, height);
    IssuedKept(p, s.ledger, next.ledger, height, turns, turn);
  }

  lemma AllIssuedStep(p: Setup, s: System, next: System, turns: seq<Turn>, turn: Turn, added: Option<nat>)
    requires p.tracker.Valid() && AllIssued(p, s, turns) && Extends(s.ledger, next.ledger)
    requires s.heights <= next.heights && s.books.blocks <= next.books.blocks && |next.heights| == |next.books.blocks|
    requires added.None? ==> next.ledger.heightToHash.Keys == s.ledger.heightToHash.Keys
    requires added.Some? ==> next.ledger.heightToHash.Keys == s.ledger.heightToHash.Keys + {added.value}
    requires added.Some? ==> IssuedIn(p, next.ledger, added.value, turn) && CarriesCommands(next, added.value)
    ensures AllIssued(p, next, turns + [turn])
  {
    forall height | height in next.ledger.heightToHash
      ensures CarriesCommands(next, height) && Issued(p, next.ledger, height, turns + [turn])
    {
      if height in s.ledger.heightToHash {
        OldBlockKept(p, s, next, turns, turn, height);
      } else {
        assert turn in turns + [turn] && height == added.value;
      }
    }
  }

  lemma AdvanceKeepsIssued(p: Setup, s: System, clock: nat, turn: Turn, turns: seq<Turn>)
    requires p.tracker.Valid() && p.tracker.start <= clock && s.ledger.LatestReadable()
    requires TimelyTurn(p.tracker, clock, turn) && OnSchedule(p, s, clock)
    requires p.roots.CollisionFree() && Indexed(p.roots, s.ledger) && AllIssued(p, s, turns)
    ensures AllIssued(p, Advance(p, s, turn), turns + [turn])
  {
    AdvanceLedger(p, s, turn);
    AdvanceAppends(p, s, turn);
    AdvanceOnSchedule(p, s, clock, turn);
    if AddsBlock(s, turn) {
      AdvanceIssues(p, s, clock, turn);
      AllIssuedStep(p, s, Advance(p, s, turn), turns, turn, Some(p.tracker.LastSlot(turn.read) + 1));
    } else {
      AdvanceAddsNothing(p, s, turn);
      AllIssuedStep(p, s, Advance(p, s, turn), turns, turn, None);
    }
  }

  /** In every timely run the chain has no blocks but those of emitted blocks with commands, each issued by this
      sequencer in some turn, at the height and with the time of that turn. */
  lemma {:induction false} RunIssuesBlocks(p: Setup, begin: nat, turns: seq<Turn>)
    requires Timely(p.tracker, begin, turns) && p.roots.CollisionFree()
    ensures AllIssued(p, Run(p, begin, turns), turns)
  {
    if turns == [] {
    } else {
      var front, turn := turns[..|turns| - 1], turns[|turns| - 1];
      assert turns == front + [turn];
      RunIssuesBlocks(p, begin, front);
      RunRecordsCommands(p, begin, front);
      RunOnSchedule(p, begin, front);
      AdvanceKeepsIssued(p, Run(p, begin, front), ClockAfter(begin, front), turn, front);
    }
  }
}
