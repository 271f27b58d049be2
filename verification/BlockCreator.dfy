/** The block creator: collects aggregated updates and feed commands and emits them at slot ends. */
module BlockCreator {
  import opened Wrappers
  import opened AdfsLayout
  import opened AdfsCalldata
  import InMemDb

  const MAX_ASSET_FEED_UPDATES_IN_BLOCK: nat := 512
  const DEFAULT_DECIMALS: nat := 18

  datatype FeedsManagementCmd =
    | RegisterNewAssetFeed(config: InMemDb.BlockFeedConfig)
    | DeleteAssetFeed(id: EncodedFeedId)

  datatype EmittedBlock = EmittedBlock(
    updates: seq<VotedFeedUpdate>,
    newFeeds: seq<InMemDb.BlockFeedConfig>,
    toDelete: seq<EncodedFeedId>)

  //
  // The ordered set of pending updates, one per feed
  //

  function Key(u: VotedFeedUpdate): nat { u.feed.Packed() }

  /** The ordered set, by packed feed id: two updates of one feed count as equal. */
  type Pending = map<nat, VotedFeedUpdate>

  ghost predicate Keyed(p: Pending) {
    forall k :: k in p ==> Key(p[k]) == k
  }

  /** Inserts into the set; an update of a feed that is already present is ignored. */
  function Insert(p: Pending, u: VotedFeedUpdate): Pending {
    if Key(u) in p then p else p[Key(u) := u]
  }

  /** The update itself when its feed is already present, so that inserting it changes nothing. */
  function Repeats(p: Pending, u: VotedFeedUpdate): seq<VotedFeedUpdate> {
    if Key(u) in p then [u] else []
  }

  /** The set as a sequence, in the order of the packed feed ids. */
  function Ordered(p: Pending): (s: seq<VotedFeedUpdate>)
    ensures |s| == |p|
    decreases |p|
  {
    if p == map[] then []
    else
      var k := Least(p.Keys);
      [p[k]] + Ordered(p - {k})
  }

  ghost predicate Ascending(s: seq<VotedFeedUpdate>) {
    forall i, j :: 0 <= i < j < |s| ==> Key(s[i]) < Key(s[j])
  }

  //
  // The state and its steps
  //

  datatype State = State(
    updates: Pending,
    backlog: seq<VotedFeedUpdate>,
    newFeeds: seq<InMemDb.BlockFeedConfig>,
    toDelete: seq<EncodedFeedId>)
  {
    predicate HasData() { updates != map[] || newFeeds != [] || toDelete != [] }
  }

  const IDLE: State := State(map[], [], [], [])

  type Decimals = map<EncodedFeedId, nat>

  function DigitsFor(decimals: Decimals, f: EncodedFeedId): nat {
    if f in decimals then decimals[f] else DEFAULT_DECIMALS
  }

  /** Whether an update is taken over at all: its value has to encode. */
  predicate Encodes(decimals: Decimals, u: VotedFeedUpdate) {
    FeedTypes.AsBytes(u.value, DigitsFor(decimals, u.feed), u.endSlotTimestamp).Ok?
  }

  function Recv(max: nat, s: State, u: VotedFeedUpdate): State {
    if |s.updates| < max then s.(updates := Insert(s.updates, u)) else s.(backlog := s.backlog + [u])
  }

  function Manage(s: State, cmd: FeedsManagementCmd): State {
    match cmd
    case RegisterNewAssetFeed(config) =>
      if |s.newFeeds| < InMemDb.MAX_NEW_FEEDS_IN_BLOCK then s.(newFeeds := s.newFeeds + [config]) else s
    case DeleteAssetFeed(id) =>
      if |s.toDelete| < InMemDb.MAX_FEED_ID_TO_DELETE_IN_BLOCK then s.(toDelete := s.toDelete + [id]) else s
  }

  datatype Refilled = Refilled(
    updates: Pending,
    backlog: seq<VotedFeedUpdate>,
    duplicates: seq<VotedFeedUpdate>,
    dropped: seq<VotedFeedUpdate>)

  /** Moves updates from the backlog to the pending set. One update is taken from the backlog before
      the capacity is looked at, and that update is lost when the set is full. */
  function Refill(max: nat, updates: Pending, backlog: seq<VotedFeedUpdate>): (r: Refilled)
    decreases |backlog|
  {
    if backlog == [] then Refilled(updates, [], [], [])
    else if |updates| == max then Refilled(updates, backlog[1..], [], [backlog[0]])
    else
      var r := Refill(max, Insert(updates, backlog[0]), backlog[1..]);
      r.(duplicates := Repeats(updates, backlog[0]) + r.duplicates)
  }

  function Tick(max: nat, s: State): State {
    if s.HasData() then
      var r := Refill(max, map[], s.backlog);
      State(r.updates, r.backlog, [], [])
    else s
  }

  //
  // The loop's body
  //

  class BlockCreator {
    const maxFeedUpdatesToBatch: nat
    var updates: Pending
    var backlogUpdates: seq<VotedFeedUpdate>
    var newFeedsToRegister: seq<InMemDb.BlockFeedConfig>
    var feedsIdsToDelete: seq<EncodedFeedId>

    ghost function Value(): State
      reads this
    {
      State(updates, backlogUpdates, newFeedsToRegister, feedsIdsToDelete)
    }

    constructor (configured: nat)
      ensures maxFeedUpdatesToBatch == if configured <= 512 then configured else 512
      ensures Value() == IDLE
    {
      maxFeedUpdatesToBatch :=
        if configured > MAX_ASSET_FEED_UPDATES_IN_BLOCK then MAX_ASSET_FEED_UPDATES_IN_BLOCK else configured;
      updates, backlogUpdates, newFeedsToRegister, feedsIdsToDelete := map[], [], [], [];
    }

    method RecvdFeedUpdateToBlock(recvd: Option<VotedFeedUpdate>, decimals: Decimals)
      modifies this
      ensures Value() ==
              if recvd.Some? && Encodes(decimals, recvd.value) then Recv(maxFeedUpdatesToBatch, old(Value()), recvd.value)
              else old(Value())
      ensures recvd.Some? ==>
                var u := recvd.value;
                var digits := if u.feed in decimals then decimals[u.feed] else 18;
                if FeedTypes.AsBytes(u.value, digits, u.endSlotTimestamp).Err? then Value() == old(Value())
                else if |old(updates)| < maxFeedUpdatesToBatch then u.feed.Packed() in updates && backlogUpdates == old(backlogUpdates)
                else updates == old(updates) && backlogUpdates == old(backlogUpdates) + [u]
    {
      match recvd {
        case None =>
        case Some(u) =>
          var digits := DEFAULT_DECIMALS;
          if u.feed in decimals {
            digits := decimals[u.feed];
          }
          var encoded := FeedTypes.AsBytes(u.value, digits, u.endSlotTimestamp);
          if encoded.Err? {
            return;
          }
          if |updates| < maxFeedUpdatesToBatch {
            updates := Insert(updates, u);
          } else {
            backlogUpdates := backlogUpdates + [u];
          }
      }
    }

    method RecvdFeedManagementCmdToBlock(recvd: Option<FeedsManagementCmd>)
      modifies this
      ensures Value() == if recvd.Some? then Manage(old(Value()), recvd.value) else old(Value())
    {
      match recvd {
        case None =>
        case Some(RegisterNewAssetFeed(config)) =>
          if |newFeedsToRegister| < InMemDb.MAX_NEW_FEEDS_IN_BLOCK {
            newFeedsToRegister := newFeedsToRegister + [config];
          }
        case Some(DeleteAssetFeed(id)) =>
          if |feedsIdsToDelete| < InMemDb.MAX_FEED_ID_TO_DELETE_IN_BLOCK {
            feedsIdsToDelete := feedsIdsToDelete + [id];
          }
      }
    }

    /** The end of a block slot: emits a block if there is anything to emit. */
    method EndOfSlot() returns (emitted: Option<EmittedBlock>)
      modifies this
      ensures emitted == if old(Value()).HasData() then Some(Emission(old(Value()))) else None
      ensures Value() == Tick(maxFeedUpdatesToBatch, old(Value()))
    {
      emitted := None;
      if updates != map[] || newFeedsToRegister != [] || feedsIdsToDelete != [] {
        emitted := Some(EmittedBlock(Ordered(updates), newFeedsToRegister, feedsIdsToDelete));
        updates, newFeedsToRegister, feedsIdsToDelete := map[], [], [];
        FillFromBacklog();
      }
    }

    method FillFromBacklog()
      modifies this`updates, this`backlogUpdates
      ensures updates == Refill(maxFeedUpdatesToBatch, old(updates), old(backlogUpdates)).updates
      ensures backlogUpdates == Refill(maxFeedUpdatesToBatch, old(updates), old(backlogUpdates)).backlog
    {
      ghost var r := Refill(maxFeedUpdatesToBatch, updates, backlogUpdates);
      while backlogUpdates != []
        invariant Refill(maxFeedUpdatesToBatch, updates, backlogUpdates).updates == r.updates
        invariant Refill(maxFeedUpdatesToBatch, updates, backlogUpdates).backlog == r.backlog
        decreases |backlogUpdates|
      {
        var v := backlogUpdates[0];
        backlogUpdates := backlogUpdates[1..];
        if |updates| == maxFeedUpdatesToBatch {
          break;
        }
        updates := Insert(updates, v);
      }
    }
  }

  function Emission(s: State): EmittedBlock {
    EmittedBlock(Ordered(s.updates), s.newFeeds, s.toDelete)
  }

  //
  // Facts about the ordered set
  //

  lemma {:induction false} OrderedContents(p: Pending, u: VotedFeedUpdate)
    requires Keyed(p)
    ensures u in Ordered(p) <==> Key(u) in p && p[Key(u)] == u
    decreases |p|
  {
    if p == map[] {
    } else {
      OrderedContents(p - {Least(p.Keys)}, u);
    }
  }

  /** The sequence is strictly ascending, so a block never carries two updates of one feed. */
  lemma {:induction false} OrderedAscending(p: Pending)
    requires Keyed(p)
    ensures Ascending(Ordered(p))
    decreases |p|
  {
    if p == map[] {
    } else {
      var k := Least(p.Keys);
      var rest := Ordered(p - {k});
      OrderedAscending(p - {k});
      forall j | 0 <= j < |rest| ensures Key(p[k]) < Key(rest[j]) {
        OrderedContents(p - {k}, rest[j]);
      }
    }
  }
}
