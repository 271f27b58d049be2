/** What batching keeps over all runs of the block creator. */
module BlockCreatorRuns {
  import opened AdfsCalldata
  import opened BlockCreator
  import opened Sets

  /** What the loop wakes up for; `encodes` says whether the value of the update could be encoded. */
  datatype Event =
    | Update(update: VotedFeedUpdate, encodes: bool)
    | Command(cmd: FeedsManagementCmd)
    | SlotEnd

  /** The state together with everything that ever went in or out. */
  datatype Books = Books(
    state: State,
    accepted: seq<VotedFeedUpdate>,
    blocks: seq<EmittedBlock>,
    duplicates: seq<VotedFeedUpdate>,
    dropped: seq<VotedFeedUpdate>)

  function RecvStep(max: nat, b: Books, u: VotedFeedUpdate): Books {
    b.(state := Recv(max, b.state, u), accepted := b.accepted + [u],
       duplicates := b.duplicates + if |b.state.updates| < max then Repeats(b.state.updates, u) else [])
  }

  function TickStep(max: nat, b: Books): Books {
    if !b.state.HasData() then b
    else
      var r := Refill(max, map[], b.state.backlog);
      b.(state := Tick(max, b.state), blocks := b.blocks + [Emission(b.state)],
         duplicates := b.duplicates + r.duplicates, dropped := b.dropped + r.dropped)
  }

  function Step(max: nat, b: Books, e: Event): Books {
    match e
    case Update(u, encodes) => if encodes then RecvStep(max, b, u) else b
    case Command(cmd) => b.(state := Manage(b.state, cmd))
    case SlotEnd => TickStep(max, b)
  }

  function Run(max: nat, events: seq<Event>): Books {
    if events == [] then Books(IDLE, [], [], [], [])
    else Step(max, Run(max, events[..|events| - 1]), events[|events| - 1])
  }

  function EmittedUpdates(blocks: seq<EmittedBlock>): seq<VotedFeedUpdate> {
    if blocks == [] then []
    else EmittedUpdates(blocks[..|blocks| - 1]) + blocks[|blocks| - 1].updates
  }

  //
  // Refilling
  //

  predicate IsSuffix(a: seq<VotedFeedUpdate>, b: seq<VotedFeedUpdate>) {
    |a| <= |b| && a == b[|b| - |a|..]
  }

  lemma SuffixOfTail(a: seq<VotedFeedUpdate>, s: seq<VotedFeedUpdate>)
    requires s != [] && IsSuffix(a, s[1..])
    ensures IsSuffix(a, s)
  {
  }

  lemma SuffixOfConcat(a: seq<VotedFeedUpdate>, b: seq<VotedFeedUpdate>, s: seq<VotedFeedUpdate>)
    requires IsSuffix(a + b, s)
    ensures IsSuffix(b, s)
  {
    assert b == (a + b)[|a|..];
  }

  /** The refill fills the set as far as the backlog reaches. */
  lemma {:induction false} RefillFills(max: nat, updates: Pending, backlog: seq<VotedFeedUpdate>)
    requires Keyed(updates) && |updates| <= max
    ensures var r := Refill(max, updates, backlog);
            && Keyed(r.updates)
            && |updates| <= |r.updates| <= max
            && (r.backlog != [] ==> |r.updates| == max)
    decreases |backlog|
  {
    if backlog == [] || |updates| >= max {
    } else {
      RefillFills(max, Insert(updates, backlog[0]), backlog[1..]);
    }
  }

  /** It takes from the front only, and loses at most one update: the one just before what stays. */
  lemma {:induction false} RefillTakesFront(max: nat, updates: Pending, backlog: seq<VotedFeedUpdate>)
    ensures var r := Refill(max, updates, backlog);
            && IsSuffix(r.dropped + r.backlog, backlog)
            && |r.dropped| <= 1
            && (backlog != [] ==> |r.backlog| < |backlog|)
    decreases |backlog|
  {
    if backlog != [] && |updates| != max {
      var r := Refill(max, Insert(updates, backlog[0]), backlog[1..]);
      RefillTakesFront(max, Insert(updates, backlog[0]), backlog[1..]);
      SuffixOfTail(r.dropped + r.backlog, backlog);
    } else if backlog != [] {
      assert [backlog[0]] + backlog[1..] == backlog;
    }
  }

  /** How often an update occurs in a sequence. */
  function Count(s: seq<VotedFeedUpdate>, u: VotedFeedUpdate): nat {
    if s == [] then 0 else Count(s[..|s| - 1], u) + if s[|s| - 1] == u then 1 else 0
  }

  function PendingCount(p: Pending, u: VotedFeedUpdate): nat {
    if Key(u) in p && p[Key(u)] == u then 1 else 0
  }

  lemma {:induction false} CountConcat(a: seq<VotedFeedUpdate>, b: seq<VotedFeedUpdate>, u: VotedFeedUpdate)
    ensures Count(a + b, u) == Count(a, u) + Count(b, u)
    decreases |b|
  {
    if b == [] {
      assert a + b == a;
    } else {
      assert (a + b)[..|a + b| - 1] == a + b[..|b| - 1];
      CountConcat(a, b[..|b| - 1], u);
    }
  }

  lemma {:induction false} CountOrdered(p: Pending, u: VotedFeedUpdate)
    requires Keyed(p)
    ensures Count(Ordered(p), u) == PendingCount(p, u)
    decreases |p|
  {
    if p == map[] {
    } else {
      var k := Least(p.Keys);
      CountOrdered(p - {k}, u);
      CountConcat([p[k]], Ordered(p - {k}), u);
    }
  }

  lemma CountSplit(s: seq<VotedFeedUpdate>, u: VotedFeedUpdate)
    requires s != []
    ensures Count(s, u) == Count([s[0]], u) + Count(s[1..], u)
  {
    CountConcat([s[0]], s[1..], u);
    assert s == [s[0]] + s[1..];
  }

  lemma InsertAccounts(p: Pending, v: VotedFeedUpdate, u: VotedFeedUpdate)
    requires Keyed(p)
    ensures PendingCount(Insert(p, v), u) + Count(Repeats(p, v), u) == PendingCount(p, u) + Count([v], u)
  {
  }

  lemma {:induction false} RefillAccounts(max: nat, updates: Pending, backlog: seq<VotedFeedUpdate>, u: VotedFeedUpdate)
    requires Keyed(updates)
    ensures var r := Refill(max, updates, backlog);
            PendingCount(r.updates, u) + Count(r.backlog, u) + Count(r.duplicates, u) + Count(r.dropped, u) ==
            PendingCount(updates, u) + Count(backlog, u)
    decreases |backlog|
  {
    if backlog == [] {
    } else {
      CountSplit(backlog, u);
      if |updates| != max {
        var next, repeats := Insert(updates, backlog[0]), Repeats(updates, backlog[0]);
        InsertAccounts(updates, backlog[0], u);
        RefillAccounts(max, next, backlog[1..], u);
        CountConcat(repeats, Refill(max, next, backlog[1..]).duplicates, u);
      }
    }
  }

  function Keys(s: seq<VotedFeedUpdate>): set<nat> {
    set u | u in s :: Key(u)
  }

  /** An update is lost exactly when the backlog without its last update already covers enough feeds
      to fill the set. */
  lemma {:induction false} RefillDropsIff(max: nat, updates: Pending, backlog: seq<VotedFeedUpdate>)
    requires |updates| <= max
    ensures Refill(max, updates, backlog).dropped != [] <==> backlog != [] && CoveredFeeds(updates, backlog) >= max
    decreases |backlog|
  {
    if backlog != [] && |updates| < max {
      RefillDropsIff(max, Insert(updates, backlog[0]), backlog[1..]);
      KeysShift(updates, backlog);
    } else if backlog != [] {
      SubsetCardinality(updates.Keys, updates.Keys + Keys(backlog[..|backlog| - 1]));
    }
  }

  /** Number of feeds in the set or in the backlog without its last update. */
  function CoveredFeeds(updates: Pending, backlog: seq<VotedFeedUpdate>): nat
    requires backlog != []
  {
    |updates.Keys + Keys(backlog[..|backlog| - 1])|
  }

  /** Moving the first update of the backlog into the set leaves the feeds covered the same. */
  lemma KeysShift(updates: Pending, backlog: seq<VotedFeedUpdate>)
    requires backlog != []
    ensures |backlog| == 1 ==> CoveredFeeds(updates, backlog) == |updates|
    ensures |backlog| > 1 ==> CoveredFeeds(updates, backlog) == CoveredFeeds(Insert(updates, backlog[0]), backlog[1..])
  {
    if |backlog| > 1 {
      var middle := backlog[1..][..|backlog| - 2];
      assert backlog[..|backlog| - 1] == [backlog[0]] + middle;
      assert forall u :: u in [backlog[0]] + middle <==> u == backlog[0] || u in middle;
      assert Keys([backlog[0]] + middle) == Keys(middle) + {Key(backlog[0])};
      assert updates.Keys + Keys(backlog[..|backlog| - 1]) == Insert(updates, backlog[0]).Keys + Keys(middle);
    } else {
      assert updates.Keys + Keys(backlog[..0]) == updates.Keys;
    }
  }

  //
  // The batching invariant
  //

  ghost predicate Batched(max: nat, s: State) {
    && Keyed(s.updates)
    && |s.updates| <= max
    && (s.backlog != [] ==> |s.updates| == max)
  }

  ghost predicate Inv(max: nat, b: Books) {
    && Batched(max, b.state)
    && IsSuffix(b.state.backlog, b.accepted)
    && |b.state.newFeeds| <= InMemDb.MAX_NEW_FEEDS_IN_BLOCK
    && |b.state.toDelete| <= InMemDb.MAX_FEED_ID_TO_DELETE_IN_BLOCK
    && |b.dropped| <= |b.blocks|
    && AllFit(max, b.blocks)
  }

  ghost predicate AllFit(max: nat, blocks: seq<EmittedBlock>) {
    forall i :: 0 <= i < |blocks| ==> FitsBlock(max, blocks[i])
  }

  ghost predicate FitsBlock(max: nat, block: EmittedBlock) {
    && Ascending(block.updates)
    && |block.updates| <= max
    && |block.newFeeds| <= InMemDb.MAX_NEW_FEEDS_IN_BLOCK
    && |block.toDelete| <= InMemDb.MAX_FEED_ID_TO_DELETE_IN_BLOCK
  }

  lemma SuffixTrans(a: seq<VotedFeedUpdate>, b: seq<VotedFeedUpdate>, c: seq<VotedFeedUpdate>)
    requires IsSuffix(a, b) && IsSuffix(b, c)
    ensures IsSuffix(a, c)
  {
  }

  lemma RecvKeepsInv(max: nat, b: Books, u: VotedFeedUpdate)
    requires Inv(max, b)
    ensures Inv(max, RecvStep(max, b, u))
  {
  }

  lemma TickKeepsBatched(max: nat, s: State, accepted: seq<VotedFeedUpdate>)
    requires Batched(max, s) && IsSuffix(s.backlog, accepted)
    ensures Batched(max, Tick(max, s)) && IsSuffix(Tick(max, s).backlog, accepted)
  {
    var r := Refill(max, map[], s.backlog);
    RefillFills(max, map[], s.backlog);
    RefillTakesFront(max, map[], s.backlog);
    SuffixOfConcat(r.dropped, r.backlog, s.backlog);
    SuffixTrans(r.backlog, s.backlog, accepted);
  }

  lemma EmissionFits(max: nat, b: Books)
    requires Inv(max, b)
    ensures AllFit(max, b.blocks + [Emission(b.state)])
  {
    OrderedAscending(b.state.updates);
  }

  lemma TickKeepsInv(max: nat, b: Books)
    requires Inv(max, b)
    ensures Inv(max, TickStep(max, b))
  {
    TickKeepsBatched(max, b.state, b.accepted);
    RefillTakesFront(max, map[], b.state.backlog);
    EmissionFits(max, b);
  }

  lemma StepKeepsInv(max: nat, b: Books, e: Event)
    requires Inv(max, b)
    ensures Inv(max, Step(max, b, e))
  {
    match e
    case Update(u, _) => RecvKeepsInv(max, b, u);
    case Command(_) =>
    case SlotEnd => TickKeepsInv(max, b);
  }

  /** Over every run: the set is bounded and ordered, a backlog means the set is full, the backlog is
      the latest part of what was accepted, so nothing overtakes it, and no block loses two updates. */
  lemma {:induction false} RunKeepsInv(max: nat, events: seq<Event>)
    ensures Inv(max, Run(max, events))
  {
    if events == [] {
    } else {
      RunKeepsInv(max, events[..|events| - 1]);
      StepKeepsInv(max, Run(max, events[..|events| - 1]), events[|events| - 1]);
    }
  }

  predicate Balanced(b: Books, u: VotedFeedUpdate) {
    Count(b.accepted, u) ==
    Count(EmittedUpdates(b.blocks), u) + PendingCount(b.state.updates, u) + Count(b.state.backlog, u)
    + Count(b.duplicates, u) + Count(b.dropped, u)
  }

  lemma EmittedSnoc(blocks: seq<EmittedBlock>, block: EmittedBlock)
    ensures EmittedUpdates(blocks + [block]) == EmittedUpdates(blocks) + block.updates
  {
    assert (blocks + [block])[..|blocks|] == blocks;
  }

  lemma RecvKeepsBalance(max: nat, b: Books, v: VotedFeedUpdate, u: VotedFeedUpdate)
    requires Inv(max, b) && Balanced(b, u)
    ensures Balanced(RecvStep(max, b, v), u)
  {
    CountConcat(b.accepted, [v], u);
    if |b.state.updates| < max {
      InsertAccounts(b.state.updates, v, u);
      CountConcat(b.duplicates, Repeats(b.state.updates, v), u);
    } else {
      CountConcat(b.state.backlog, [v], u);
      assert b.duplicates + [] == b.duplicates;
    }
  }

  lemma TickKeepsBalance(max: nat, b: Books, u: VotedFeedUpdate)
    requires Inv(max, b) && Balanced(b, u)
    ensures Balanced(TickStep(max, b), u)
  {
    if b.state.HasData() {
      var r := Refill(max, map[], b.state.backlog);
      RefillAccounts(max, map[], b.state.backlog, u);
      EmittedSnoc(b.blocks, Emission(b.state));
      CountConcat(EmittedUpdates(b.blocks), Ordered(b.state.updates), u);
      CountOrdered(b.state.updates, u);
      CountConcat(b.duplicates, r.duplicates, u);
      CountConcat(b.dropped, r.dropped, u);
    }
  }

  lemma StepKeepsBalance(max: nat, b: Books, e: Event, u: VotedFeedUpdate)
    requires Inv(max, b) && Balanced(b, u)
    ensures Balanced(Step(max, b, e), u)
  {
    match e
    case Update(v, encodes) =>
      RecvKeepsBalance(max, b, v, u);
      assert Step(max, b, e) == if encodes then RecvStep(max, b, v) else b;
    case Command(cmd) =>
      assert Step(max, b, e).state == Manage(b.state, cmd);
    case SlotEnd =>
      TickKeepsBalance(max, b, u);
      assert Step(max, b, e) == TickStep(max, b);
  }

  /** As often as an update was accepted, it was emitted, is pending, is waiting, was ignored because its
      feed was pending already, or was dropped by a refill. */
  lemma {:induction false} RunIsBalanced(max: nat, events: seq<Event>, u: VotedFeedUpdate)
    ensures Balanced(Run(max, events), u)
  {
    if events == [] {
    } else {
      RunIsBalanced(max, events[..|events| - 1], u);
      RunKeepsInv(max, events[..|events| - 1]);
      StepKeepsBalance(max, Run(max, events[..|events| - 1]), events[|events| - 1], u);
    }
  }

  //
  // Order per feed
  //

  function OfKey(s: seq<VotedFeedUpdate>, key: nat): seq<VotedFeedUpdate> {
    if s == [] then []
    else OfKey(s[..|s| - 1], key) + if Key(s[|s| - 1]) == key then [s[|s| - 1]] else []
  }

  /** `a` is found in `b` at the ascending positions `at`. */
  ghost predicate Embeds(a: seq<VotedFeedUpdate>, b: seq<VotedFeedUpdate>, at: seq<nat>) {
    && |at| == |a|
    && (forall i :: 0 <= i < |at| ==> at[i] < |b| && b[at[i]] == a[i])
    && forall i, j :: 0 <= i < j < |at| ==> at[i] < at[j]
  }

  /** `a` is what is left of `b` after leaving out some elements. */
  ghost predicate Subsequence(a: seq<VotedFeedUpdate>, b: seq<VotedFeedUpdate>) {
    exists at :: Embeds(a, b, at)
  }

  lemma SubsequenceAppend(a: seq<VotedFeedUpdate>, b: seq<VotedFeedUpdate>, c: seq<VotedFeedUpdate>, d: seq<VotedFeedUpdate>)
    requires Subsequence(a, b) && Subsequence(c, d)
    ensures Subsequence(a + c, b + d)
  {
    var at :| Embeds(a, b, at);
    var at' :| Embeds(c, d, at');
    assert Embeds(a + c, b + d, at + seq(|at'|, i requires 0 <= i < |at'| => |b| + at'[i]));
  }

  lemma SubsequenceRefl(a: seq<VotedFeedUpdate>)
    ensures Subsequence(a, a)
  {
    assert Embeds(a, a, seq(|a|, i requires 0 <= i => i));
  }

  lemma SubsequenceTrans(a: seq<VotedFeedUpdate>, b: seq<VotedFeedUpdate>, c: seq<VotedFeedUpdate>)
    requires Subsequence(a, b) && Subsequence(b, c)
    ensures Subsequence(a, c)
  {
    var at :| Embeds(a, b, at);
    var at' :| Embeds(b, c, at');
    assert Embeds(a, c, seq(|at|, i requires 0 <= i < |at| => at'[at[i]]));
  }

  lemma EmptySubsequence(b: seq<VotedFeedUpdate>)
    ensures Subsequence([], b)
  {
    assert Embeds([], b, []);
  }

  lemma {:induction false} OfKeyConcat(a: seq<VotedFeedUpdate>, b: seq<VotedFeedUpdate>, key: nat)
    ensures OfKey(a + b, key) == OfKey(a, key) + OfKey(b, key)
    decreases |b|
  {
    if b == [] {
      assert a + b == a;
    } else {
      assert (a + b)[..|a + b| - 1] == a + b[..|b| - 1];
      OfKeyConcat(a, b[..|b| - 1], key);
    }
  }

  function Held(p: Pending, key: nat): seq<VotedFeedUpdate> {
    if key in p then [p[key]] else []
  }

  lemma {:induction false} OfKeyOrdered(p: Pending, key: nat)
    requires Keyed(p)
    ensures OfKey(Ordered(p), key) == Held(p, key)
    decreases |p|
  {
    if p == map[] {
    } else {
      var k := Least(p.Keys);
      OfKeyOrdered(p - {k}, key);
      OfKeyConcat([p[k]], Ordered(p - {k}), key);
    }
  }

  lemma {:induction false} RefillKeepsOrder(max: nat, updates: Pending, backlog: seq<VotedFeedUpdate>, key: nat)
    requires Keyed(updates)
    ensures var r := Refill(max, updates, backlog);
            Subsequence(Held(r.updates, key) + OfKey(r.backlog, key), Held(updates, key) + OfKey(backlog, key))
    decreases |backlog|
  {
    if backlog == [] {
      SubsequenceRefl(Held(updates, key) + OfKey([], key));
    } else if |updates| == max {
      RestAfter(Held(updates, key), backlog, key);
    } else {
      var r := Refill(max, updates, backlog);
      var next := Insert(updates, backlog[0]);
      RefillKeepsOrder(max, next, backlog[1..], key);
      InsertedBeforeRest(updates, backlog, key);
      SubsequenceTrans(Held(r.updates, key) + OfKey(r.backlog, key),
                       Held(next, key) + OfKey(backlog[1..], key),
                       Held(updates, key) + OfKey(backlog, key));
    }
  }

  lemma RestAfter(before: seq<VotedFeedUpdate>, backlog: seq<VotedFeedUpdate>, key: nat)
    requires backlog != []
    ensures Subsequence(before + OfKey(backlog[1..], key), before + OfKey(backlog, key))
  {
    var first, rest := OfKey([backlog[0]], key), OfKey(backlog[1..], key);
    assert backlog == [backlog[0]] + backlog[1..];
    OfKeyConcat([backlog[0]], backlog[1..], key);
    EmptySubsequence(first);
    SubsequenceRefl(rest);
    SubsequenceAppend([], first, rest, rest);
    assert [] + rest == rest;
    SubsequenceRefl(before);
    SubsequenceAppend(before, before, rest, OfKey(backlog, key));
  }

  lemma InsertedBeforeRest(updates: Pending, backlog: seq<VotedFeedUpdate>, key: nat)
    requires Keyed(updates) && backlog != []
    ensures Subsequence(Held(Insert(updates, backlog[0]), key) + OfKey(backlog[1..], key),
                        Held(updates, key) + OfKey(backlog, key))
  {
    var v, rest := backlog[0], backlog[1..];
    if Key(v) in updates {
      RestAfter(Held(updates, key), backlog, key);
    } else {
      assert backlog == [v] + rest;
      OfKeyConcat([v], rest, key);
      assert Held(Insert(updates, v), key) == Held(updates, key) + OfKey([v], key);
      assert Held(updates, key) + OfKey([v], key) + OfKey(rest, key) == Held(updates, key) + OfKey(backlog, key);
      SubsequenceRefl(Held(updates, key) + OfKey(backlog, key));
    }
  }

  /** A feed's updates leave in the order they arrived, and pending ones before waiting ones. */
  ghost predicate InOrder(b: Books, key: nat) {
    Subsequence(OfKey(EmittedUpdates(b.blocks), key) + (Held(b.state.updates, key) + OfKey(b.state.backlog, key)),
                OfKey(b.accepted, key))
  }

  lemma IgnoreArrival(a: seq<VotedFeedUpdate>, all: seq<VotedFeedUpdate>, arrived: seq<VotedFeedUpdate>)
    requires Subsequence(a, all)
    ensures Subsequence(a, all + arrived)
  {
    var at :| Embeds(a, all, at);
    assert Embeds(a, all + arrived, at);
  }

  lemma AppendArrival(out: seq<VotedFeedUpdate>, waiting: seq<VotedFeedUpdate>, all: seq<VotedFeedUpdate>,
                      arrived: seq<VotedFeedUpdate>)
    requires Subsequence(out + waiting, all)
    ensures Subsequence(out + (waiting + arrived), all + arrived)
  {
    var at :| Embeds(out + waiting, all, at);
    EmbedsAppended(out + waiting, all, at, arrived);
    assert out + (waiting + arrived) == (out + waiting) + arrived;
  }

  lemma EmbedsAppended(a: seq<VotedFeedUpdate>, all: seq<VotedFeedUpdate>, at: seq<nat>, arrived: seq<VotedFeedUpdate>)
    requires Embeds(a, all, at)
    ensures Embeds(a + arrived, all + arrived, at + seq(|arrived|, i requires 0 <= i => |all| + i))
  {
  }

  lemma RecvKeepsOrder(max: nat, b: Books, u: VotedFeedUpdate, key: nat)
    requires Inv(max, b) && InOrder(b, key)
    ensures InOrder(RecvStep(max, b, u), key)
  {
    var out := OfKey(EmittedUpdates(b.blocks), key);
    var waiting := Held(b.state.updates, key) + OfKey(b.state.backlog, key);
    OfKeyConcat(b.accepted, [u], key);
    if |b.state.updates| < max && Key(u) in b.state.updates {
      IgnoreArrival(out + waiting, OfKey(b.accepted, key), OfKey([u], key));
    } else {
      AppendArrival(out, waiting, OfKey(b.accepted, key), OfKey([u], key));
      RecvAppends(max, b.state, u, key);
    }
  }

  lemma RecvAppends(max: nat, s: State, u: VotedFeedUpdate, key: nat)
    requires Batched(max, s)
    requires |s.updates| < max ==> Key(u) !in s.updates
    ensures var next := Recv(max, s, u);
            Held(next.updates, key) + OfKey(next.backlog, key) ==
            Held(s.updates, key) + OfKey(s.backlog, key) + OfKey([u], key)
  {
    if |s.updates| < max {
      assert OfKey(s.backlog, key) == [];
    } else {
      OfKeyConcat(s.backlog, [u], key);
    }
  }

  lemma ReplaceWaiting(out: seq<VotedFeedUpdate>, held: seq<VotedFeedUpdate>, waiting: seq<VotedFeedUpdate>,
                       next: seq<VotedFeedUpdate>, all: seq<VotedFeedUpdate>)
    requires Subsequence(out + (held + waiting), all) && Subsequence(next, waiting)
    ensures Subsequence(out + held + next, all)
  {
    SubsequenceRefl(out + held);
    SubsequenceAppend(out + held, out + held, next, waiting);
    assert out + held + waiting == out + (held + waiting);
    SubsequenceTrans(out + held + next, out + held + waiting, all);
  }

  lemma RefillFromEmpty(max: nat, backlog: seq<VotedFeedUpdate>, key: nat)
    ensures var r := Refill(max, map[], backlog);
            Subsequence(Held(r.updates, key) + OfKey(r.backlog, key), OfKey(backlog, key))
  {
    RefillKeepsOrder(max, map[], backlog, key);
    assert Held(map[], key) + OfKey(backlog, key) == OfKey(backlog, key);
  }

  lemma TickKeepsOrder(max: nat, b: Books, key: nat)
    requires Inv(max, b) && InOrder(b, key)
    ensures InOrder(TickStep(max, b), key)
  {
    if b.state.HasData() {
      var r := Refill(max, map[], b.state.backlog);
      EmittedSnoc(b.blocks, Emission(b.state));
      OfKeyConcat(EmittedUpdates(b.blocks), Ordered(b.state.updates), key);
      OfKeyOrdered(b.state.updates, key);
      RefillFromEmpty(max, b.state.backlog, key);
      ReplaceWaiting(OfKey(EmittedUpdates(b.blocks), key), Held(b.state.updates, key), OfKey(b.state.backlog, key),
                     Held(r.updates, key) + OfKey(r.backlog, key), OfKey(b.accepted, key));
    }
  }

  lemma StepKeepsOrder(max: nat, b: Books, e: Event, key: nat)
    requires Inv(max, b) && InOrder(b, key)
    ensures InOrder(Step(max, b, e), key)
  {
    match e
    case Update(u, encodes) =>
      if encodes {
        RecvKeepsOrder(max, b, u, key);
      }
    case Command(_) =>
    case SlotEnd => TickKeepsOrder(max, b, key);
  }

  lemma {:induction false} RunKeepsOrder(max: nat, events: seq<Event>, key: nat)
    ensures InOrder(Run(max, events), key)
  {
    if events == [] {
      var nothing := OfKey([], key);
      EmptySubsequence(nothing);
      assert nothing + (nothing + nothing) == [];
    } else {
      RunKeepsOrder(max, events[..|events| - 1], key);
      RunKeepsInv(max, events[..|events| - 1]);
      StepKeepsOrder(max, Run(max, events[..|events| - 1]), events[|events| - 1], key);
    }
  }

  //
  // Progress
  //

  function Ticks(max: nat, s: State, n: nat): State
    decreases n
  {
    if n == 0 then s else Ticks(max, Tick(max, s), n - 1)
  }

  lemma TickShrinks(max: nat, s: State)
    requires max >= 1 && Batched(max, s)
    ensures Batched(max, Tick(max, s))
    ensures if s.backlog != [] then |Tick(max, s).backlog| < |s.backlog|
            else Tick(max, s).updates == map[] && Tick(max, s).backlog == []
  {
    RefillFills(max, map[], s.backlog);
    RefillTakesFront(max, map[], s.backlog);
  }

  /** Without arrivals, every block takes something off the backlog until everything is emitted. */
  lemma {:induction false} BacklogDrains(max: nat, s: State, n: nat)
    requires max >= 1 && Batched(max, s)
    ensures n > |s.backlog| ==> Ticks(max, s, n).updates == map[] && Ticks(max, s, n).backlog == []
    ensures |Ticks(max, s, n).backlog| <= if n < |s.backlog| then |s.backlog| - n else 0
    decreases n
  {
    if n == 0 {
    } else {
      TickShrinks(max, s);
      BacklogDrains(max, Tick(max, s), n - 1);
    }
  }

  /** A later update never replaces a pending one. */
  lemma PendingIsKept(max: nat, s: State, u: VotedFeedUpdate)
    ensures forall k :: k in s.updates ==> k in Recv(max, s, u).updates && Recv(max, s, u).updates[k] == s.updates[k]
    ensures |s.updates| < max && Key(u) in s.updates ==> Recv(max, s, u) == s
  {
  }
}
