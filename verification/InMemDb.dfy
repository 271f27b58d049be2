/** The in-memory chain of blocks: headers linked by hash, found by height or by hash. */
module InMemDb {
  import opened Bytes
  import opened Wrappers
  import opened AdfsLayout

  const MAX_NEW_FEEDS_IN_BLOCK: nat := 32
  const MAX_FEED_ID_TO_DELETE_IN_BLOCK: nat := 32

  type HashType = seq<byte>

  const GENESIS_HASH: HashType := [
    0xec, 0x59, 0xd3, 0xd7, 0x86, 0x0e, 0xad, 0xc9, 0x20, 0x7b, 0x6c, 0xcf, 0x7c, 0x89, 0x7b, 0x23,
    0xb6, 0xb8, 0xe8, 0x2d, 0x3d, 0x4b, 0x80, 0x21, 0x2d, 0xfe, 0xbc, 0x15, 0xa6, 0xb1, 0x6b, 0x17]

  datatype BlockHeader = BlockHeader(
    issuerId: nat,
    blockHeight: nat,
    timestamp: nat,
    prevBlockHash: HashType,
    addRemoveFeedsMerkleRoot: HashType)

  datatype BlockFeedConfig = BlockFeedConfig(
    id: nat,
    stride: nat,
    decimals: nat,
    reportIntervalMs: nat,
    firstReportStartTime: nat,
    description: seq<byte>)

  datatype FeedActions = FeedActions(
    blockHeight: nat,
    newFeeds: seq<Option<BlockFeedConfig>>,
    feedIdsToRm: seq<Option<EncodedFeedId>>)

  /** The Merkle roots of headers and of feed actions; the hashing itself is a parameter. */
  datatype Roots = Roots(header: BlockHeader -> HashType, actions: FeedActions -> HashType) {
    /** No two headers share a root, no two action lists do, and no header hashes to the genesis hash. */
    ghost predicate CollisionFree() {
      && (forall a, b :: header(a) == header(b) ==> a == b)
      && (forall a, b :: actions(a) == actions(b) ==> a == b)
      && forall h :: header(h) != GENESIS_HASH
    }
  }

  //
  // The ledger as a value
  //

  datatype Ledger = Ledger(
    latest: nat,
    heightToHash: map<nat, HashType>,
    hashToHeader: map<HashType, BlockHeader>,
    addRemoveFeeds: map<HashType, FeedActions>)
  {
    /** The header at the latest height can be read, once there is one. */
    predicate LatestReadable() {
      latest != 0 ==> latest in heightToHash && heightToHash[latest] in hashToHeader
    }

    function LatestHeader(): BlockHeader
      requires LatestReadable() && latest != 0
    {
      hashToHeader[heightToHash[latest]]
    }

    /** The hash the next block has to refer to. */
    function Tip(roots: Roots): HashType
      requires LatestReadable()
    {
      if latest == 0 then GENESIS_HASH else roots.header(LatestHeader())
    }
  }

  const EMPTY: Ledger := Ledger(0, map[], map[], map[])

  predicate Accepts(roots: Roots, l: Ledger, header: BlockHeader)
    requires l.LatestReadable()
  {
    header.blockHeight > l.latest && header.prevBlockHash == l.Tip(roots)
  }

  function Stored(roots: Roots, l: Ledger, header: BlockHeader, actions: FeedActions): Ledger {
    var hash := roots.header(header);
    l.(heightToHash := l.heightToHash[header.blockHeight := hash],
       hashToHeader := l.hashToHeader[hash := header],
       addRemoveFeeds := l.addRemoveFeeds[roots.actions(actions) := actions])
  }

  function AddNext(roots: Roots, l: Ledger, header: BlockHeader, actions: FeedActions): (r: Ledger)
    requires l.LatestReadable()
    ensures r.LatestReadable()
    ensures r != l ==> Accepts(roots, l, header)
  {
    if Accepts(roots, l, header) then Stored(roots, l, header, actions).(latest := header.blockHeight) else l
  }

  /** The array slots a list fills: its first `n` elements, then empty slots. */
  function Slots<T>(items: seq<T>, n: nat): (slots: seq<Option<T>>)
    ensures |slots| == n
  {
    seq(n, i requires 0 <= i => if i < |items| then Some(items[i]) else None)
  }

  function NewBlock(roots: Roots, l: Ledger, issuer: nat, height: nat, timestamp: nat,
                    newFeeds: seq<BlockFeedConfig>, toDelete: seq<EncodedFeedId>): (BlockHeader, FeedActions)
    requires l.LatestReadable()
  {
    var actions := FeedActions(height, Slots(newFeeds, MAX_NEW_FEEDS_IN_BLOCK),
                               Slots(toDelete, MAX_FEED_ID_TO_DELETE_IN_BLOCK));
    (BlockHeader(issuer, height, timestamp, l.Tip(roots), roots.actions(actions)), actions)
  }

  //
  // The database
  //

  method FillSlots<T(0)>(items: seq<T>, n: nat) returns (slots: array<Option<T>>)
    ensures fresh(slots) && slots[..] == Slots(items, n)
  {
    slots := new Option<T>[n];
    var next := 0;
    for i := 0 to n
      invariant next == if i < |items| then i else |items|
      invariant forall k :: 0 <= k < i ==> slots[k] == Slots(items, n)[k]
    {
      if next < |items| {
        slots[i] := Some(items[next]);
        next := next + 1;
      } else {
        slots[i] := None;
      }
    }
  }

  datatype AddError = HeightNotHigher | DoesNotReferGenesis | DoesNotReferLatest

  class InMemDb {
    const roots: Roots
    var latestBlockHeight: nat
    var blockHeightToHeaderHash: map<nat, HashType>
    var blockHeaderHashToHeader: map<HashType, BlockHeader>
    var addRemoveFeeds: map<HashType, FeedActions>

    ghost function Value(): Ledger
      reads this
    {
      Ledger(latestBlockHeight, blockHeightToHeaderHash, blockHeaderHashToHeader, addRemoveFeeds)
    }

    constructor (roots: Roots)
      ensures this.roots == roots && Value() == EMPTY
    {
      this.roots := roots;
      latestBlockHeight, blockHeightToHeaderHash, blockHeaderHashToHeader, addRemoveFeeds := 0, map[], map[], map[];
    }

    method CreateNewBlock(sequencerId: nat, newBlockHeight: nat, timestamp: nat,
                          newFeedsInBlock: seq<BlockFeedConfig>, feedIdsToDeleteInBlock: seq<EncodedFeedId>)
      returns (header: BlockHeader, actions: FeedActions)
      requires Value().LatestReadable()
      ensures (header, actions) ==
              NewBlock(roots, Value(), sequencerId, newBlockHeight, timestamp, newFeedsInBlock, feedIdsToDeleteInBlock)
      ensures header.issuerId == sequencerId && header.timestamp == timestamp
      ensures header.blockHeight == newBlockHeight == actions.blockHeight
      ensures header.addRemoveFeedsMerkleRoot == roots.actions(actions)
      ensures header.prevBlockHash ==
              if latestBlockHeight == 0 then GENESIS_HASH
              else roots.header(blockHeaderHashToHeader[blockHeightToHeaderHash[latestBlockHeight]])
      ensures |actions.newFeeds| == 32 && |actions.feedIdsToRm| == 32
      ensures forall i :: 0 <= i < 32 ==>
                && actions.newFeeds[i] == (if i < |newFeedsInBlock| then Some(newFeedsInBlock[i]) else None)
                && actions.feedIdsToRm[i] == (if i < |feedIdsToDeleteInBlock| then Some(feedIdsToDeleteInBlock[i]) else None)
    {
      var newFeeds := FillSlots(newFeedsInBlock, MAX_NEW_FEEDS_IN_BLOCK);
      var feedIdsToRm := FillSlots(feedIdsToDeleteInBlock, MAX_FEED_ID_TO_DELETE_IN_BLOCK);
      actions := FeedActions(newBlockHeight, newFeeds[..], feedIdsToRm[..]);
      header := BlockHeader(sequencerId, newBlockHeight, timestamp, GENESIS_HASH, roots.actions(actions));
      if latestBlockHeight != 0 {
        var latestHeader := blockHeaderHashToHeader[blockHeightToHeaderHash[latestBlockHeight]];
        header := header.(prevBlockHash := roots.header(latestHeader));
      }
    }

    method AddBlock(header: BlockHeader, actions: FeedActions)
      modifies this
      ensures Value() == Stored(roots, old(Value()), header, actions)
    {
      var newHeaderHash := roots.header(header);
      blockHeightToHeaderHash := blockHeightToHeaderHash[header.blockHeight := newHeaderHash];
      blockHeaderHashToHeader := blockHeaderHashToHeader[newHeaderHash := header];
      addRemoveFeeds := addRemoveFeeds[roots.actions(actions) := actions];
    }

    method AddNextBlock(header: BlockHeader, actions: FeedActions) returns (r: Result<(), AddError>)
      requires Value().LatestReadable()
      modifies this
      ensures Value() == AddNext(roots, old(Value()), header, actions)
      ensures r.Ok? <==> Accepts(roots, old(Value()), header)
      ensures r == Err(HeightNotHigher) <==> header.blockHeight <= old(latestBlockHeight)
      ensures r == Err(DoesNotReferGenesis) ==> old(latestBlockHeight) == 0
      ensures r == Err(DoesNotReferLatest) ==> old(latestBlockHeight) != 0
    {
      if header.blockHeight <= latestBlockHeight {
        return Err(HeightNotHigher);
      }
      if latestBlockHeight == 0 && header.prevBlockHash != GENESIS_HASH {
        return Err(DoesNotReferGenesis);
      }
      if latestBlockHeight != 0 {
        var latestHeader := blockHeaderHashToHeader[blockHeightToHeaderHash[latestBlockHeight]];
        if header.prevBlockHash != roots.header(latestHeader) {
          return Err(DoesNotReferLatest);
        }
      }
      AddBlock(header, actions);
      latestBlockHeight := header.blockHeight;
      return Ok(());
    }
  }

  //
  // Runs
  //

  datatype Call = Call(header: BlockHeader, actions: FeedActions)

  /** The ledger after a series of `add_next_block` calls with arbitrary blocks. */
  function Run(roots: Roots, calls: seq<Call>): (l: Ledger)
    ensures l.LatestReadable()
  {
    if calls == [] then EMPTY
    else
      var before := Run(roots, calls[..|calls| - 1]);
      AddNext(roots, before, calls[|calls| - 1].header, calls[|calls| - 1].actions)
  }

  /** The headers of the calls that were accepted, in order. */
  ghost function Accepted(roots: Roots, calls: seq<Call>): seq<BlockHeader> {
    if calls == [] then []
    else
      var before := Run(roots, calls[..|calls| - 1]);
      var header := calls[|calls| - 1].header;
      Accepted(roots, calls[..|calls| - 1]) + if Accepts(roots, before, header) then [header] else []
  }

  /** Starting at `hash` and following previous-block hashes visits `chain` from its last header to its
      first, and then arrives at the genesis hash. */
  ghost predicate LeadsToGenesis(l: Ledger, hash: HashType, chain: seq<BlockHeader>)
    decreases |chain|
  {
    if chain == [] then hash == GENESIS_HASH
    else
      var last := chain[|chain| - 1];
      && hash in l.hashToHeader
      && l.hashToHeader[hash] == last
      && last.blockHeight in l.heightToHash
      && l.heightToHash[last.blockHeight] == hash
      && LeadsToGenesis(l, last.prevBlockHash, chain[..|chain| - 1])
  }

  ghost predicate Ascending(chain: seq<BlockHeader>) {
    forall i, j :: 0 <= i < j < |chain| ==> chain[i].blockHeight < chain[j].blockHeight
  }

  function LastHeight(chain: seq<BlockHeader>): nat {
    if chain == [] then 0 else chain[|chain| - 1].blockHeight
  }

  /** Every entry is stored under its own root, and none lies above the latest height. */
  ghost predicate Indexed(roots: Roots, l: Ledger) {
    && (forall h :: h in l.heightToHash ==> h <= l.latest)
    && (forall hash :: hash in l.hashToHeader ==> hash == roots.header(l.hashToHeader[hash]))
    && (forall hash :: hash in l.hashToHeader ==> l.hashToHeader[hash].blockHeight <= l.latest)
    && (forall root :: root in l.addRemoveFeeds ==> root == roots.actions(l.addRemoveFeeds[root]))
  }

  ghost predicate ChainInv(roots: Roots, l: Ledger, chain: seq<BlockHeader>) {
    && l.LatestReadable()
    && Indexed(roots, l)
    && LeadsToGenesis(l, l.Tip(roots), chain)
    && Ascending(chain)
    && l.latest == LastHeight(chain)
  }

  /** `after` still holds every entry of `before`. */
  ghost predicate Extends(before: Ledger, after: Ledger) {
    && (forall h :: h in before.heightToHash ==> h in after.heightToHash && after.heightToHash[h] == before.heightToHash[h])
    && (forall hash :: hash in before.hashToHeader ==>
          hash in after.hashToHeader && after.hashToHeader[hash] == before.hashToHeader[hash])
    && (forall root :: root in before.addRemoveFeeds ==>
          root in after.addRemoveFeeds && after.addRemoveFeeds[root] == before.addRemoveFeeds[root])
  }

  lemma {:induction false} LeadsToGenesisKept(before: Ledger, after: Ledger, hash: HashType, chain: seq<BlockHeader>)
    requires Extends(before, after) && LeadsToGenesis(before, hash, chain)
    ensures LeadsToGenesis(after, hash, chain)
    decreases |chain|
  {
    if chain == [] {
    } else {
      LeadsToGenesisKept(before, after, chain[|chain| - 1].prevBlockHash, chain[..|chain| - 1]);
    }
  }

  lemma AddNextExtends(roots: Roots, l: Ledger, header: BlockHeader, actions: FeedActions)
    requires roots.CollisionFree() && l.LatestReadable() && Indexed(roots, l)
    ensures Extends(l, AddNext(roots, l, header, actions))
    ensures Indexed(roots, AddNext(roots, l, header, actions))
  {
  }

  lemma ChainGrows(roots: Roots, l: Ledger, chain: seq<BlockHeader>, header: BlockHeader, actions: FeedActions)
    requires roots.CollisionFree() && l.LatestReadable() && Accepts(roots, l, header)
    requires LeadsToGenesis(AddNext(roots, l, header, actions), l.Tip(roots), chain)
    ensures var next := AddNext(roots, l, header, actions);
            LeadsToGenesis(next, next.Tip(roots), chain + [header])
  {
    assert (chain + [header])[..|chain|] == chain;
  }

  lemma AddNextKeepsInv(roots: Roots, l: Ledger, chain: seq<BlockHeader>, header: BlockHeader, actions: FeedActions)
    requires roots.CollisionFree() && ChainInv(roots, l, chain)
    ensures ChainInv(roots, AddNext(roots, l, header, actions),
                     chain + if Accepts(roots, l, header) then [header] else [])
  {
    AddNextExtends(roots, l, header, actions);
    if Accepts(roots, l, header) {
      LeadsToGenesisKept(l, AddNext(roots, l, header, actions), l.Tip(roots), chain);
      ChainGrows(roots, l, chain, header, actions);
    } else {
      assert chain + [] == chain;
    }
  }

  /** In every reachable ledger the accepted blocks form one chain down to the genesis hash. */
  lemma {:induction false} RunIsChain(roots: Roots, calls: seq<Call>)
    requires roots.CollisionFree()
    ensures ChainInv(roots, Run(roots, calls), Accepted(roots, calls))
  {
    if calls == [] {
    } else {
      var before := calls[..|calls| - 1];
      RunIsChain(roots, before);
      AddNextKeepsInv(roots, Run(roots, before), Accepted(roots, before),
                      calls[|calls| - 1].header, calls[|calls| - 1].actions);
    }
  }

  function Heights(chain: seq<BlockHeader>): set<nat> {
    set h | h in chain :: h.blockHeight
  }

  /** The heights that can be looked up are exactly those of the accepted blocks. */
  lemma {:induction false} StoredHeightsAreAccepted(roots: Roots, calls: seq<Call>)
    ensures Run(roots, calls).heightToHash.Keys == Heights(Accepted(roots, calls))
  {
    if calls == [] {
    } else {
      var before := calls[..|calls| - 1];
      StoredHeightsAreAccepted(roots, before);
      var header := calls[|calls| - 1].header;
      var chain := Accepted(roots, before);
      assert forall h :: h in chain + [header] <==> h in chain || h == header;
      assert Heights(chain + [header]) == Heights(chain) + {header.blockHeight};
      assert chain + [] == chain;
    }
  }

  lemma ExtendsTrans(a: Ledger, b: Ledger, c: Ledger)
    requires Extends(a, b) && Extends(b, c)
    ensures Extends(a, c)
  {
  }

  lemma LastCallExtends(roots: Roots, calls: seq<Call>)
    requires roots.CollisionFree() && calls != []
    ensures Extends(Run(roots, calls[..|calls| - 1]), Run(roots, calls))
  {
    RunIsChain(roots, calls[..|calls| - 1]);
    AddNextExtends(roots, Run(roots, calls[..|calls| - 1]), calls[|calls| - 1].header, calls[|calls| - 1].actions);
  }

  /** Later calls never change or remove an entry. */
  lemma {:induction false} RunIsAppendOnly(roots: Roots, calls: seq<Call>, more: seq<Call>)
    requires roots.CollisionFree()
    ensures Extends(Run(roots, calls), Run(roots, calls + more))
    decreases |more|
  {
    if more == [] {
      assert calls + more == calls;
    } else {
      var fewer, all := more[..|more| - 1], calls + more;
      assert all[..|all| - 1] == calls + fewer;
      RunIsAppendOnly(roots, calls, fewer);
      LastCallExtends(roots, all);
      ExtendsTrans(Run(roots, calls), Run(roots, calls + fewer), Run(roots, all));
    }
  }

  /** The chain below a hash is unique, so walking back can only ever find the accepted blocks. */
  lemma {:induction false} ChainIsUnique(roots: Roots, l: Ledger, hash: HashType, a: seq<BlockHeader>, b: seq<BlockHeader>)
    requires roots.CollisionFree()
    requires forall h :: h in l.hashToHeader ==> h == roots.header(l.hashToHeader[h])
    requires LeadsToGenesis(l, hash, a) && LeadsToGenesis(l, hash, b)
    ensures a == b
    decreases |a|
  {
    if a == [] || b == [] {
    } else {
      var last := a[|a| - 1];
      ChainIsUnique(roots, l, last.prevBlockHash, a[..|a| - 1], b[..|b| - 1]);
      assert a == a[..|a| - 1] + [last] && b == b[..|b| - 1] + [last];
    }
  }

  /** A block made by `create_new_block` is accepted exactly when its height is above the latest one. */
  lemma CreatedBlockAcceptedIff(roots: Roots, l: Ledger, issuer: nat, height: nat, timestamp: nat,
                                newFeeds: seq<BlockFeedConfig>, toDelete: seq<EncodedFeedId>)
    requires l.LatestReadable()
    ensures var (header, actions) := NewBlock(roots, l, issuer, height, timestamp, newFeeds, toDelete);
            && (Accepts(roots, l, header) <==> height > l.latest)
            && (height > l.latest ==> AddNext(roots, l, header, actions).latest == height)
  {
  }

  //
  // The slots of a block
  //

  function Filled<T>(slots: seq<Option<T>>): seq<T> {
    if slots == [] then []
    else Filled(slots[..|slots| - 1]) + match slots[|slots| - 1] case None => [] case Some(x) => [x]
  }

  /** The slots hold the first `n` items in order, so nothing is lost from a list of at most `n`. */
  lemma {:induction false} SlotsKeepTheFirst<T>(items: seq<T>, n: nat)
    ensures Filled(Slots(items, n)) == if |items| <= n then items else items[..n]
  {
    if n == 0 {
    } else {
      SlotsKeepTheFirst(items, n - 1);
      assert Slots(items, n)[..n - 1] == Slots(items, n - 1);
      if n <= |items| {
        assert items[..n] == items[..n - 1] + [items[n - 1]];
        assert items[..n - 1] == if |items| <= n - 1 then items else items[..n - 1];
        assert |items| == n ==> items == items[..n];
      }
    }
  }
}
