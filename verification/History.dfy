/** Per feed, the most recent published values in an overwriting ring. */
module History {
  import opened Wrappers
  import opened AdfsLayout
  import opened FeedTypes

  datatype HistoryEntry = HistoryEntry(value: FeedType, updateNumber: nat, endSlotTimestamp: nat)

  /** What a slot holds before it is first written; never read. */
  const BLANK: HistoryEntry := HistoryEntry(Binary([]), 0, 0)

  //
  // The ring
  //

  datatype Ring = Ring(slots: seq<HistoryEntry>, read: nat, len: nat) {
    predicate Valid() { read < |slots| && len <= |slots| }

    /** Position `k` places after the read position. */
    function At(k: nat): (p: nat)
      requires Valid() && k <= |slots|
      ensures p < |slots|
    {
      if read + k < |slots| then read + k else read + k - |slots|
    }

    /** The stretch up to the end of the buffer, and the stretch that wrapped around. */
    function AsSlices(): (seq<HistoryEntry>, seq<HistoryEntry>)
      requires Valid()
    {
      if read + len <= |slots| then (slots[read..read + len], [])
      else (slots[read..], slots[..read + len - |slots|])
    }

    function Contents(): seq<HistoryEntry>
      requires Valid()
    {
      AsSlices().0 + AsSlices().1
    }

    function Last(): Option<HistoryEntry>
      requires Valid()
    {
      if len == 0 then None else Some(slots[At(len - 1)])
    }

    function PushOverwrite(x: HistoryEntry): (r: Ring)
      requires Valid()
      ensures r.Valid() && |r.slots| == |slots|
    {
      if len == |slots| then Ring(slots[read := x], At(1), len)
      else Ring(slots[At(len) := x], read, len + 1)
    }

    function Clear(): (r: Ring)
      requires Valid()
      ensures r.Valid() && |r.slots| == |slots|
    {
      Ring(slots, At(len), 0)
    }
  }

  function BlankSlots(n: nat): (s: seq<HistoryEntry>)
    ensures |s| == n
  {
    seq(n, _ => BLANK)
  }

  function NewRing(capacity: nat): (r: Ring)
    requires capacity > 0
    ensures r.Valid() && |r.slots| == capacity
  {
    Ring(BlankSlots(capacity), 0, 0)
  }

  lemma ContentsAt(r: Ring, k: nat)
    requires r.Valid() && k < r.len
    ensures |r.Contents()| == r.len && r.Contents()[k] == r.slots[r.At(k)]
  {
  }

  /** The slices hold the newest values, oldest first; a full ring loses its oldest one. */
  lemma PushContents(r: Ring, x: HistoryEntry)
    requires r.Valid()
    ensures |r.Contents()| == r.len
    ensures r.PushOverwrite(x).Contents() ==
            (if r.len < |r.slots| then r.Contents() else r.Contents()[1..]) + [x]
  {
    var after := r.PushOverwrite(x);
    var expected := (if r.len < |r.slots| then r.Contents() else r.Contents()[1..]) + [x];
    forall k | 0 <= k < after.len ensures after.Contents()[k] == expected[k] {
      ContentsAt(after, k);
      if k < after.len - 1 {
        ContentsAt(r, if r.len < |r.slots| then k else k + 1);
      }
    }
  }

  lemma LastOfContents(r: Ring)
    requires r.Valid()
    ensures |r.Contents()| == r.len
    ensures r.Last() == if r.len == 0 then None else Some(r.Contents()[r.len - 1])
  {
    if r.len > 0 {
      ContentsAt(r, r.len - 1);
    }
  }

  //
  // All feeds
  //

  type Rings = map<EncodedFeedId, Ring>

  predicate ValidRings(rings: Rings) {
    forall f :: f in rings ==> rings[f].Valid()
  }

  function LastOf(rings: Rings, f: EncodedFeedId): Option<HistoryEntry>
    requires ValidRings(rings)
  {
    if f in rings then rings[f].Last() else None
  }

  function NextNumber(last: Option<HistoryEntry>): nat {
    if last.Some? then last.value.updateNumber + 1 else 0
  }

  datatype Op =
    | Register(feed: EncodedFeedId, capacity: nat)
    | Deregister(feed: EncodedFeedId)
    | Clear(feed: EncodedFeedId)
    | Push(feed: EncodedFeedId, value: FeedType, endSlotTimestamp: nat)
  {
    predicate Valid() { Register? ==> capacity > 0 }
  }

  function Apply(rings: Rings, op: Op): (r: Rings)
    requires ValidRings(rings) && op.Valid()
    ensures ValidRings(r)
  {
    match op
    case Register(f, capacity) => rings[f := NewRing(capacity)]
    case Deregister(f) => rings - {f}
    case Clear(f) => if f in rings then rings[f := rings[f].Clear()] else rings
    case Push(f, value, timestamp) =>
      if f in rings then
        rings[f := rings[f].PushOverwrite(HistoryEntry(value, NextNumber(rings[f].Last()), timestamp))]
      else rings
  }

  class FeedAggregateHistory {
    var aggregateHistory: Rings

    ghost predicate Valid()
      reads this
    {
      ValidRings(aggregateHistory)
    }

    constructor ()
      ensures Valid() && aggregateHistory == map[]
    {
      aggregateHistory := map[];
    }

    method RegisterFeed(f: EncodedFeedId, bufSize: nat)
      requires Valid() && bufSize > 0
      modifies this
      ensures Valid() && aggregateHistory == Apply(old(aggregateHistory), Register(f, bufSize))
    {
      aggregateHistory := aggregateHistory[f := NewRing(bufSize)];
    }

    method DeregisterFeed(f: EncodedFeedId)
      requires Valid()
      modifies this
      ensures Valid() && aggregateHistory == Apply(old(aggregateHistory), Deregister(f))
    {
      aggregateHistory := aggregateHistory - {f};
    }

    method ClearFeed(f: EncodedFeedId) returns (removed: nat)
      requires Valid()
      modifies this
      ensures Valid() && aggregateHistory == Apply(old(aggregateHistory), Clear(f))
      ensures removed == if f in old(aggregateHistory) then |old(aggregateHistory)[f].Contents()| else 0
    {
      removed := 0;
      if f in aggregateHistory {
        LastOfContents(aggregateHistory[f]);
        removed := aggregateHistory[f].len;
        aggregateHistory := aggregateHistory[f := aggregateHistory[f].Clear()];
      }
    }

    method PushNext(f: EncodedFeedId, value: FeedType, endSlotTimestamp: nat)
      requires Valid()
      modifies this
      ensures Valid() && aggregateHistory == Apply(old(aggregateHistory), Push(f, value, endSlotTimestamp))
    {
      if f in aggregateHistory {
        var ring := aggregateHistory[f];
        var last := ring.Last();
        var updateNumber := 0;
        if last.Some? {
          updateNumber := last.value.updateNumber + 1;
        }
        aggregateHistory := aggregateHistory[f := ring.PushOverwrite(HistoryEntry(value, updateNumber, endSlotTimestamp))];
      }
    }

    method Last(f: EncodedFeedId) returns (r: Option<HistoryEntry>)
      requires Valid()
      ensures r == LastOf(aggregateHistory, f)
    {
      if f in aggregateHistory {
        r := aggregateHistory[f].Last();
      } else {
        r := None;
      }
    }
  }

  //
  // Runs
  //

  function Run(ops: seq<Op>): (rings: Rings)
    requires forall op :: op in ops ==> op.Valid()
    ensures ValidRings(rings)
  {
    if ops == [] then map[] else Apply(Run(ops[..|ops| - 1]), ops[|ops| - 1])
  }

  /** The plain log of a feed: its capacity and everything pushed since it was last registered or
      cleared, numbered from 0. None while the feed is not registered. */
  datatype FeedLog = FeedLog(capacity: nat, entries: seq<HistoryEntry>)

  function LogOf(ops: seq<Op>, f: EncodedFeedId): Option<FeedLog> {
    if ops == [] then None
    else
      var log, op := LogOf(ops[..|ops| - 1], f), ops[|ops| - 1];
      if op.feed != f then log
      else
        match op
        case Register(_, capacity) => Some(FeedLog(capacity, []))
        case Deregister(_) => None
        case Clear(_) => if log.Some? then Some(FeedLog(log.value.capacity, [])) else None
        case Push(_, value, timestamp) =>
          if log.None? then None
          else
            var entry := HistoryEntry(value, |log.value.entries|, timestamp);
            Some(log.value.(entries := log.value.entries + [entry]))
  }

  function Newest(entries: seq<HistoryEntry>, n: nat): seq<HistoryEntry> {
    if |entries| <= n then entries else entries[|entries| - n..]
  }

  /** The ring of a feed holds the newest entries of its log, as many as it has room for. */
  ghost predicate Agrees(rings: Rings, f: EncodedFeedId, log: Option<FeedLog>)
    requires ValidRings(rings)
  {
    && (f in rings <==> log.Some?)
    && (f in rings ==>
          && |rings[f].slots| == log.value.capacity
          && rings[f].Contents() == Newest(log.value.entries, log.value.capacity)
          && forall k :: 0 <= k < |log.value.entries| ==> log.value.entries[k].updateNumber == k)
  }

  lemma NewestLast(entries: seq<HistoryEntry>, n: nat)
    requires n > 0
    ensures |Newest(entries, n)| == if |entries| <= n then |entries| else n
    ensures entries != [] ==> Newest(entries, n) != [] && Newest(entries, n)[|Newest(entries, n)| - 1] == entries[|entries| - 1]
  {
  }

  lemma NewestSnoc(entries: seq<HistoryEntry>, n: nat, x: HistoryEntry)
    requires n > 0
    ensures Newest(entries + [x], n) == (if |entries| < n then Newest(entries, n) else Newest(entries, n)[1..]) + [x]
  {
  }

  /** `last` is the newest entry of the log. */
  lemma LastIsNewest(rings: Rings, f: EncodedFeedId, log: Option<FeedLog>)
    requires ValidRings(rings) && Agrees(rings, f, log)
    ensures LastOf(rings, f) ==
            if log.None? || log.value.entries == [] then None else Some(log.value.entries[|log.value.entries| - 1])
  {
    if f in rings {
      LastOfContents(rings[f]);
      NewestLast(log.value.entries, log.value.capacity);
    }
  }

  lemma RingPush(r: Ring, entries: seq<HistoryEntry>, x: HistoryEntry)
    requires r.Valid() && r.Contents() == Newest(entries, |r.slots|)
    ensures r.PushOverwrite(x).Contents() == Newest(entries + [x], |r.slots|)
  {
    PushContents(r, x);
    NewestLast(entries, |r.slots|);
    NewestSnoc(entries, |r.slots|, x);
  }

  lemma NumberedSnoc(entries: seq<HistoryEntry>, x: HistoryEntry)
    requires forall k :: 0 <= k < |entries| ==> entries[k].updateNumber == k
    requires x.updateNumber == |entries|
    ensures forall k :: 0 <= k < |entries + [x]| ==> (entries + [x])[k].updateNumber == k
  {
  }

  lemma PushKeepsAgreement(rings: Rings, f: EncodedFeedId, log: FeedLog, value: FeedType, timestamp: nat)
    requires ValidRings(rings) && Agrees(rings, f, Some(log))
    ensures var entry := HistoryEntry(value, |log.entries|, timestamp);
            Agrees(Apply(rings, Push(f, value, timestamp)), f, Some(log.(entries := log.entries + [entry])))
  {
    var entry := HistoryEntry(value, |log.entries|, timestamp);
    LastIsNewest(rings, f, Some(log));
    RingPush(rings[f], log.entries, entry);
    NumberedSnoc(log.entries, entry);
    assert Apply(rings, Push(f, value, timestamp)) == rings[f := rings[f].PushOverwrite(entry)];
  }

  /** After any run of registering, pushing, clearing and deregistering, the two slices of every ring are
      the newest values of the feed's log, in order and with consecutive numbers. */
  lemma {:induction false} RunAgrees(ops: seq<Op>, f: EncodedFeedId)
    requires forall op :: op in ops ==> op.Valid()
    ensures Agrees(Run(ops), f, LogOf(ops, f))
  {
    if ops == [] {
    } else {
      var front, op := ops[..|ops| - 1], ops[|ops| - 1];
      RunAgrees(front, f);
      if op.Push? && op.feed == f && f in Run(front) {
        PushKeepsAgreement(Run(front), f, LogOf(front, f).value, op.value, op.endSlotTimestamp);
      }
    }
  }
}
