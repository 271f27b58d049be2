/** The nonces of a network's Safe over whole runs: a batch gets the Safe's nonce plus the batches in progress when
    it is announced, and the Safe only executes the transaction that carries its current nonce. */
module SafeNonces {
  import opened Wrappers
  import opened AdfsLayout
  import opened AdfsCalldata
  import opened TxSender
  import opened TxAccounting

  /** An event of the second round, and whether the Safe executed the transaction of the batch that ended. A batch
      can be executed and rolled back all the same, when its receipt timed out. */
  datatype Turn = Turn(event: Event, executed: bool)

  /** The provider's books, the nonce of the Safe, and the nonce each batch was announced with. */
  datatype Ledger = Ledger(books: Books, safe: nat, nonces: seq<nat>)

  function EventsOf(turns: seq<Turn>): seq<Event> {
    if turns == [] then [] else EventsOf(turns[..|turns| - 1]) + [turns[|turns| - 1].event]
  }

  /** The position of the batch the Safe executes in a turn. */
  function Executed(l: Ledger, t: Turn): Option<nat> {
    if t.event.Ended? && t.executed then Find(l.books.batches, t.event.height) else None
  }

  function Turned(l: Ledger, t: Turn): Ledger {
    Ledger(Step(l.books, t.event),
           if Executed(l, t).Some? then l.safe + 1 else l.safe,
           if t.event.Announced? then l.nonces + [l.safe + l.books.inProgress] else l.nonces)
  }

  function Played(first: nat, turns: seq<Turn>): Ledger {
    if turns == [] then Ledger(START, first, []) else Turned(Played(first, turns[..|turns| - 1]), turns[|turns| - 1])
  }

  /** The Safe executes only its current nonce, and a receipt tells whether it did. */
  ghost predicate Allowed(l: Ledger, t: Turn) {
    && (Executed(l, t).Some? ==> Executed(l, t).value < |l.nonces| && l.nonces[Executed(l, t).value] == l.safe)
    && (t.event.Ended? && t.event.exit.Receipt? ==> t.executed == t.event.exit.ok)
  }

  ghost predicate AllAllowed(first: nat, turns: seq<Turn>) {
    turns == [] ||
    (AllAllowed(first, turns[..|turns| - 1]) && Allowed(Played(first, turns[..|turns| - 1]), turns[|turns| - 1]))
  }

  lemma {:induction false} PlayedBooks(first: nat, turns: seq<Turn>)
    ensures Played(first, turns).books == Run(EventsOf(turns))
    ensures |Played(first, turns).nonces| == |Played(first, turns).books.batches|
  {
    if turns == [] {
    } else {
      var front := turns[..|turns| - 1];
      PlayedBooks(first, front);
      RunSnoc(EventsOf(front), turns[|turns| - 1].event);
    }
  }

  //
  // Order of execution
  //

  /** The nonces the Safe executed, in order. */
  function ExecutedNonces(first: nat, turns: seq<Turn>): seq<nat> {
    if turns == [] then []
    else
      var front := turns[..|turns| - 1];
      var l := Played(first, front);
      var i := Executed(l, turns[|turns| - 1]);
      ExecutedNonces(first, front) + if i.Some? && i.value < |l.nonces| then [l.nonces[i.value]] else []
  }

  /** Over every run batches are executed in the order of their nonces, each nonce once and without a gap. */
  lemma {:induction false} ExecutedInNonceOrder(first: nat, turns: seq<Turn>)
    requires AllAllowed(first, turns)
    ensures var executed := ExecutedNonces(first, turns);
            && Played(first, turns).safe == first + |executed|
            && forall k :: 0 <= k < |executed| ==> executed[k] == first + k
  {
    if turns == [] {
    } else {
      ExecutedInNonceOrder(first, turns[..|turns| - 1]);
    }
  }

  //
  // A lost batch stalls the network
  //

  /** No batch announced at position `m` or later is executed. */
  ghost predicate OnlyBefore(first: nat, turns: seq<Turn>, m: nat) {
    turns == [] ||
    (var front := turns[..|turns| - 1];
     OnlyBefore(first, front, m) &&
     (Executed(Played(first, front), turns[|turns| - 1]).Some? ==> Executed(Played(first, front), turns[|turns| - 1]).value < m))
  }

  /** Among the first `m` batches one is lost, and the nonce of every later batch that waits is out of the Safe's
      reach even if all of the first that wait are executed. */
  ghost predicate Stalled(l: Ledger, m: nat) {
    && |l.nonces| == |l.books.batches| && m <= |l.books.batches|
    && CountOf(l.books.batches[..m], LOST) > 0
    && forall i :: m <= i < |l.books.batches| && l.books.batches[i].status.Waiting? ==>
         l.nonces[i] > l.safe + CountOf(l.books.batches[..m], WAITING)
  }

  lemma CountedSplit(batches: seq<Announcement>)
    ensures CountOf(batches, COUNTED) == CountOf(batches, WAITING) + CountOf(batches, LOST)
  {
    CountSplit(batches, COUNTED, WAITING, LOST);
  }

  lemma {:induction false} CountUpTo(batches: seq<Announcement>, m: nat, p: Announcement -> bool)
    requires m <= |batches|
    ensures CountOf(batches[..m], p) <= CountOf(batches, p)
  {
    if m == |batches| {
      assert batches[..m] == batches;
    } else {
      CountUpTo(batches[..|batches| - 1], m, p);
      assert batches[..|batches| - 1][..m] == batches[..m];
    }
  }

  lemma AnnounceKeepsStalled(l: Ledger, t: Turn, m: nat, f: EncodedFeedId)
    requires Stalled(l, m) && BooksInv(l.books, f) && t.event.Announced?
    ensures Stalled(Turned(l, t), m)
  {
    var batches := l.books.batches;
    assert Turned(l, t).books.batches[..m] == batches[..m];
    CountedSplit(batches[..m]);
    CountUpTo(batches, m, COUNTED);
  }

  /** Settling a waiting batch: none before position `m` becomes waiting, and a lost one stays lost. */
  lemma SettledCounts(batches: seq<Announcement>, i: nat, status: Status, m: nat)
    requires i < |batches| && m <= |batches| && batches[i].status.Waiting? && !status.Waiting?
    ensures var next := batches[i := batches[i].(status := status)];
            && CountOf(next[..m], WAITING) == CountOf(batches[..m], WAITING) - (if i < m then 1 else 0)
            && CountOf(next[..m], LOST) >= CountOf(batches[..m], LOST)
  {
    var a := batches[i].(status := status);
    if i < m {
      assert batches[i := a][..m] == batches[..m][i := a];
      CountUpdate(batches[..m], i, a, WAITING);
      CountUpdate(batches[..m], i, a, LOST);
    } else {
      assert batches[i := a][..m] == batches[..m];
    }
  }

  lemma SettleKeepsStalled(l: Ledger, t: Turn, m: nat, i: nat)
    requires Stalled(l, m) && Allowed(l, t) && !t.event.Announced? && Find(l.books.batches, t.event.height) == Some(i)
    ensures Stalled(Turned(l, t), m)
    ensures Executed(l, t).Some? ==> i < m
  {
    SettledCounts(l.books.batches, i, Outcome(t.event), m);
  }

  lemma TurnKeepsStalled(l: Ledger, t: Turn, m: nat, f: EncodedFeedId)
    requires Stalled(l, m) && BooksInv(l.books, f) && Allowed(l, t)
    ensures Stalled(Turned(l, t), m)
    ensures Executed(l, t).Some? ==> Executed(l, t).value < m
  {
    if t.event.Announced? {
      AnnounceKeepsStalled(l, t, m, f);
    } else {
      match Find(l.books.batches, t.event.height)
      case None =>
      case Some(i) => SettleKeepsStalled(l, t, m, i);
    }
  }

  lemma {:induction false} RunStaysStalled(first: nat, front: seq<Turn>, turns: seq<Turn>, f: EncodedFeedId)
    requires front <= turns && Fair(EventsOf(turns)) && AllAllowed(first, turns)
    requires Stalled(Played(first, front), |Played(first, front).books.batches|)
    ensures Stalled(Played(first, turns), |Played(first, front).books.batches|)
    ensures OnlyBefore(first, front, |Played(first, front).books.batches|) ==>
              OnlyBefore(first, turns, |Played(first, front).books.batches|)
  {
    if |turns| == |front| {
      assert turns == front;
    } else {
      var turns' := turns[..|turns| - 1];
      assert Fair(EventsOf(turns')) by {
        assert forall e :: e in EventsOf(turns') ==> e in EventsOf(turns);
      }
      RunStaysStalled(first, front, turns', f);
      PlayedBooks(first, turns');
      RunKeepsBooks(EventsOf(turns'), f);
      TurnKeepsStalled(Played(first, turns'), turns[|turns| - 1], |Played(first, front).books.batches|, f);
    }
  }

  lemma BatchesGrow(l: Ledger, t: Turn)
    ensures |l.books.batches| <= |Turned(l, t).books.batches|
    ensures Executed(l, t).Some? ==> Executed(l, t).value < |l.books.batches|
  {
  }

  lemma {:induction false} PositionsGrow(first: nat, turns: seq<Turn>, m: nat)
    requires |Played(first, turns).books.batches| <= m
    ensures OnlyBefore(first, turns, m)
  {
    if turns == [] {
    } else {
      BatchesGrow(Played(first, turns[..|turns| - 1]), turns[|turns| - 1]);
      PositionsGrow(first, turns[..|turns| - 1], m);
    }
  }

  /** After one batch ran out of its time for signatures, was not delivered or had its task panic, no batch of the
      network announced later is ever executed. */
  lemma LossStalls(first: nat, front: seq<Turn>, turns: seq<Turn>)
    requires front <= turns && Fair(EventsOf(turns)) && AllAllowed(first, turns)
    requires exists a :: a in Played(first, front).books.batches && LOST(a)
    ensures OnlyBefore(first, turns, |Played(first, front).books.batches|)
  {
    var l := Played(first, front);
    var m := |l.books.batches|;
    PlayedBooks(first, front);
    assert l.books.batches[..m] == l.books.batches;
    CountZeroIff(l.books.batches, LOST);
    PositionsGrow(first, front, m);
    RunStaysStalled(first, front, turns, EncodedFeedId(0, 0));
  }

  /** When nothing is waiting, the next batch gets the nonce the Safe executes next exactly if nothing was lost. */
  lemma NextIsExecutableIff(first: nat, turns: seq<Turn>)
    requires Fair(EventsOf(turns)) && forall a :: a in Played(first, turns).books.batches ==> !WAITING(a)
    ensures var l := Played(first, turns);
            l.safe + l.books.inProgress == l.safe <==> forall a :: a in l.books.batches ==> !LOST(a)
  {
    PlayedBooks(first, turns);
    CounterCountsWaitingIff(EventsOf(turns));
    CountZeroIff(Played(first, turns).books.batches, WAITING);
  }

  //
  // What a reused ring slot takes
  //

  /** The run in which an older batch is rolled back and a newer one then posted. */
  function ReusingTurns(older: Batch, newer: Batch, executed: bool): seq<Turn> {
    [Turn(Announced(older, true), false)] + [Turn(Announced(newer, true), false)]
    + [Turn(Ended(older.blockHeight, Rejected), executed)] + [Turn(Ended(newer.blockHeight, Receipt(true)), true)]
  }

  lemma PlayedSnoc(first: nat, turns: seq<Turn>, t: Turn)
    ensures Played(first, turns + [t]) == Turned(Played(first, turns), t)
    ensures AllAllowed(first, turns + [t]) <==> AllAllowed(first, turns) && Allowed(Played(first, turns), t)
    ensures EventsOf(turns + [t]) == EventsOf(turns) + [t.event]
  {
    assert (turns + [t])[..|turns|] == turns;
  }

  lemma TwoPlayed(first: nat, older: Batch, newer: Batch)
    requires older.blockHeight != newer.blockHeight
    ensures var turns := [Turn(Announced(older, true), false)] + [Turn(Announced(newer, true), false)];
            var l := Played(first, turns);
            && AllAllowed(first, turns) && l.safe == first && l.nonces == [first, first + 1]
            && |l.books.batches| == 2 && l.books.batches[0].batch == older && l.books.batches[1].batch == newer
            && l.books.batches[0].status.Waiting? && l.books.batches[1].status.Waiting?
  {
    var one := [Turn(Announced(older, true), false)];
    assert one == [] + one;
    PlayedSnoc(first, [], Turn(Announced(older, true), false));
    PlayedSnoc(first, one, Turn(Announced(newer, true), false));
  }

  /** The Safe lets the newer batch through exactly if the older one, rolled back after its receipt timed out, was
      executed all the same. */
  lemma ReuseNeedsExecution(first: nat, older: Batch, newer: Batch, executed: bool)
    requires older.blockHeight != newer.blockHeight
    ensures AllAllowed(first, ReusingTurns(older, newer, executed)) <==> executed
  {
    var two := [Turn(Announced(older, true), false)] + [Turn(Announced(newer, true), false)];
    var third, fourth := Turn(Ended(older.blockHeight, Rejected), executed), Turn(Ended(newer.blockHeight, Receipt(true)), true);
    TwoPlayed(first, older, newer);
    TwoWaiting(Played(first, two).books, older, newer);
    PlayedSnoc(first, two, third);
    PlayedSnoc(first, two + [third], fourth);
  }
}
