/** Posting a batch that has its signatures: bounded retries, and the books kept on every way out. */
module TxSender {
  import opened Wrappers
  import opened AdfsLayout
  import opened AdfsCalldata
  import opened AdfsStore

  /** A remote call runs into its timeout, fails, or returns. */
  datatype Call<+T> = TimedOut | Failed | Returned(value: T)

  /** What the network answers in one round of the transaction loop. */
  datatype Round = Round(
    safeNonce: Call<nat>,
    retryParams: Option<nat>,
    send: Call<()>,
    receipt: Call<()>)

  /** Everything the task depends on: retry limit, the nonce the signatures were made for, whether the
      network is configured, whether an impersonated account parses, and the network's answers. */
  datatype Environment = Environment(
    limit: nat,
    safeTxNonce: nat,
    configured: bool,
    impersonated: Option<bool>,
    nonces: nat -> Option<nat>,
    rounds: nat -> Round)

  datatype Exit =
    | NoNonce
    | GaveUp
    | NotConfigured
    | Rejected
    | Receipt(ok: bool)
    | Panicked
  {
    /** The ways out that roll the batch back. */
    predicate RollsBack() { NoNonce? || GaveUp? || NotConfigured? || Rejected? }
  }

  //
  // The provider's books
  //

  class Provider {
    var rbIndices: RoundBufferIndices
    var numTxInProgress: nat

    constructor (rbIndices: RoundBufferIndices)
      ensures this.rbIndices == rbIndices && numTxInProgress == 0
    {
      this.rbIndices, numTxInProgress := rbIndices, 0;
    }

    method DecNumTxInProgress()
      modifies this`numTxInProgress
      ensures numTxInProgress == Decreased(old(numTxInProgress))
    {
      if numTxInProgress != 0 {
        numTxInProgress := numTxInProgress - 1;
      }
    }

    method IncrementFeedsRbIndices(feeds: seq<EncodedFeedId>)
      modifies this`rbIndices
      ensures rbIndices == Incremented(old(rbIndices), feeds)
    {
      for i := 0 to |feeds|
        invariant rbIndices == Incremented(old(rbIndices), feeds[..i])
      {
        assert feeds[..i + 1][..i] == feeds[..i];
        var index := if feeds[i] in rbIndices then rbIndices[feeds[i]] else 0;
        rbIndices := rbIndices[feeds[i] := index + 1];
      }
      assert feeds[..|feeds|] == feeds;
    }

    method DecrementFeedRbIndices(feeds: seq<EncodedFeedId>)
      modifies this`rbIndices
      ensures rbIndices == Decremented(old(rbIndices), feeds)
    {
      for i := 0 to |feeds|
        invariant rbIndices == Decremented(old(rbIndices), feeds[..i])
      {
        assert feeds[..i + 1][..i] == feeds[..i];
        var index := if feeds[i] in rbIndices then rbIndices[feeds[i]] else 0;
        if index > 0 {
          index := index - 1;
        }
        rbIndices := rbIndices[feeds[i] := index];
      }
      assert feeds[..|feeds|] == feeds;
    }

    method FailedTx(feeds: seq<EncodedFeedId>)
      modifies this
      ensures rbIndices == Decremented(old(rbIndices), feeds)
      ensures numTxInProgress == Decreased(old(numTxInProgress))
    {
      DecrementFeedRbIndices(feeds);
      DecNumTxInProgress();
    }
  }

  function Decreased(n: nat): nat { if n == 0 then 0 else n - 1 }

  //
  // What each round decides
  //

  datatype Verdict = Retry | Stop(exit: Exit)

  function JudgeSend(r: Round): Verdict {
    match r.send
    case TimedOut => Retry
    case Failed => Stop(Rejected)
    case Returned(_) =>
      match r.receipt
      case TimedOut => Retry
      case Failed => Stop(Receipt(false))
      case Returned(_) => Stop(Receipt(true))
  }

  /** The nonce of the safe has to match; a repeated attempt also needs the configured account and new fees. */
  function Judge(env: Environment, k: nat): Verdict {
    var r := env.rounds(k);
    if r.safeNonce != Returned(env.safeTxNonce) then Retry
    else if k == 0 then JudgeSend(r)
    else if !env.configured then Stop(NotConfigured)
    else if env.impersonated == Some(false) then Stop(Panicked)
    else if r.retryParams.None? then Retry
    else JudgeSend(r)
  }

  /** Round `k` is the first that is not retried, and the limit allows it. */
  predicate Decides(env: Environment, k: nat) {
    k <= env.limit && Judge(env, k).Stop? && forall j :: 0 <= j < k ==> Judge(env, j).Retry?
  }

  predicate GetsNonce(env: Environment, k: nat) {
    k <= env.limit && env.nonces(k).Some? && forall j :: 0 <= j < k ==> env.nonces(j).None?
  }

  /** How the task ends. */
  ghost predicate EndsWith(env: Environment, exit: Exit) {
    if forall j :: 0 <= j <= env.limit ==> env.nonces(j).None? then exit == NoNonce
    else if forall j :: 0 <= j <= env.limit ==> Judge(env, j).Retry? then exit == GaveUp
    else exists k :: Decides(env, k) && Judge(env, k) == Stop(exit)
  }

  //
  // The task
  //

  method GetNonce(env: Environment) returns (nonce: Option<nat>, rounds: nat)
    ensures rounds <= env.limit + 1
    ensures nonce.None? <==> forall j :: 0 <= j <= env.limit ==> env.nonces(j).None?
    ensures nonce.Some? ==> rounds > 0 && GetsNonce(env, rounds - 1) && nonce == env.nonces(rounds - 1)
  {
    var nonceGetRetriesCount := 0;
    rounds := 0;
    while true
      invariant rounds == nonceGetRetriesCount <= env.limit + 1
      invariant forall j :: 0 <= j < rounds ==> env.nonces(j).None?
      decreases env.limit + 1 - nonceGetRetriesCount
    {
      if nonceGetRetriesCount > env.limit {
        return None, rounds;
      }
      nonce := env.nonces(rounds);
      rounds := rounds + 1;
      if nonce.Some? {
        return;
      }
      nonceGetRetriesCount := nonceGetRetriesCount + 1;
    }
  }

  method PostTransaction(env: Environment) returns (exit: Exit, rounds: nat)
    ensures rounds <= env.limit + 1
    ensures exit == GaveUp <==> forall j :: 0 <= j <= env.limit ==> Judge(env, j).Retry?
    ensures exit == GaveUp ==> rounds == env.limit + 1
    ensures exit != GaveUp ==> rounds > 0 && Decides(env, rounds - 1) && Judge(env, rounds - 1) == Stop(exit)
    ensures exit != NoNonce
  {
    var transactionRetriesCount := 0;
    rounds := 0;
    while true
      invariant rounds == transactionRetriesCount <= env.limit + 1
      invariant forall j :: 0 <= j < rounds ==> Judge(env, j).Retry?
      decreases env.limit + 1 - transactionRetriesCount
    {
      if transactionRetriesCount > env.limit {
        return GaveUp, rounds;
      }
      var round := env.rounds(rounds);
      rounds := rounds + 1;
      if !round.safeNonce.Returned? {
        transactionRetriesCount := transactionRetriesCount + 1;
        continue;
      }
      if round.safeNonce.value != env.safeTxNonce {
        transactionRetriesCount := transactionRetriesCount + 1;
        continue;
      }
      if transactionRetriesCount != 0 {
        if !env.configured {
          assert Judge(env, transactionRetriesCount) == Stop(NotConfigured);
          return NotConfigured, rounds;
        }
        if env.impersonated == Some(false) {
          assert Judge(env, transactionRetriesCount) == Stop(Panicked);
          return Panicked, rounds;
        }
        if round.retryParams.None? {
          transactionRetriesCount := transactionRetriesCount + 1;
          continue;
        }
      }
      if round.send.TimedOut? {
        transactionRetriesCount := transactionRetriesCount + 1;
        continue;
      }
      if round.send.Failed? {
        assert Judge(env, transactionRetriesCount) == Stop(Rejected);
        return Rejected, rounds;
      }
      if round.receipt.TimedOut? {
        transactionRetriesCount := transactionRetriesCount + 1;
        continue;
      }
      assert Judge(env, transactionRetriesCount) == Stop(Receipt(round.receipt.Returned?));
      return Receipt(round.receipt.Returned?), rounds;
    }
  }

  /** The whole task. Each loop takes at most one round more than the limit; every exit but a panic takes
      the transaction off the in-progress counter once; the ring indices are rolled back once exactly on
      the exits that do not reach a receipt. */
  method SendSafeTransaction(provider: Provider, env: Environment, feeds: seq<EncodedFeedId>)
    returns (exit: Exit, nonceRounds: nat, txRounds: nat)
    modifies provider
    ensures EndsWith(env, exit)
    ensures nonceRounds <= env.limit + 1 && txRounds <= env.limit + 1
    ensures provider.numTxInProgress ==
            if exit == Panicked then old(provider.numTxInProgress) else Decreased(old(provider.numTxInProgress))
    ensures provider.rbIndices ==
            if exit.RollsBack() then Decremented(old(provider.rbIndices), feeds) else old(provider.rbIndices)
  {
    var nonce: Option<nat>;
    nonce, nonceRounds := GetNonce(env);
    txRounds := 0;
    if nonce.None? {
      provider.FailedTx(feeds);
      return NoNonce, nonceRounds, txRounds;
    }
    exit, txRounds := PostTransaction(env);
    match exit {
      case GaveUp => provider.FailedTx(feeds);
      case NotConfigured => provider.FailedTx(feeds);
      case Rejected => provider.FailedTx(feeds);
      case Receipt(_) => provider.DecNumTxInProgress();
      case Panicked =>
      case NoNonce =>
    }
  }

  //
  // Properties of the outcome
  //

  /** Every environment leads to exactly one exit. */
  lemma ExitIsDetermined(env: Environment, a: Exit, b: Exit)
    requires EndsWith(env, a) && EndsWith(env, b)
    ensures a == b
  {
    if (exists j :: 0 <= j <= env.limit && env.nonces(j).Some?) && exists j :: 0 <= j <= env.limit && Judge(env, j).Stop? {
      var i :| Decides(env, i) && Judge(env, i) == Stop(a);
      var j :| Decides(env, j) && Judge(env, j) == Stop(b);
      assert i == j;
    }
  }

  /** The task ends with a receipt exactly when some allowed round gets its transaction through before
      any other round ends the task. */
  lemma ReceiptIff(env: Environment, exit: Exit)
    requires EndsWith(env, exit)
    ensures exit.Receipt? <==>
            && (exists j :: GetsNonce(env, j))
            && exists k :: Decides(env, k) && Judge(env, k).exit.Receipt?
  {
    if exists j :: 0 <= j <= env.limit && env.nonces(j).Some? {
      var j :| 0 <= j <= env.limit && env.nonces(j).Some?;
      var first := FirstNonce(env, j);
      if k :| Decides(env, k) && Judge(env, k).exit.Receipt? {
        assert Judge(env, k).Stop?;
        var i :| Decides(env, i) && Judge(env, i) == Stop(exit);
        assert i == k;
      }
    }
  }

  lemma {:induction false} FirstNonce(env: Environment, k: nat) returns (first: nat)
    requires k <= env.limit && env.nonces(k).Some?
    ensures GetsNonce(env, first)
  {
    first := 0;
    while env.nonces(first).None?
      invariant first <= k && forall j :: 0 <= j < first ==> env.nonces(j).None?
      decreases k - first
    {
      first := first + 1;
    }
  }

  /** In round `k` the network took the transaction. */
  predicate Posted(env: Environment, k: nat) {
    var r := env.rounds(k);
    && r.safeNonce == Returned(env.safeTxNonce)
    && (k > 0 ==> env.configured && env.impersonated != Some(false) && r.retryParams.Some?)
    && r.send.Returned?
  }

  /** What is needed ahead of sending: the nonce the signatures were made for is the one the safe expects, and a
      repeated attempt has a configured network, an account that parses and new fees. */
  predicate Ready(env: Environment, k: nat) {
    var r := env.rounds(k);
    && r.safeNonce == Returned(env.safeTxNonce)
    && (k > 0 ==> env.configured && env.impersonated != Some(false) && r.retryParams.Some?)
  }

  /** Round by round, what each outcome takes; everything else is retried. */
  lemma OutcomeIff(env: Environment, k: nat)
    ensures var r, verdict := env.rounds(k), Judge(env, k);
            && (verdict == Stop(Receipt(true)) <==> Ready(env, k) && r.send.Returned? && r.receipt.Returned?)
            && (verdict == Stop(Receipt(false)) <==> Ready(env, k) && r.send.Returned? && r.receipt.Failed?)
            && (verdict == Stop(Rejected) <==> Ready(env, k) && r.send.Failed?)
            && (verdict == Stop(NotConfigured) <==> k > 0 && r.safeNonce == Returned(env.safeTxNonce) && !env.configured)
            && (verdict == Stop(Panicked) <==>
                k > 0 && r.safeNonce == Returned(env.safeTxNonce) && env.configured && env.impersonated == Some(false))
            && verdict != Stop(NoNonce) && verdict != Stop(GaveUp)
  {
  }

  /** The task ends with a receipt of success exactly if it gets a nonce and some allowed round is ready, is sent and
      gets its receipt, after rounds that were not ready to send, or ran into a timeout. */
  lemma SuccessIff(env: Environment, exit: Exit)
    requires EndsWith(env, exit) && !exit.NoNonce?
    ensures exit == Receipt(true) <==>
            exists k: nat :: k <= env.limit && Succeeds(env, k) && RepeatsUntil(env, k)
  {
    if exit == Receipt(true) {
      var k: nat :| Decides(env, k) && Judge(env, k) == Stop(exit);
      OutcomeIff(env, k);
      forall j: nat | j < k ensures Repeats(env, j) {
        RepeatsIff(env, j);
      }
      assert Succeeds(env, k);
    }
    if k: nat :| k <= env.limit && Succeeds(env, k) && RepeatsUntil(env, k) {
      OutcomeIff(env, k);
      forall j: nat | j < k ensures Judge(env, j).Retry? {
        RepeatsIff(env, j);
      }
      assert Decides(env, k);
      ExitOfDecider(env, exit, k);
    }
  }

  predicate Succeeds(env: Environment, k: nat) {
    Ready(env, k) && env.rounds(k).send.Returned? && env.rounds(k).receipt.Returned?
  }

  /** Another nonce in the safe, no answer about it, no fees for a repeated attempt, or a timeout. */
  predicate Repeats(env: Environment, k: nat) {
    var r := env.rounds(k);
    || r.safeNonce != Returned(env.safeTxNonce)
    || (k > 0 && env.configured && env.impersonated != Some(false) && r.retryParams.None?)
    || (Ready(env, k) && (r.send.TimedOut? || (r.send.Returned? && r.receipt.TimedOut?)))
  }

  predicate RepeatsUntil(env: Environment, k: nat) {
    forall j: nat :: j < k ==> Repeats(env, j)
  }

  lemma RepeatsIff(env: Environment, k: nat)
    ensures Judge(env, k).Retry? <==> Repeats(env, k)
  {
  }

  /** A posted round ends the task with a receipt unless its receipt times out; only then is it retried,
      and only then can a batch that was posted still be rolled back. */
  lemma PostedRound(env: Environment, k: nat)
    requires Posted(env, k)
    ensures Judge(env, k).Retry? <==> env.rounds(k).receipt.TimedOut?
    ensures Judge(env, k).Stop? ==> Judge(env, k).exit.Receipt?
  {
  }

  lemma ExitOfDecider(env: Environment, exit: Exit, k: nat)
    requires EndsWith(env, exit) && !exit.NoNonce? && Decides(env, k)
    ensures Judge(env, k) == Stop(exit)
  {
    var i :| Decides(env, i) && Judge(env, i) == Stop(exit);
    assert i == k;
  }

  /** A task that rolls back has posted nothing in any round it took, unless a receipt timed out there. */
  lemma RollbackMeansNotPosted(env: Environment, exit: Exit, k: nat)
    requires EndsWith(env, exit) && exit.RollsBack() && !exit.NoNonce?
    requires k <= env.limit && forall j :: 0 <= j < k ==> Judge(env, j).Retry?
    ensures Posted(env, k) ==> env.rounds(k).receipt.TimedOut?
  {
    if Posted(env, k) {
      PostedRound(env, k);
    }
    if Judge(env, k).Stop? {
      ExitOfDecider(env, exit, k);
    }
  }

  /** A task can roll back a batch whose transaction the network took. */
  lemma RollbackOfPostedBatch()
    ensures var env := Environment(0, 7, true, None, (_: nat) => Some(1),
                                   (_: nat) => Round(Returned(7), None, Returned(()), TimedOut));
            EndsWith(env, GaveUp) && Posted(env, 0)
  {
    var env := Environment(0, 7, true, None, (_: nat) => Some(1),
                           (_: nat) => Round(Returned(7), None, Returned(()), TimedOut));
    assert env.nonces(0).Some?;
    assert Judge(env, 0).Retry?;
  }
}
