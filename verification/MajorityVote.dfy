/** Majority vote over text and byte values, and the length-prefixed frame byte results are put in. */
module MajorityVote {
  import opened Arithmetic
  import opened Bytes
  import opened Wrappers
  import opened FeedTypes
  import opened Aggregation

  type Tally = map<seq<byte>, nat>

  /** How often a value occurs. */
  function Votes(values: seq<FeedType>, v: FeedType): nat {
    if values == [] then 0 else Votes(values[..|values| - 1], v) + if values[|values| - 1] == v then 1 else 0
  }

  /** `winner` occurs, and nothing `kind` makes occurs more often. */
  ghost predicate Wins(values: seq<FeedType>, winner: seq<byte>, kind: seq<byte> -> FeedType) {
    Votes(values, kind(winner)) > 0 && forall b :: Votes(values, kind(b)) <= Votes(values, kind(winner))
  }

  const TEXT: seq<byte> -> FeedType := b => Text(b)

  const BINARY: seq<byte> -> FeedType := b => Binary(b)

  predicate AnyText(values: seq<FeedType>) { exists i :: 0 <= i < |values| && values[i].Text? }

  predicate AnyBytes(values: seq<FeedType>) { exists i :: 0 <= i < |values| && values[i].Binary? }

  //
  // The frame
  //

  const PREFIX_SIZE: nat := 2

  /** Copies the end of `src` over the end of `dst`, as far as both reach. */
  function RightAlignTruncate(dst: seq<byte>, src: seq<byte>): seq<byte> {
    var n := if |dst| < |src| then |dst| else |src|;
    dst[..|dst| - n] + src[|src| - n..]
  }

  function ZeroBytes(n: nat): (bs: seq<byte>)
    ensures |bs| == n && forall i :: 0 <= i < n ==> bs[i] == 0
  {
    seq(n, _ => 0)
  }

  /** `Vec::resize` with zeros. */
  function Resize(bs: seq<byte>, n: nat): seq<byte> {
    if |bs| <= n then bs + ZeroBytes(n - |bs|) else bs[..n]
  }

  function DivCeil(a: nat, b: nat): nat
    requires b > 0
  {
    (a + b - 1) / b
  }

  /** Two bytes of total length, the payload, and zeros up to a whole number of 64-byte slots. */
  function Frame(payload: seq<byte>): seq<byte> {
    var prefix := RightAlignTruncate(ZeroBytes(PREFIX_SIZE), ToBE(|payload| + PREFIX_SIZE, 8));
    Resize(prefix + payload, DivCeil(PREFIX_SIZE + |payload| - 2, 64) * 64 + 2)
  }

  /** `right_align_truncate` on a buffer. */
  method AlignRight(dst: array<byte>, src: seq<byte>)
    modifies dst
    ensures dst[..] == RightAlignTruncate(old(dst[..]), src)
  {
    var n := if dst.Length < |src| then dst.Length else |src|;
    var d, s := dst.Length - n, |src| - n;
    forall i | d <= i < dst.Length {
      dst[i] := src[s + (i - d)];
    }
  }

  method BuildFrame(payload: seq<byte>) returns (result: seq<byte>)
    ensures result == Frame(payload)
  {
    var prefix := new byte[PREFIX_SIZE](_ => 0);
    assert prefix[..] == ZeroBytes(PREFIX_SIZE);
    AlignRight(prefix, ToBE(|payload| + PREFIX_SIZE, 8));
    result := prefix[..] + payload;
    result := Resize(result, DivCeil(|result| - 2, 64) * 64 + 2);
  }

  /** Reads the payload back off the length prefix. */
  function Unframe(frame: seq<byte>): Option<seq<byte>> {
    if |frame| < PREFIX_SIZE then None
    else
      var length := FromBE(frame[..PREFIX_SIZE]);
      if PREFIX_SIZE <= length <= |frame| then Some(frame[PREFIX_SIZE..length]) else None
  }

  lemma PaddedLength(n: nat)
    ensures var target := DivCeil(n, 64) * 64 + 2;
            n + 2 <= target < n + 2 + 64
  {
    var q, r := DivModParts(n + 63, 64);
  }

  lemma PrefixBytes(n: nat)
    ensures RightAlignTruncate(ZeroBytes(PREFIX_SIZE), ToBE(n, 8)) == ToBE(n % 65536, 2)
  {
    LowTwoBytes(n);
    assert RightAlignTruncate(ZeroBytes(PREFIX_SIZE), ToBE(n, 8)) == ToBE(n, 8)[6..];
  }

  lemma LowTwoBytes(n: nat)
    ensures ToBE(n, 8)[6..] == ToBE(n % 65536, 2)
  {
    ModTwice(n, 256, 256);
    var q, r := DivModParts(n, 256);
    var q2, r2 := DivModParts(q, 256);
    assert n % 65536 == r2 * 256 + r;
    DivModUnique(n % 65536, 256, r2, r);
    assert ToBE(n % 65536, 2) == [r2, r] by {
      assert ToBE(r2, 1) == [r2 % 256] && r2 % 256 == r2;
    }
    assert ToBE(n, 8) == ToBE(q2, 6) + [r2] + [r];
  }

  /** The frame has the least length that holds prefix and payload and leaves 2 modulo 64; its prefix is
      the length of prefix and payload in 16 bits, then comes the payload, and the rest is zero. */
  lemma FrameLayout(payload: seq<byte>)
    ensures var frame, n := Frame(payload), |payload|;
            && n + 2 <= |frame| < n + 2 + 64 && |frame| % 64 == 2
            && FromBE(frame[..2]) == (n + 2) % 65536
            && frame[2..n + 2] == payload
            && forall i :: n + 2 <= i < |frame| ==> frame[i] == 0
  {
    var n := |payload|;
    PaddedLength(n);
    PrefixBytes(n + 2);
    FromToBESmall((n + 2) % 65536, 2);
    assert Pow(256, 2) == 65536;
    var target := DivCeil(n, 64) * 64 + 2;
    DivModUnique(target, 64, DivCeil(n, 64), 2);
    var prefix := ToBE((n + 2) % 65536, 2);
    var frame := prefix + payload + ZeroBytes(target - (n + 2));
    assert Frame(payload) == frame;
    assert frame[..2] == prefix && frame[2..n + 2] == payload;
  }

  /** The payload can be read back exactly when its length with the prefix fits 16 bits. */
  lemma UnframeFrameIff(payload: seq<byte>)
    ensures Unframe(Frame(payload)) == Some(payload) <==> |payload| + 2 < 65536
  {
    FrameLayout(payload);
    ModKeepsSmall(|payload| + 2, 65536);
  }

  //
  // Counting
  //

  function Count(tally: Tally, b: seq<byte>): nat {
    if b in tally then tally[b] else 0
  }

  /** The tally holds exactly the values of one kind that occur, with how often they do. */
  ghost predicate Counted(tally: Tally, values: seq<FeedType>, kind: seq<byte> -> FeedType) {
    forall b :: Count(tally, b) == Votes(values, kind(b)) && (b in tally <==> Votes(values, kind(b)) > 0)
  }

  function Add(tally: Tally, b: seq<byte>): Tally {
    tally[b := Count(tally, b) + 1]
  }

  /** Visits the entries in an arbitrary order and keeps the last one with the largest count. */
  method MaxByCount(tally: Tally) returns (winner: seq<byte>)
    requires tally != map[]
    ensures winner in tally && forall b :: b in tally ==> tally[b] <= tally[winner]
  {
    var first :| first in tally;
    winner := first;
    var left := tally.Keys - {first};
    while left != {}
      invariant left <= tally.Keys && winner in tally && winner !in left
      invariant forall b :: b in tally && b !in left ==> tally[b] <= tally[winner]
    {
      var b :| b in left;
      left := left - {b};
      if tally[b] >= tally[winner] {
        winner := b;
      }
    }
  }

  lemma VotesSnoc(values: seq<FeedType>, i: nat, v: FeedType)
    requires i < |values|
    ensures Votes(values[..i + 1], v) == Votes(values[..i], v) + if values[i] == v then 1 else 0
  {
    assert values[..i + 1][..i] == values[..i];
  }

  lemma CountedStep(texts: Tally, blobs: Tally, values: seq<FeedType>, i: nat)
    requires i < |values| && Counted(texts, values[..i], TEXT) && Counted(blobs, values[..i], BINARY)
    ensures Counted(if values[i].Text? then Add(texts, values[i].utf8) else texts, values[..i + 1], TEXT)
    ensures Counted(if values[i].Binary? then Add(blobs, values[i].bytes) else blobs, values[..i + 1], BINARY)
  {
    forall b ensures Votes(values[..i + 1], TEXT(b)) == Votes(values[..i], TEXT(b)) + if values[i] == TEXT(b) then 1 else 0 {
      VotesSnoc(values, i, TEXT(b));
    }
    forall b ensures Votes(values[..i + 1], BINARY(b)) == Votes(values[..i], BINARY(b)) + if values[i] == BINARY(b) then 1 else 0 {
      VotesSnoc(values, i, BINARY(b));
    }
  }

  lemma {:induction false} VotesOccur(values: seq<FeedType>, v: FeedType)
    ensures Votes(values, v) > 0 <==> exists i :: 0 <= i < |values| && values[i] == v
  {
    if values == [] {
    } else {
      VotesOccur(values[..|values| - 1], v);
    }
  }

  lemma {:induction false} VotesTogether(values: seq<FeedType>, v: FeedType, w: FeedType)
    requires v != w
    ensures Votes(values, v) + Votes(values, w) <= |values|
  {
    if values == [] {
    } else {
      VotesTogether(values[..|values| - 1], v, w);
    }
  }

  lemma TallyWinner(tally: Tally, values: seq<FeedType>, kind: seq<byte> -> FeedType, winner: seq<byte>)
    requires Counted(tally, values, kind) && winner in tally && forall b :: b in tally ==> tally[b] <= tally[winner]
    ensures Wins(values, winner, kind)
  {
    forall b ensures Votes(values, kind(b)) <= Votes(values, kind(winner)) {
      assert Count(tally, b) == Votes(values, kind(b));
    }
  }

  lemma TallyEmptyIff(texts: Tally, blobs: Tally, values: seq<FeedType>)
    requires Counted(texts, values, TEXT) && Counted(blobs, values, BINARY)
    ensures texts != map[] <==> AnyText(values)
    ensures blobs != map[] <==> AnyBytes(values)
  {
    if texts != map[] {
      var b :| b in texts;
      VotesOccur(values, TEXT(b));
    }
    if AnyText(values) {
      var i :| 0 <= i < |values| && values[i].Text?;
      VotesOccur(values, TEXT(values[i].utf8));
    }
    if blobs != map[] {
      var b :| b in blobs;
      VotesOccur(values, BINARY(b));
    }
    if AnyBytes(values) {
      var i :| 0 <= i < |values| && values[i].Binary?;
      VotesOccur(values, BINARY(values[i].bytes));
    }
  }

  /** The majority vote; a result of bytes is framed. */
  method Vote(values: seq<FeedType>) returns (r: Result<FeedType, AggregateError>, ghost winner: seq<byte>)
    ensures AnyText(values) && AnyBytes(values) ==> r == Err(MixedTypes)
    ensures !AnyText(values) && !AnyBytes(values) ==> r == Err(NoValidTypes)
    ensures AnyText(values) && !AnyBytes(values) ==> r == Ok(Text(winner)) && Wins(values, winner, TEXT)
    ensures !AnyText(values) && AnyBytes(values) ==> r == Ok(Binary(Frame(winner))) && Wins(values, winner, BINARY)
  {
    var texts: Tally, blobs: Tally := map[], map[];
    for i := 0 to |values|
      invariant Counted(texts, values[..i], TEXT) && Counted(blobs, values[..i], BINARY)
    {
      CountedStep(texts, blobs, values, i);
      match values[i] {
        case Text(t) => texts := Add(texts, t);
        case Binary(b) => blobs := Add(blobs, b);
        case Numerical(_, _) =>
      }
    }
    assert values[..|values|] == values;
    TallyEmptyIff(texts, blobs, values);
    winner := [];
    if texts != map[] {
      if blobs != map[] {
        return Err(MixedTypes), winner;
      }
      var text := MaxByCount(texts);
      TallyWinner(texts, values, TEXT, text);
      r, winner := Ok(Text(text)), text;
    } else if blobs != map[] {
      var blob := MaxByCount(blobs);
      TallyWinner(blobs, values, BINARY, blob);
      var framed := BuildFrame(blob);
      r, winner := Ok(Binary(framed)), blob;
    } else {
      r := Err(NoValidTypes);
    }
  }

  /** A value more than half of the votes agree on is the only possible winner. */
  lemma StrictMajorityWins(values: seq<FeedType>, kind: seq<byte> -> FeedType, winner: seq<byte>, b: seq<byte>)
    requires Wins(values, winner, kind) && 2 * Votes(values, kind(b)) > |values|
    ensures kind(winner) == kind(b)
  {
    if kind(winner) != kind(b) {
      VotesTogether(values, kind(winner), kind(b));
    }
  }

  //
  // From reports to votes
  //

  /** The reporters that sent exactly this value. */
  function ReportersOf(reports: Reports, among: set<nat>, v: FeedType): set<nat> {
    set k | k in among && k in reports && reports[k] == Some(v)
  }

  /** However the reports are visited, a value has as many votes as reporters sent it. */
  lemma {:induction false} CollectedVotes(order: seq<nat>, expected: FeedType, reports: Reports, v: FeedType)
    requires SameEnumType(v, expected) && (forall k :: k in order ==> k in reports)
    requires forall i, j :: 0 <= i < j < |order| ==> order[i] != order[j]
    ensures Votes(Gather(order, expected, reports), v) == |ReportersOf(reports, Visited(order), v)|
  {
    if order == [] {
    } else {
      var front, k := order[..|order| - 1], order[|order| - 1];
      CollectedVotes(front, expected, reports, v);
      VisitedSnoc(order);
      if reports[k] == Some(v) {
        assert ReportersOf(reports, Visited(front) + {k}, v) == ReportersOf(reports, Visited(front), v) + {k};
      } else {
        assert ReportersOf(reports, Visited(front) + {k}, v) == ReportersOf(reports, Visited(front), v);
      }
      GatherSnocVotes(order, expected, reports, v);
    }
  }

  lemma GatherSnocVotes(order: seq<nat>, expected: FeedType, reports: Reports, v: FeedType)
    requires SameEnumType(v, expected) && order != [] && (forall k :: k in order ==> k in reports)
    ensures Votes(Gather(order, expected, reports), v) ==
            Votes(Gather(order[..|order| - 1], expected, reports), v) + if reports[order[|order| - 1]] == Some(v) then 1 else 0
  {
    var front, k := Gather(order[..|order| - 1], expected, reports), order[|order| - 1];
    if Counts(expected, reports[k]) {
      assert (front + [reports[k].value])[..|front|] == front;
    } else {
      assert front + [] == front;
    }
  }
}
