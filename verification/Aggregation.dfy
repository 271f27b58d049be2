/** Collecting the reports of a slot and aggregating them by median or by majority vote. */
module Aggregation {
  import opened Wrappers
  import opened FeedTypes
  import opened Sets

  /** What each reporter sent for the slot; None stands for a reported error. */
  type Reports = map<nat, Option<FeedType>>

  datatype AggregateError = NothingToAggregate | MixedTypes | NoValidTypes

  predicate SameEnumType(a: FeedType, b: FeedType) {
    (a.Numerical? <==> b.Numerical?) && (a.Text? <==> b.Text?)
  }

  //
  // Collecting
  //

  predicate Counts(expected: FeedType, report: Option<FeedType>) {
    report.Some? && SameEnumType(report.value, expected)
  }

  /** The values found when the reports are visited in the given order. */
  function Gather(order: seq<nat>, expected: FeedType, reports: Reports): seq<FeedType>
    requires forall k :: k in order ==> k in reports
  {
    if order == [] then []
    else
      var k := order[|order| - 1];
      Gather(order[..|order| - 1], expected, reports) + if Counts(expected, reports[k]) then [reports[k].value] else []
  }

  /** Visits the reports in an arbitrary order. */
  method CollectReportedValues(expected: FeedType, reports: Reports) returns (values: seq<FeedType>)
    ensures exists order :: Enumerates(order, reports.Keys) && values == Gather(order, expected, reports)
  {
    values := [];
    ghost var order := [];
    var left := reports.Keys;
    while left != {}
      invariant left <= reports.Keys && Enumerates(order, reports.Keys - left)
      invariant values == Gather(order, expected, reports)
    {
      var k :| k in left;
      left := left - {k};
      assert (order + [k])[..|order|] == order;
      if reports[k].Some? && SameEnumType(reports[k].value, expected) {
        values := values + [reports[k].value];
      }
      order := order + [k];
    }
  }

  //
  // Median
  //

  function Numbers(values: seq<FeedType>): seq<real> {
    if values == [] then []
    else Numbers(values[..|values| - 1]) +
         match values[|values| - 1] case Numerical(x, _) => [x] case _ => []
  }

  /** The numbers of two lists are those of both, and only numbers count. */
  lemma {:induction false} NumbersOf(a: seq<FeedType>, b: seq<FeedType>)
    ensures Numbers(a + b) == Numbers(a) + Numbers(b)
    ensures forall x, shown :: Numbers([Numerical(x, shown)]) == [x]
    ensures forall bytes :: Numbers([Text(bytes)]) == [] && Numbers([Binary(bytes)]) == []
  {
    if b == [] {
      assert a + b == a;
    } else {
      var front := b[..|b| - 1];
      NumbersOf(a, front);
      assert (a + b)[..|a + b| - 1] == a + front;
    }
  }

  predicate Ascending(s: seq<real>) {
    forall i, j :: 0 <= i < j < |s| ==> s[i] <= s[j]
  }

  function Insert(s: seq<real>, x: real): (r: seq<real>)
    ensures |r| == |s| + 1
  {
    if s == [] || s[|s| - 1] <= x then s + [x]
    else Insert(s[..|s| - 1], x) + [s[|s| - 1]]
  }

  function Sort(s: seq<real>): (r: seq<real>)
    ensures |r| == |s|
  {
    if s == [] then [] else Insert(Sort(s[..|s| - 1]), s[|s| - 1])
  }

  function Middle(s: seq<real>): real
    requires s != []
  {
    if |s| % 2 == 1 then s[|s| / 2] else (s[|s| / 2] + s[|s| / 2 - 1]) / 2.0
  }

  function MedianOf(values: seq<FeedType>): Result<real, AggregateError> {
    var numbers := Numbers(values);
    if numbers == [] then Err(NothingToAggregate) else Ok(Middle(Sort(numbers)))
  }

  method Median(values: seq<FeedType>) returns (r: Result<real, AggregateError>)
    ensures r == MedianOf(values)
  {
    var filtered: seq<real> := [];
    for i := 0 to |values|
      invariant filtered == Numbers(values[..i])
    {
      assert values[..i + 1][..i] == values[..i];
      match values[i] {
        case Numerical(x, _) => filtered := filtered + [x];
        case Text(_) =>
        case Binary(_) =>
      }
    }
    assert values[..|values|] == values;
    if |filtered| == 0 {
      return Err(NothingToAggregate);
    }
    var sorted := Sort(filtered);
    var middle := |sorted| / 2;
    if |sorted| % 2 == 1 {
      r := Ok(sorted[middle]);
    } else {
      r := Ok((sorted[middle] + sorted[middle - 1]) / 2.0);
    }
  }

  /** How many numbers lie in an interval. */
  function Within(s: seq<real>, lo: real, hi: real): nat {
    if s == [] then 0 else Within(s[..|s| - 1], lo, hi) + if lo <= s[|s| - 1] <= hi then 1 else 0
  }

  lemma {:induction false} InsertSorted(s: seq<real>, x: real)
    requires Ascending(s)
    ensures Ascending(Insert(s, x))
    ensures s != [] ==> Insert(s, x)[|s|] == if s[|s| - 1] <= x then x else s[|s| - 1]
  {
    if s == [] || x >= s[|s| - 1] {
    } else {
      InsertSorted(s[..|s| - 1], x);
    }
  }

  lemma {:induction false} SortSorted(s: seq<real>)
    ensures Ascending(Sort(s))
  {
    if s == [] {
    } else {
      SortSorted(s[..|s| - 1]);
      InsertSorted(Sort(s[..|s| - 1]), s[|s| - 1]);
    }
  }

  lemma WithinSnoc(s: seq<real>, x: real, lo: real, hi: real)
    ensures Within(s + [x], lo, hi) == Within(s, lo, hi) + if lo <= x <= hi then 1 else 0
  {
    assert (s + [x])[..|s|] == s;
  }

  lemma {:induction false} InsertWithin(s: seq<real>, x: real, lo: real, hi: real)
    ensures Within(Insert(s, x), lo, hi) == Within(s, lo, hi) + if lo <= x <= hi then 1 else 0
  {
    if s == [] || s[|s| - 1] <= x {
      WithinSnoc(s, x, lo, hi);
    } else {
      InsertWithin(s[..|s| - 1], x, lo, hi);
      WithinSnoc(Insert(s[..|s| - 1], x), s[|s| - 1], lo, hi);
    }
  }

  lemma {:induction false} SortWithin(s: seq<real>, lo: real, hi: real)
    ensures Within(Sort(s), lo, hi) == Within(s, lo, hi)
  {
    if s == [] {
    } else {
      SortWithin(s[..|s| - 1], lo, hi);
      InsertWithin(Sort(s[..|s| - 1]), s[|s| - 1], lo, hi);
    }
  }

  /** In an ascending sequence, a number below the interval has only smaller ones before it, and a
      number above it only larger ones after it. */
  lemma {:induction false} WithinByRank(s: seq<real>, i: nat, lo: real, hi: real)
    requires Ascending(s) && i < |s|
    ensures s[i] < lo ==> Within(s, lo, hi) <= |s| - 1 - i
    ensures s[i] > hi ==> Within(s, lo, hi) <= i
  {
    WithinAtMost(s[..|s| - 1], lo, hi);
    if i < |s| - 1 {
      WithinByRank(s[..|s| - 1], i, lo, hi);
    } else if s[i] < lo && |s| > 1 {
      WithinByRank(s[..|s| - 1], i - 1, lo, hi);
    }
  }

  lemma {:induction false} WithinAtMost(s: seq<real>, lo: real, hi: real)
    ensures Within(s, lo, hi) <= |s|
  {
    if s == [] {
    } else {
      WithinAtMost(s[..|s| - 1], lo, hi);
    }
  }

  lemma MiddleInMajority(s: seq<real>, lo: real, hi: real)
    requires Ascending(s) && 2 * Within(s, lo, hi) > |s|
    ensures s != [] && lo <= Middle(s) <= hi
  {
    WithinAtMost(s, lo, hi);
    WithinByRank(s, |s| / 2, lo, hi);
    if |s| % 2 == 0 {
      WithinByRank(s, |s| / 2 - 1, lo, hi);
    }
  }

  /** If strictly more than half of the numbers lie in an interval, so does the median. */
  lemma MedianInMajority(values: seq<FeedType>, lo: real, hi: real)
    requires 2 * Within(Numbers(values), lo, hi) > |Numbers(values)|
    ensures MedianOf(values).Ok? && lo <= MedianOf(values).value <= hi
  {
    SortSorted(Numbers(values));
    SortWithin(Numbers(values), lo, hi);
    MiddleInMajority(Sort(Numbers(values)), lo, hi);
  }

  lemma {:induction false} AllWithin(s: seq<real>, lo: real, hi: real)
    requires forall i :: 0 <= i < |s| ==> lo <= s[i] <= hi
    ensures Within(s, lo, hi) == |s|
  {
    if s == [] {
    } else {
      AllWithin(s[..|s| - 1], lo, hi);
    }
  }

  /** How many numbers are below, or at most, a value. */
  function Below(s: seq<real>, v: real): nat {
    if s == [] then 0 else Below(s[..|s| - 1], v) + if s[|s| - 1] < v then 1 else 0
  }

  function UpTo(s: seq<real>, v: real): nat {
    if s == [] then 0 else UpTo(s[..|s| - 1], v) + if s[|s| - 1] <= v then 1 else 0
  }

  /** Counting from 0 in ascending order, `v` is number `k`. */
  predicate HasRank(s: seq<real>, k: nat, v: real) {
    Below(s, v) <= k < UpTo(s, v)
  }

  lemma CountsSnoc(s: seq<real>, x: real, v: real)
    ensures Below(s + [x], v) == Below(s, v) + if x < v then 1 else 0
    ensures UpTo(s + [x], v) == UpTo(s, v) + if x <= v then 1 else 0
  {
    assert (s + [x])[..|s|] == s;
  }

  lemma {:induction false} InsertCounts(s: seq<real>, x: real, v: real)
    ensures Below(Insert(s, x), v) == Below(s, v) + if x < v then 1 else 0
    ensures UpTo(Insert(s, x), v) == UpTo(s, v) + if x <= v then 1 else 0
  {
    if s == [] || s[|s| - 1] <= x {
      CountsSnoc(s, x, v);
    } else {
      InsertCounts(s[..|s| - 1], x, v);
      CountsSnoc(Insert(s[..|s| - 1], x), s[|s| - 1], v);
    }
  }

  lemma {:induction false} SortCounts(s: seq<real>, v: real)
    ensures Below(Sort(s), v) == Below(s, v) && UpTo(Sort(s), v) == UpTo(s, v)
  {
    if s == [] {
    } else {
      SortCounts(s[..|s| - 1], v);
      InsertCounts(Sort(s[..|s| - 1]), s[|s| - 1], v);
    }
  }

  lemma {:induction false} CountsAtMost(s: seq<real>, v: real)
    ensures Below(s, v) <= UpTo(s, v) <= |s|
  {
    if s == [] {
    } else {
      CountsAtMost(s[..|s| - 1], v);
    }
  }

  /** In an ascending sequence a value at position `k` has at most `k` below it, and one above it, at least `k + 1`. */
  lemma {:induction false} RankOf(s: seq<real>, k: nat, v: real)
    requires Ascending(s) && k < |s|
    ensures s[k] < v ==> Below(s, v) >= k + 1
    ensures v < s[k] ==> UpTo(s, v) <= k
    ensures s[k] <= v ==> UpTo(s, v) >= k + 1
    ensures v <= s[k] ==> Below(s, v) <= k
  {
    var front := s[..|s| - 1];
    CountsAtMost(front, v);
    if k < |front| {
      RankOf(front, k, v);
    } else if front != [] {
      RankOf(front, k - 1, v);
    }
  }

  lemma RankIsPosition(s: seq<real>, k: nat, v: real)
    requires Ascending(s) && k < |s|
    ensures HasRank(s, k, v) <==> v == s[k]
  {
    RankOf(s, k, v);
  }

  lemma MiddleIsMean(s: seq<real>, lo: nat, hi: nat)
    requires lo <= hi <= lo + 1 && lo + hi + 1 == |s|
    ensures Middle(s) == (s[lo] + s[hi]) / 2.0
  {
    if lo == hi {
      assert |s| == 2 * lo + 1;
    } else {
      assert |s| == 2 * hi;
    }
  }

  /** The median is the mean of the numbers at the two positions in the middle; of an odd number of values, these are
      one and the same. */
  lemma MedianIsMiddle(values: seq<FeedType>, lo: nat, hi: nat, a: real, b: real)
    requires lo <= hi <= lo + 1 && lo + hi + 1 == |Numbers(values)|
    requires HasRank(Numbers(values), lo, a) && HasRank(Numbers(values), hi, b)
    ensures MedianOf(values) == Ok((a + b) / 2.0)
  {
    var n := Numbers(values);
    var sorted := Sort(n);
    SortSorted(n);
    SortCounts(n, a);
    SortCounts(n, b);
    RankIsPosition(sorted, lo, a);
    RankIsPosition(sorted, hi, b);
    MiddleIsMean(sorted, lo, hi);
  }

  /** The median is never outside the range of the numbers. */
  lemma MedianBetweenExtremes(values: seq<FeedType>, lo: real, hi: real)
    requires Numbers(values) != []
    requires forall i :: 0 <= i < |Numbers(values)| ==> lo <= Numbers(values)[i] <= hi
    ensures MedianOf(values).Ok? && lo <= MedianOf(values).value <= hi
  {
    AllWithin(Numbers(values), lo, hi);
    MedianInMajority(values, lo, hi);
  }

  ghost predicate SameNumbers(a: seq<real>, b: seq<real>) {
    |a| == |b| && forall x :: Within(a, x, x) == Within(b, x, x)
  }

  lemma LargestIsLast(a: seq<real>, x: real)
    requires Ascending(a) && Within(a, x, x) > 0
    ensures a != [] && x <= a[|a| - 1]
  {
    WithinByRank(a, |a| - 1, x, x);
  }

  /** Ascending sequences with the same numbers are equal. */
  lemma {:induction false} AscendingUnique(a: seq<real>, b: seq<real>)
    requires Ascending(a) && Ascending(b) && SameNumbers(a, b)
    ensures a == b
  {
    if a == [] {
    } else {
      var x, y := a[|a| - 1], b[|b| - 1];
      LargestIsLast(b, x);
      LargestIsLast(a, y);
      var a', b' := a[..|a| - 1], b[..|b| - 1];
      forall z ensures Within(a', z, z) == Within(b', z, z) {
        assert Within(a, z, z) == Within(b, z, z);
      }
      AscendingUnique(a', b');
    }
  }

  /** The median does not depend on the order of the values. */
  lemma MedianOrderIndependent(a: seq<FeedType>, b: seq<FeedType>)
    requires SameNumbers(Numbers(a), Numbers(b))
    ensures MedianOf(a) == MedianOf(b)
  {
    forall x ensures Within(Sort(Numbers(a)), x, x) == Within(Sort(Numbers(b)), x, x) {
      assert Within(Numbers(a), x, x) == Within(Numbers(b), x, x);
      SortWithin(Numbers(a), x, x);
      SortWithin(Numbers(b), x, x);
    }
    SortSorted(Numbers(a));
    SortSorted(Numbers(b));
    AscendingUnique(Sort(Numbers(a)), Sort(Numbers(b)));
  }

  //
  // From reports to the median
  //

  function NumericReporters(reports: Reports, among: set<nat>): set<nat> {
    set k | k in among && k in reports && IsNumber(reports[k])
  }

  /** The reporters whose number lies in the interval. */
  function ReportersWithin(reports: Reports, among: set<nat>, lo: real, hi: real): set<nat> {
    set k | k in NumericReporters(reports, among) && lo <= reports[k].value.val <= hi
  }

  function Visited(order: seq<nat>): set<nat> {
    set k | k in order
  }

  lemma VisitedSnoc(order: seq<nat>)
    requires order != []
    ensures Visited(order) == Visited(order[..|order| - 1]) + {order[|order| - 1]}
  {
    assert order == order[..|order| - 1] + [order[|order| - 1]];
  }

  predicate IsNumber(report: Option<FeedType>) {
    report.Some? && report.value.Numerical?
  }

  lemma GatherNumbers(order: seq<nat>, expected: FeedType, reports: Reports)
    requires expected.Numerical? && order != [] && (forall k :: k in order ==> k in reports)
    ensures var k := order[|order| - 1];
            var before := Numbers(Gather(order[..|order| - 1], expected, reports));
            Numbers(Gather(order, expected, reports)) ==
            if IsNumber(reports[k]) then before + [reports[k].value.val] else before
  {
    var front, k := Gather(order[..|order| - 1], expected, reports), order[|order| - 1];
    if IsNumber(reports[k]) {
      assert (front + [reports[k].value])[..|front|] == front;
    } else {
      assert front + [] == front;
    }
  }

  /** What is collected says exactly how many reporters sent a number in an interval. */
  lemma {:induction false} CollectedNumbers(order: seq<nat>, expected: FeedType, reports: Reports, lo: real, hi: real)
    requires expected.Numerical? && (forall k :: k in order ==> k in reports)
    requires forall i, j :: 0 <= i < j < |order| ==> order[i] != order[j]
    ensures |Numbers(Gather(order, expected, reports))| == |NumericReporters(reports, Visited(order))|
    ensures Within(Numbers(Gather(order, expected, reports)), lo, hi) == |ReportersWithin(reports, Visited(order), lo, hi)|
  {
    if order == [] {
    } else {
      var front, k := order[..|order| - 1], order[|order| - 1];
      CollectedNumbers(front, expected, reports, lo, hi);
      VisitedSnoc(order);
      GatherNumbers(order, expected, reports);
      ReportersSnoc(reports, Visited(front), k, lo, hi);
      if IsNumber(reports[k]) {
        WithinSnoc(Numbers(Gather(front, expected, reports)), reports[k].value.val, lo, hi);
      }
    }
  }

  lemma ReportersSnoc(reports: Reports, among: set<nat>, k: nat, lo: real, hi: real)
    requires k in reports && k !in among
    ensures |NumericReporters(reports, among + {k})| ==
            |NumericReporters(reports, among)| + if IsNumber(reports[k]) then 1 else 0
    ensures |ReportersWithin(reports, among + {k}, lo, hi)| ==
            |ReportersWithin(reports, among, lo, hi)| + if IsNumber(reports[k]) && lo <= reports[k].value.val <= hi then 1 else 0
  {
    var numeric, within := NumericReporters(reports, among), ReportersWithin(reports, among, lo, hi);
    if !IsNumber(reports[k]) {
      assert NumericReporters(reports, among + {k}) == numeric;
      assert ReportersWithin(reports, among + {k}, lo, hi) == within;
    } else {
      assert NumericReporters(reports, among + {k}) == numeric + {k};
      if lo <= reports[k].value.val <= hi {
        assert ReportersWithin(reports, among + {k}, lo, hi) == within + {k};
      } else {
        assert ReportersWithin(reports, among + {k}, lo, hi) == within;
      }
    }
  }

  /** Two ways of visiting the same reports give the same median. */
  lemma MedianOfReports(a: seq<nat>, b: seq<nat>, expected: FeedType, reports: Reports)
    requires expected.Numerical? && Enumerates(a, reports.Keys) && Enumerates(b, reports.Keys)
    ensures MedianOf(Gather(a, expected, reports)) == MedianOf(Gather(b, expected, reports))
  {
    assert Visited(a) == reports.Keys && Visited(b) == reports.Keys;
    var va, vb := Numbers(Gather(a, expected, reports)), Numbers(Gather(b, expected, reports));
    forall x ensures Within(va, x, x) == Within(vb, x, x) {
      CollectedNumbers(a, expected, reports, x, x);
      CollectedNumbers(b, expected, reports, x, x);
    }
    CollectedNumbers(a, expected, reports, 0.0, 0.0);
    CollectedNumbers(b, expected, reports, 0.0, 0.0);
    MedianOrderIndependent(Gather(a, expected, reports), Gather(b, expected, reports));
  }

  predicate QuorumReached(quorumPercentage: real, numReporters: nat, numVotes: nat) {
    quorumPercentage * 0.01 * (numReporters as real) <= numVotes as real
  }

  /** With a quorum of numeric votes, faulty reporters numbering less than half of the quorum cannot
      move the median out of the interval all others agree on. */
  lemma FaultyMinorityCannotMoveMedian(order: seq<nat>, expected: FeedType, reports: Reports, faulty: set<nat>,
                                       lo: real, hi: real, quorumPercentage: real, numReporters: nat)
    requires expected.Numerical? && Enumerates(order, reports.Keys)
    requires forall k :: k in NumericReporters(reports, reports.Keys) && k !in faulty ==> lo <= reports[k].value.val <= hi
    requires QuorumReached(quorumPercentage, numReporters, |Gather(order, expected, reports)|)
    requires 2.0 * (|faulty| as real) < quorumPercentage * 0.01 * (numReporters as real)
    ensures var median := MedianOf(Gather(order, expected, reports));
            median.Ok? && lo <= median.value <= hi
  {
    var votes, good := NumericReporters(reports, reports.Keys), ReportersWithin(reports, reports.Keys, lo, hi);
    assert Visited(order) == reports.Keys;
    CollectedNumbers(order, expected, reports, lo, hi);
    GatheredAreNumbers(order, expected, reports);
    SubsetCardinality(votes, good + faulty);
    MedianInMajority(Gather(order, expected, reports), lo, hi);
  }

  lemma {:induction false} GatheredAreNumbers(order: seq<nat>, expected: FeedType, reports: Reports)
    requires expected.Numerical? && (forall k :: k in order ==> k in reports)
    ensures |Numbers(Gather(order, expected, reports))| == |Gather(order, expected, reports)|
  {
    if order == [] {
    } else {
      GatheredAreNumbers(order[..|order| - 1], expected, reports);
      GatherNumbers(order, expected, reports);
    }
  }
}
