/** Finite sets and sequences: cardinality of subsets, repetition, and the orders a set may be visited in. */
module Sets {

  lemma {:induction false} SubsetCardinality<T>(a: set<T>, b: set<T>)
    requires a <= b
    ensures |a| <= |b|
    ensures |a| == |b| ==> a == b
    decreases a
  {
    if a == {} {
    } else {
      var x :| x in a;
      SubsetCardinality(a - {x}, b - {x});
    }
  }

  ghost predicate Distinct<T>(s: seq<T>) {
    forall i, j :: 0 <= i < j < |s| ==> s[i] != s[j]
  }

  /** `order` visits every element once, as iterating a hash set or map does in some order. */
  ghost predicate Enumerates<T(!new)>(order: seq<T>, elements: set<T>) {
    && Distinct(order)
    && (forall x :: x in order <==> x in elements)
  }
}
