/** Ordering dependency packages so that each comes after the packages it depends on. */
module GroupOrder {
  import opened Sets

  /** A parsed package: its name and the names of the packages it depends on. */
  datatype Group = Group(name: string, foreignDeps: seq<string>)

  //
  // The dependency graph
  //

  /** The last group of each name. */
  function NameToIndex(groups: seq<Group>): (m: map<string, nat>)
    ensures forall name :: name in m ==> m[name] < |groups|
  {
    if groups == [] then map[]
    else NameToIndex(groups[..|groups| - 1])[groups[|groups| - 1].name := |groups| - 1]
  }

  /** Indices of the named packages, leaving out those that are not among the groups. */
  function Resolve(names: seq<string>, m: map<string, nat>): (deps: seq<nat>)
    ensures forall d :: d in deps ==> exists name :: name in m && m[name] == d
  {
    if names == [] then []
    else
      var last := names[|names| - 1];
      Resolve(names[..|names| - 1], m) + if last in m then [m[last]] else []
  }

  lemma ResolveSnoc(names: seq<string>, t: nat, m: map<string, nat>)
    requires t < |names|
    ensures Resolve(names[..t + 1], m) ==
            if names[t] in m then Resolve(names[..t], m) + [m[names[t]]] else Resolve(names[..t], m)
  {
    assert names[..t + 1][..t] == names[..t];
  }

  /** Row `i` lists what group `i` depends on. */
  type Graph = seq<seq<nat>>

  ghost predicate InBounds(g: Graph) {
    forall i, d :: 0 <= i < |g| && d in g[i] ==> d < |g|
  }

  function GraphOf(groups: seq<Group>): Graph {
    seq(|groups|, i requires 0 <= i < |groups| => Resolve(groups[i].foreignDeps, NameToIndex(groups)))
  }

  lemma GraphInBounds(groups: seq<Group>)
    ensures InBounds(GraphOf(groups))
  {
  }

  //
  // The same in terms of names
  //

  /** Group `i` needs group `j`: it is the last one with a name that group `i` depends on. */
  ghost predicate Needs(groups: seq<Group>, i: nat, j: nat) {
    && i < |groups| && j < |groups|
    && groups[j].name in groups[i].foreignDeps
    && forall k :: j < k < |groups| ==> groups[k].name != groups[j].name
  }

  lemma {:induction false} LastOfName(groups: seq<Group>, name: string)
    ensures var m := NameToIndex(groups);
            && (name in m <==> exists k :: 0 <= k < |groups| && groups[k].name == name)
            && (name in m ==> groups[m[name]].name == name && forall k :: m[name] < k < |groups| ==> groups[k].name != name)
  {
    if groups == [] {
    } else {
      var front, last := groups[..|groups| - 1], groups[|groups| - 1];
      LastOfName(front, name);
      assert groups[|groups| - 1].name == last.name;
      assert forall k :: 0 <= k < |front| ==> groups[k] == front[k];
    }
  }

  lemma {:induction false} ResolvedIff(names: seq<string>, m: map<string, nat>, j: nat)
    ensures j in Resolve(names, m) <==> exists name :: name in names && name in m && m[name] == j
  {
    if names == [] {
    } else {
      var front, last := names[..|names| - 1], names[|names| - 1];
      ResolvedIff(front, m, j);
      assert forall name :: name in names <==> name in front || name == last;
    }
  }

  /** The graph has an edge exactly where one group needs another. */
  lemma EdgeIff(groups: seq<Group>, i: nat, j: nat)
    requires i < |groups|
    ensures j in GraphOf(groups)[i] <==> Needs(groups, i, j)
  {
    var m := NameToIndex(groups);
    ResolvedIff(groups[i].foreignDeps, m, j);
    if j in GraphOf(groups)[i] {
      var name :| name in groups[i].foreignDeps && name in m && m[name] == j;
      LastOfName(groups, name);
    } else if Needs(groups, i, j) {
      LastOfName(groups, groups[j].name);
    }
  }

  /** Some group needs itself, directly or through others. */
  ghost predicate NeedsItself(groups: seq<Group>) {
    exists w: seq<nat> :: |w| >= 2 && w[0] == w[|w| - 1] && forall k :: 0 <= k < |w| - 1 ==> Needs(groups, w[k], w[k + 1])
  }

  /** Every group that is needed stands before those that need it. */
  ghost predicate NeededFirst(groups: seq<Group>, order: seq<nat>) {
    forall p, j :: 0 <= p < |order| && Needs(groups, order[p], j) ==> j in order[..p]
  }

  lemma GraphMeansNames(groups: seq<Group>, order: seq<nat>)
    ensures Acyclic(GraphOf(groups)) <==> !NeedsItself(groups)
    ensures DependenciesFirst(GraphOf(groups), order) <==> NeededFirst(groups, order)
  {
    var g := GraphOf(groups);
    forall i, j | 0 <= i < |g| ensures j in g[i] <==> Needs(groups, i, j) {
      EdgeIff(groups, i, j);
    }
    if !Acyclic(g) {
      var w :| IsWalk(g, w) && |w| >= 2 && w[0] == w[|w| - 1];
      assert forall k :: 0 <= k < |w| - 1 ==> Needs(groups, w[k], w[k + 1]);
    }
    if NeedsItself(groups) {
      var w: seq<nat> :| |w| >= 2 && w[0] == w[|w| - 1] && forall k :: 0 <= k < |w| - 1 ==> Needs(groups, w[k], w[k + 1]);
      WalkOfNeeds(groups, w);
    }
  }

  lemma WalkOfNeeds(groups: seq<Group>, w: seq<nat>)
    requires |w| >= 2 && w[0] == w[|w| - 1] && forall k :: 0 <= k < |w| - 1 ==> Needs(groups, w[k], w[k + 1])
    ensures IsWalk(GraphOf(groups), w)
  {
    var g := GraphOf(groups);
    forall k | 0 <= k < |w| ensures w[k] < |g| {
      if k < |w| - 1 {
        assert Needs(groups, w[k], w[k + 1]);
      } else {
        assert Needs(groups, w[0], w[1]);
      }
    }
    forall k | 0 <= k < |w| - 1 ensures w[k + 1] in g[w[k]] {
      assert Needs(groups, w[k], w[k + 1]);
      EdgeIff(groups, w[k], w[k + 1]);
    }
  }

  /** `w` follows dependencies from one group to the next. */
  ghost predicate IsWalk(g: Graph, w: seq<nat>) {
    && (forall k :: 0 <= k < |w| ==> w[k] < |g|)
    && (forall k :: 0 <= k < |w| - 1 ==> w[k + 1] in g[w[k]])
  }

  ghost predicate Acyclic(g: Graph) {
    forall w :: IsWalk(g, w) && |w| >= 2 ==> w[0] != w[|w| - 1]
  }

  ghost predicate IsPermutation(s: seq<nat>, n: nat) {
    |s| == n && Distinct(s) && forall x :: x in s ==> x < n
  }

  /** Every dependency stands before its dependents. */
  ghost predicate DependenciesFirst(g: Graph, order: seq<nat>) {
    forall p, d :: 0 <= p < |order| && order[p] < |g| && d in g[order[p]] ==> d in order[..p]
  }

  //
  // Counting
  //

  function Elements(s: seq<nat>): set<nat> {
    set x | x in s
  }

  function Count(s: seq<nat>, x: nat): nat {
    if s == [] then 0 else Count(s[..|s| - 1], x) + if s[|s| - 1] == x then 1 else 0
  }

  lemma CountSnoc(s: seq<nat>, y: nat, x: nat)
    ensures Count(s + [y], x) == Count(s, x) + if y == x then 1 else 0
  {
    assert (s + [y])[..|s|] == s;
  }

  lemma {:induction false} CountZero(s: seq<nat>, x: nat)
    ensures Count(s, x) == 0 <==> x !in s
  {
    if s == [] {
    } else {
      var front, last := s[..|s| - 1], s[|s| - 1];
      CountZero(front, x);
      assert s == front + [last];
    }
  }

  /** Dependencies not dealt with yet, with multiplicity. */
  ghost function Remaining(deps: seq<nat>, done: set<nat>): nat {
    if deps == [] then 0
    else Remaining(deps[..|deps| - 1], done) + if deps[|deps| - 1] in done then 0 else 1
  }

  lemma {:induction false} RemainingStep(deps: seq<nat>, done: set<nat>, v: nat)
    requires v !in done
    ensures Remaining(deps, done) == Remaining(deps, done + {v}) + Count(deps, v)
  {
    if deps == [] {
    } else {
      RemainingStep(deps[..|deps| - 1], done, v);
    }
  }

  lemma {:induction false} RemainingZero(deps: seq<nat>, done: set<nat>)
    ensures Remaining(deps, done) == 0 <==> forall d :: d in deps ==> d in done
  {
    if deps == [] {
    } else {
      var front, last := deps[..|deps| - 1], deps[|deps| - 1];
      RemainingZero(front, done);
      assert forall d :: d in deps <==> d in front || d == last;
    }
  }

  lemma {:induction false} RemainingAll(deps: seq<nat>)
    ensures Remaining(deps, {}) == |deps|
  {
    if deps == [] {
    } else {
      RemainingAll(deps[..|deps| - 1]);
    }
  }

  lemma {:induction false} DistinctCardinality(s: seq<nat>)
    requires Distinct(s)
    ensures |Elements(s)| == |s|
  {
    if s == [] {
    } else {
      var front, last := s[..|s| - 1], s[|s| - 1];
      DistinctCardinality(front);
      assert Elements(s) == Elements(front) + {last};
    }
  }

  function Below(n: nat): (s: set<nat>)
    ensures forall i :: i in s <==> 0 <= i < n
  {
    if n == 0 then {} else Below(n - 1) + {n - 1}
  }

  lemma {:induction false} BelowCardinality(n: nat)
    ensures |Below(n)| == n
  {
    if n == 0 {
    } else {
      BelowCardinality(n - 1);
    }
  }

  /** At most `n` different numbers below `n`, and `n` of them are all. */
  lemma DistinctBound(s: seq<nat>, n: nat)
    requires Distinct(s) && forall x :: x in s ==> x < n
    ensures |s| <= n
    ensures |s| == n ==> forall i :: 0 <= i < n ==> i in s
  {
    DistinctCardinality(s);
    BelowCardinality(n);
    SubsetCardinality(Elements(s), Below(n));
    if |s| == n {
      forall i | 0 <= i < n ensures i in s {
        assert i in Below(n);
      }
    }
  }

  //
  // Acyclic means orderable
  //

  lemma {:induction false} WalkDescends(g: Graph, order: seq<nat>, w: seq<nat>, p: nat)
    requires DependenciesFirst(g, order) && IsWalk(g, w) && |w| >= 2
    requires p < |order| && order[p] == w[0]
    ensures w[|w| - 1] in order[..p]
    decreases |w|
  {
    assert w[1] in g[order[p]];
    var q :| 0 <= q < p && order[q] == w[1];
    if |w| == 2 {
    } else {
      WalkDescends(g, order, w[1..], q);
      assert order[..q] <= order[..p];
    }
  }

  lemma OrderedIsAcyclic(g: Graph, order: seq<nat>)
    requires InBounds(g) && IsPermutation(order, |g|) && DependenciesFirst(g, order)
    ensures Acyclic(g)
  {
    forall w | IsWalk(g, w) && |w| >= 2 ensures w[0] != w[|w| - 1] {
      DistinctBound(order, |g|);
      assert w[0] in order;
      var p :| 0 <= p < |order| && order[p] == w[0];
      WalkDescends(g, order, w, p);
    }
  }

  /** `next` leads every group of a set to a dependency in the same set: none can ever come first. */
  ghost predicate Stuck(g: Graph, next: map<nat, nat>) {
    forall i {:trigger next[i]} :: i in next ==> i < |g| && next[i] in g[i] && next[i] in next
  }

  lemma WalkCons(g: Graph, a: nat, w: seq<nat>)
    requires IsWalk(g, w) && w != [] && a < |g| && w[0] in g[a]
    ensures IsWalk(g, [a] + w)
  {
    var w' := [a] + w;
    forall k | 0 <= k < |w'| - 1 ensures w'[k + 1] in g[w'[k]] {
      assert k > 0 ==> w'[k] == w[k - 1];
      assert w'[k + 1] == w[k];
    }
  }

  lemma SubWalk(g: Graph, w: seq<nat>, i: nat, j: nat)
    requires IsWalk(g, w) && i <= j <= |w|
    ensures IsWalk(g, w[i..j])
  {
    var w' := w[i..j];
    forall k | 0 <= k < |w'| - 1 ensures w'[k + 1] in g[w'[k]] {
      assert w'[k] == w[i + k] && w'[k + 1] == w[i + k + 1];
    }
  }

  lemma {:induction false} LongWalk(g: Graph, next: map<nat, nat>, start: nat, length: nat) returns (w: seq<nat>)
    requires Stuck(g, next) && start in next
    ensures |w| == length + 1 && w[0] == start && IsWalk(g, w)
    decreases length
  {
    if length == 0 {
      w := [start];
      assert next[start] in g[start];
    } else {
      w := LongWalk(g, next, next[start], length - 1);
      WalkCons(g, start, w);
      w := [start] + w;
    }
  }

  lemma Repeats(w: seq<nat>, n: nat) returns (i: nat, j: nat)
    requires |w| > n && forall k :: 0 <= k < |w| ==> w[k] < n
    ensures i < j < |w| && w[i] == w[j]
  {
    if Distinct(w) {
      DistinctBound(w, n);
      assert false;
    }
    i, j :| 0 <= i < j < |w| && w[i] == w[j];
  }

  lemma ClosedWalk(g: Graph, w: seq<nat>, i: nat, j: nat)
    requires IsWalk(g, w) && i < j < |w| && w[i] == w[j]
    ensures !Acyclic(g)
  {
    var cycle := w[i..j + 1];
    SubWalk(g, w, i, j + 1);
    assert |cycle| >= 2 && cycle[0] == cycle[|cycle| - 1];
  }

  lemma StuckIsCyclic(g: Graph, next: map<nat, nat>)
    requires Stuck(g, next) && next != map[]
    ensures !Acyclic(g)
  {
    var start :| start in next;
    var w := LongWalk(g, next, start, |g|);
    var i, j := Repeats(w, |g|);
    ClosedWalk(g, w, i, j);
  }

  //
  // The algorithm
  //

  ghost predicate EdgesInBounds(edges: array<seq<nat>>)
    reads edges
  {
    forall j, k :: 0 <= j < edges.Length && k in edges[j] ==> k < edges.Length
  }

  /** Adds group `i` to the edges of everything it depends on. */
  method AddDependencies(i: nat, names: seq<string>, m: map<string, nat>, edges: array<seq<nat>>, indeg: array<nat>)
    requires i < edges.Length == indeg.Length && indeg[i] == 0 && EdgesInBounds(edges)
    requires forall name :: name in m ==> m[name] < edges.Length
    requires forall j :: 0 <= j < edges.Length ==> Count(edges[j], i) == 0
    modifies edges, indeg
    ensures EdgesInBounds(edges)
    ensures forall j, k :: 0 <= j < edges.Length ==>
              Count(edges[j], k) == if k == i then Count(Resolve(names, m), j) else Count(old(edges[j]), k)
    ensures forall k :: 0 <= k < indeg.Length ==> indeg[k] == if k == i then |Resolve(names, m)| else old(indeg[k])
  {
    for t := 0 to |names|
      invariant EdgesInBounds(edges)
      invariant forall j, k :: 0 <= j < edges.Length ==>
                  Count(edges[j], k) == if k == i then Count(Resolve(names[..t], m), j) else Count(old(edges[j]), k)
      invariant forall k :: 0 <= k < indeg.Length ==>
                  indeg[k] == if k == i then |Resolve(names[..t], m)| else old(indeg[k])
    {
      ResolveSnoc(names, t, m);
      if names[t] in m {
        var j := m[names[t]];
        forall k ensures Count(edges[j] + [i], k) == Count(edges[j], k) + if i == k then 1 else 0 {
          CountSnoc(edges[j], i, k);
        }
        forall k ensures Count(Resolve(names[..t + 1], m), k) == Count(Resolve(names[..t], m), k) + if j == k then 1 else 0 {
          CountSnoc(Resolve(names[..t], m), j, k);
        }
        edges[j] := edges[j] + [i];
        indeg[i] := indeg[i] + 1;
      }
    }
    assert names[..|names|] == names;
  }

  /** Edges from each group to its dependents, and the number of dependencies of each group,
      for the dependencies of the first `upTo` groups. */
  ghost predicate EdgesOf(g: Graph, edges: array<seq<nat>>, indeg: array<nat>, upTo: nat)
    reads edges, indeg
  {
    && edges.Length == indeg.Length == |g| && upTo <= |g|
    && EdgesInBounds(edges)
    && (forall j, k :: 0 <= j < |g| && 0 <= k < upTo ==> Count(edges[j], k) == Count(g[k], j))
    && (forall j, k :: 0 <= j < |g| && upTo <= k ==> Count(edges[j], k) == 0)
    && (forall k :: 0 <= k < |g| ==> indeg[k] == if k < upTo then |g[k]| else 0)
  }

  method BuildEdges(groups: seq<Group>) returns (edges: array<seq<nat>>, indeg: array<nat>)
    ensures fresh(edges) && fresh(indeg)
    ensures EdgesOf(GraphOf(groups), edges, indeg, |groups|)
    ensures forall j, k :: 0 <= j < |groups| ==> (k in edges[j] <==> Needs(groups, k, j))
  {
    var n := |groups|;
    var nameToIndex: map<string, nat> := map[];
    for i := 0 to n
      invariant nameToIndex == NameToIndex(groups[..i])
    {
      assert groups[..i + 1][..i] == groups[..i];
      nameToIndex := nameToIndex[groups[i].name := i];
    }
    assert groups[..n] == groups;
    edges := new seq<nat>[n](_ => []);
    indeg := new nat[n](_ => 0);
    assert forall j :: 0 <= j < n ==> edges[j] == [];
    for i := 0 to n
      invariant EdgesOf(GraphOf(groups), edges, indeg, i)
    {
      AddDependencies(i, groups[i].foreignDeps, nameToIndex, edges, indeg);
    }
    forall j, k | 0 <= j < n ensures k in edges[j] <==> Needs(groups, k, j) {
      EdgesAreNeeds(groups, edges[j], j, k);
    }
  }

  lemma EdgesAreNeeds(groups: seq<Group>, dependents: seq<nat>, j: nat, k: nat)
    requires forall i :: 0 <= i < |groups| ==> Count(dependents, i) == Count(GraphOf(groups)[i], j)
    requires forall i :: |groups| <= i ==> Count(dependents, i) == 0
    ensures k in dependents <==> Needs(groups, k, j)
  {
    CountZero(dependents, k);
    if k < |groups| {
      CountZero(GraphOf(groups)[k], j);
      EdgeIff(groups, k, j);
    }
  }

  lemma {:induction false} CountPrefix(s: seq<nat>, t: nat, x: nat)
    requires t <= |s|
    ensures Count(s[..t], x) <= Count(s, x)
  {
    if t < |s| {
      CountPrefix(s[..|s| - 1], t, x);
      assert s[..|s| - 1][..t] == s[..t];
    } else {
      assert s[..t] == s;
    }
  }

  /** Exactly the groups that are ordered, in hand or queued have no dependency left. */
  ghost predicate ReadyIff(indeg: array<nat>, seen: seq<nat>)
    reads indeg
  {
    && Distinct(seen)
    && (forall i :: i in seen ==> i < indeg.Length)
    && (forall i :: 0 <= i < indeg.Length ==> (i in seen <==> indeg[i] == 0))
  }

  lemma SeenGrows(indeg: array<nat>, seen: seq<nat>, m: nat)
    requires Distinct(seen) && m !in seen && m < indeg.Length && forall i :: i in seen ==> i < indeg.Length
    requires forall i :: 0 <= i < indeg.Length ==> (i in seen || i == m <==> indeg[i] == 0)
    ensures ReadyIff(indeg, seen + [m])
  {
  }

  /** Group `v` has just been ordered: counts its dependents down and queues those that are ready. */
  method Release(ghost g: Graph, v: nat, edges: array<seq<nat>>, indeg: array<nat>, q: seq<nat>, ghost order: seq<nat>)
    returns (q': seq<nat>)
    requires v < |g| == edges.Length == indeg.Length && EdgesInBounds(edges)
    requires forall j, k :: 0 <= j < |g| && 0 <= k < |g| ==> Count(edges[j], k) == Count(g[k], j)
    requires forall i :: 0 <= i < |g| ==> indeg[i] == Remaining(g[i], Elements(order))
    requires v !in order && ReadyIff(indeg, order + [v] + q)
    modifies indeg
    ensures forall i :: 0 <= i < |g| ==> indeg[i] == Remaining(g[i], Elements(order) + {v})
    ensures ReadyIff(indeg, order + [v] + q')
  {
    q' := q;
    var ev := edges[v];
    for t := 0 to |ev|
      invariant forall i :: 0 <= i < |g| ==> indeg[i] == Remaining(g[i], Elements(order)) - Count(ev[..t], i)
      invariant ReadyIff(indeg, order + [v] + q')
      invariant ev == edges[v] && EdgesInBounds(edges)
    {
      var m := ev[t];
      assert m in edges[v];
      assert ev[..t + 1] == ev[..t] + [m];
      CountPrefix(ev, t + 1, m);
      forall i ensures Count(ev[..t + 1], i) == Count(ev[..t], i) + if m == i then 1 else 0 {
        CountSnoc(ev[..t], m, i);
      }
      RemainingStep(g[m], Elements(order), v);
      ghost var seen := order + [v] + q';
      indeg[m] := indeg[m] - 1;
      if indeg[m] == 0 {
        SeenGrows(indeg, seen, m);
        assert seen + [m] == order + [v] + (q' + [m]);
        q' := q' + [m];
      }
    }
    assert ev[..|ev|] == ev;
    forall i | 0 <= i < |g| ensures indeg[i] == Remaining(g[i], Elements(order) + {v}) {
      RemainingStep(g[i], Elements(order), v);
    }
  }

  ghost predicate KahnInv(g: Graph, edges: array<seq<nat>>, indeg: array<nat>, q: seq<nat>, order: seq<nat>)
    reads edges, indeg
  {
    && |g| == edges.Length == indeg.Length && EdgesInBounds(edges)
    && (forall j, k :: 0 <= j < |g| && 0 <= k < |g| ==> Count(edges[j], k) == Count(g[k], j))
    && (forall i :: 0 <= i < |g| ==> indeg[i] == Remaining(g[i], Elements(order)))
    && ReadyIff(indeg, order + q)
    && DependenciesFirst(g, order)
  }

  lemma OrderOne(g: Graph, order: seq<nat>, v: nat)
    requires DependenciesFirst(g, order) && v < |g| && Remaining(g[v], Elements(order)) == 0
    ensures DependenciesFirst(g, order + [v])
  {
    RemainingZero(g[v], Elements(order));
    forall p, d | 0 <= p < |order + [v]| && (order + [v])[p] < |g| && d in g[(order + [v])[p]]
      ensures d in (order + [v])[..p]
    {
      assert (order + [v])[..p] == order[..p];
      if p == |order| {
        assert order[..p] == order;
      }
    }
  }

  ghost function Unmet(deps: seq<nat>, done: set<nat>): (d: nat)
    requires Remaining(deps, done) != 0
    ensures d in deps && d !in done
  {
    RemainingZero(deps, done);
    var d :| d in deps && d !in done;
    d
  }

  lemma SomeLeft(order: seq<nat>, n: nat)
    requires |order| < n
    ensures exists i :: 0 <= i < n && i !in order
  {
    BelowCardinality(n);
    if forall i :: 0 <= i < n ==> i in order {
      ElementsBound(order);
      SubsetCardinality(Below(n), Elements(order));
    }
  }

  lemma {:induction false} ElementsBound(s: seq<nat>)
    ensures |Elements(s)| <= |s|
  {
    if s == [] {
    } else {
      var front, last := s[..|s| - 1], s[|s| - 1];
      ElementsBound(front);
      assert Elements(s) == Elements(front) + {last};
    }
  }

  /** When the queue runs dry before all groups are ordered, each of the others depends on another. */
  lemma LeftoversAreCyclic(g: Graph, order: seq<nat>, left: set<nat>)
    requires InBounds(g) && left != {}
    requires forall i: nat :: i in left <==> i < |g| && i !in order
    requires forall i :: i in left ==> Remaining(g[i], Elements(order)) != 0
    ensures !Acyclic(g)
  {
    var next := map i | i in left :: Unmet(g[i], Elements(order));
    forall i | i in next ensures i < |g| && next[i] in g[i] && next[i] in next {
      assert next[i] in g[i] && next[i] !in Elements(order);
    }
    StuckIsCyclic(g, next);
  }

  lemma HeadIsNew(order: seq<nat>, v: nat, rest: seq<nat>)
    requires Distinct(order + [v] + rest)
    ensures v !in order
  {
    var s := order + [v] + rest;
    assert s[|order|] == v;
    assert forall k :: 0 <= k < |order| ==> s[k] == order[k];
  }

  lemma QueueIsEmpty(g: Graph, edges: array<seq<nat>>, indeg: array<nat>, order: seq<nat>)
    requires InBounds(g) && KahnInv(g, edges, indeg, [], order)
    ensures |order| <= |g|
    ensures |order| == |g| ==> IsPermutation(order, |g|) && Acyclic(g)
    ensures |order| != |g| ==> !Acyclic(g)
  {
    assert order + [] == order;
    DistinctBound(order, |g|);
    if |order| == |g| {
      OrderedIsAcyclic(g, order);
    } else {
      var left := set i | i in Below(|g|) && i !in order;
      SomeLeft(order, |g|);
      var l :| 0 <= l < |g| && l !in order;
      assert l in left;
      forall i | i in left ensures Remaining(g[i], Elements(order)) != 0 {
        assert indeg[i] != 0;
      }
      LeftoversAreCyclic(g, order, left);
    }
  }

  /** Kahn's algorithm on the graph of the groups. */
  method Kahn(groups: seq<Group>) returns (order: seq<nat>)
    ensures IsPermutation(order, |groups|)
    ensures Acyclic(GraphOf(groups)) <==> DependenciesFirst(GraphOf(groups), order)
    ensures !Acyclic(GraphOf(groups)) ==> forall i :: 0 <= i < |groups| ==> order[i] == i
  {
    ghost var g := GraphOf(groups);
    GraphInBounds(groups);
    var edges, indeg := BuildEdges(groups);
    var q: seq<nat> := [];
    for i := 0 to |groups|
      invariant forall k :: k in q ==> k < i
      invariant Distinct(q) && forall k :: 0 <= k < i ==> (k in q <==> indeg[k] == 0)
    {
      assert i !in q;
      if indeg[i] == 0 {
        q := q + [i];
      }
    }
    order := [];
    forall i | 0 <= i < |g| ensures indeg[i] == Remaining(g[i], Elements(order)) {
      RemainingAll(g[i]);
      assert Elements(order) == {};
    }
    assert order + q == q;
    while q != []
      invariant |order| <= |groups|
      invariant KahnInv(g, edges, indeg, q, order)
      decreases |groups| - |order|
    {
      var i := q[0];
      assert order + q == order + [i] + q[1..];
      HeadIsNew(order, i, q[1..]);
      assert i in order + q;
      OrderOne(g, order, i);
      q := Release(g, i, edges, indeg, q[1..], order);
      DistinctBound(order + [i] + q, |groups|);
      assert Elements(order + [i]) == Elements(order) + {i};
      order := order + [i];
    }
    QueueIsEmpty(g, edges, indeg, order);
    if |order| != |groups| {
      order := seq(|groups|, i => i);
      if DependenciesFirst(g, order) {
        OrderedIsAcyclic(g, order);
      }
    }
  }

  /** The order of the packages. Falls back to the order of insertion if some package needs itself. */
  method TopologicalOrder(groups: seq<Group>) returns (order: seq<nat>)
    ensures IsPermutation(order, |groups|)
    ensures NeededFirst(groups, order) <==> !NeedsItself(groups)
    ensures NeedsItself(groups) ==> forall i :: 0 <= i < |groups| ==> order[i] == i
  {
    order := Kahn(groups);
    GraphMeansNames(groups, order);
  }
}
