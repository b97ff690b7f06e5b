// Course schedule: Kahn's algorithm decides whether the prerequisite graph has no cycle.
module CourseSchedule {

  /** (course, prerequisite): the prerequisite must be taken first. */
  type Edge = (nat, nat)

  ghost predicate InRange(n: nat, edges: seq<Edge>) {
    forall k :: 0 <= k < |edges| ==> edges[k].0 < n && edges[k].1 < n
  }

  /** Each course of the walk is a direct prerequisite of the next. */
  ghost predicate Walk(edges: seq<Edge>, w: seq<nat>) {
    forall i :: 0 <= i < |w| - 1 ==> (w[i + 1], w[i]) in edges
  }

  ghost predicate HasCycle(edges: seq<Edge>) {
    exists w :: |w| >= 2 && w[0] == w[|w| - 1] && Walk(edges, w)
  }

  /** `order` takes all `n` courses once each, every one after all its prerequisites. */
  ghost predicate CanTake(n: nat, edges: seq<Edge>, order: seq<nat>) {
    && |order| == n
    && (forall i :: 0 <= i < n ==> order[i] < n)
    && (forall i, j :: 0 <= i < j < n ==> order[i] != order[j])
    && PrerequisitesFirst(edges, order)
  }

  /** Every prerequisite of a course in `order` comes earlier in `order`. */
  ghost predicate PrerequisitesFirst(edges: seq<Edge>, order: seq<nat>) {
    forall i, e :: 0 <= i < |order| && e in edges && e.0 == order[i] ==> e.1 in order[..i]
  }

  // The adjacency list and the in-degrees.

  /** The courses that list `v` as a prerequisite, once per edge. */
  function Successors(edges: seq<Edge>, v: nat): seq<nat>
    decreases |edges|
  {
    if edges == [] then []
    else
      var e := edges[|edges| - 1];
      Successors(edges[..|edges| - 1], v) + if e.1 == v then [e.0] else []
  }

  /** The number of edges into `c` from courses not yet in `taken`. */
  function Pending(edges: seq<Edge>, taken: set<nat>, c: nat): nat
    decreases |edges|
  {
    if edges == [] then 0
    else
      var e := edges[|edges| - 1];
      Pending(edges[..|edges| - 1], taken, c) + if e.0 == c && e.1 !in taken then 1 else 0
  }

  lemma {:induction false} PendingZero(edges: seq<Edge>, taken: set<nat>, c: nat)
    ensures Pending(edges, taken, c) == 0 <==> forall e :: e in edges && e.0 == c ==> e.1 in taken
    decreases |edges|
  {
    if edges != [] {
      PendingZero(edges[..|edges| - 1], taken, c);
      assert edges == edges[..|edges| - 1] + [edges[|edges| - 1]];
    }
  }

  /** Taking a course removes its edges from the in-degrees of its successors. */
  lemma {:induction false} PendingAfterTaking(edges: seq<Edge>, taken: set<nat>, v: nat, c: nat)
    requires v !in taken
    ensures Pending(edges, taken, c) == Pending(edges, taken + {v}, c) + multiset(Successors(edges, v))[c]
    decreases |edges|
  {
    if edges != [] {
      PendingAfterTaking(edges[..|edges| - 1], taken, v, c);
    }
  }

  lemma {:induction false} SuccessorsInRange(n: nat, edges: seq<Edge>, v: nat)
    requires InRange(n, edges)
    ensures forall x :: x in Successors(edges, v) ==> x < n
    decreases |edges|
  {
    if edges != [] {
      SuccessorsInRange(n, edges[..|edges| - 1], v);
    }
  }

  // Order and cycles exclude each other.

  ghost function IndexOf(s: seq<nat>, x: nat): (i: nat)
    requires x in s
    ensures i < |s| && s[i] == x && x !in s[..i]
    decreases |s|
  {
    if s[0] == x then 0 else 1 + IndexOf(s[1..], x)
  }

  lemma {:induction false} PositionsGrow(edges: seq<Edge>, order: seq<nat>, w: seq<nat>, i: nat)
    requires PrerequisitesFirst(edges, order) && Walk(edges, w)
    requires forall x :: x in w ==> x in order
    requires 0 < i < |w|
    ensures w[0] in order[..IndexOf(order, w[i])]
    decreases i
  {
    var at := IndexOf(order, w[i]);
    assert (w[i], w[i - 1]) in edges;
    assert w[i - 1] in order[..at];
    if i > 1 {
      PositionsGrow(edges, order, w, i - 1);
      var before := IndexOf(order, w[i - 1]);
      assert before < at;
      assert order[..before] <= order[..at];
    }
  }

  lemma OrderExcludesCycle(n: nat, edges: seq<Edge>, order: seq<nat>)
    requires InRange(n, edges) && CanTake(n, edges, order)
    ensures !HasCycle(edges)
  {
    if HasCycle(edges) {
      var w :| |w| >= 2 && w[0] == w[|w| - 1] && Walk(edges, w);
      forall x | x in w
        ensures x in order
      {
        var i :| 0 <= i < |w| && w[i] == x;
        assert (w[if i == 0 then 1 else i], w[if i == 0 then 0 else i - 1]) in edges;
        AllPresent(n, order, x);
      }
      PositionsGrow(edges, order, w, |w| - 1);
      assert false;
    }
  }

  lemma {:induction false} AllPresent(n: nat, order: seq<nat>, x: nat)
    requires |order| == n && x < n
    requires forall i :: 0 <= i < n ==> order[i] < n
    requires forall i, j :: 0 <= i < j < n ==> order[i] != order[j]
    ensures x in order
  {
    if x !in order {
      var i, j := Pigeonhole(order + [x], n);
      assert false;
    }
  }

  /** More entries than values: two entries coincide. */
  lemma {:induction false} Pigeonhole(w: seq<nat>, n: nat) returns (x: nat, y: nat)
    requires |w| > n && forall i :: 0 <= i < |w| ==> w[i] < n
    ensures x < y < |w| && w[x] == w[y]
    decreases n
  {
    assert w[0] < n;
    if i :| 0 <= i < |w| && w[i] == n - 1 {
      if j :| 0 <= j < |w| && j != i && w[j] == n - 1 {
        return if i < j then i else j, if i < j then j else i;
      }
      var w' := w[..i] + w[i + 1..];
      x, y := Pigeonhole(w', n - 1);
      x, y := if x < i then x else x + 1, if y < i then y else y + 1;
    } else {
      x, y := Pigeonhole(w, n - 1);
    }
  }

  /** Some prerequisite of `c` is in `stuck`. */
  ghost predicate Waits(edges: seq<Edge>, stuck: set<nat>, c: nat) {
    exists u :: u in stuck && (c, u) in edges
  }

  lemma PickPrerequisite(edges: seq<Edge>, stuck: set<nat>, c: nat) returns (u: nat)
    requires Waits(edges, stuck, c)
    ensures u in stuck && (c, u) in edges
  {
    u :| u in stuck && (c, u) in edges;
  }

  /** If every course of a non-empty set has a prerequisite in the set, walks in it get arbitrarily long. */
  lemma {:induction false} LongWalk(edges: seq<Edge>, stuck: set<nat>, len: nat) returns (w: seq<nat>)
    requires stuck != {} && forall c :: c in stuck ==> Waits(edges, stuck, c)
    ensures |w| == len && Walk(edges, w) && forall x :: x in w ==> x in stuck
  {
    hide Waits;
    if len == 0 {
      w := [];
    } else if len == 1 {
      var c :| c in stuck;
      w := [c];
    } else {
      var rest := LongWalk(edges, stuck, len - 1);
      assert rest[0] in stuck;
      var u := PickPrerequisite(edges, stuck, rest[0]);
      w := [u] + rest;
    }
  }

  lemma StuckMeansCycle(n: nat, edges: seq<Edge>, stuck: set<nat>)
    requires stuck != {} && forall c :: c in stuck ==> c < n && Waits(edges, stuck, c)
    ensures HasCycle(edges)
  {
    hide Waits;
    var w := LongWalk(edges, stuck, n + 1);
    assert forall x :: 0 <= x < |w| ==> w[x] in w;
    var i, j := Pigeonhole(w, n);
    var cycle := w[i..j + 1];
    forall x | 0 <= x < |cycle| - 1
      ensures (cycle[x + 1], cycle[x]) in edges
    {
      assert cycle[x + 1] == w[i + x + 1] && cycle[x] == w[i + x];
    }
    assert Walk(edges, cycle);
  }

  // The queue loop.

  /** `order` and `q` together are exactly the courses whose pending prerequisites are all taken. */
  ghost predicate QueueInvariant(n: nat, edges: seq<Edge>, order: seq<nat>, q: seq<nat>, inDegree: seq<int>) {
    && |inDegree| == n
    && (forall c :: 0 <= c < n ==> inDegree[c] == Pending(edges, Set(order), c))
    && Ready(n, order, q, inDegree)
    && PrerequisitesFirst(edges, order)
  }

  function Set(s: seq<nat>): set<nat> { set x | x in s }

  /** Courses taken or queued are distinct, and they are the courses of in-degree 0. */
  ghost predicate Ready(n: nat, order: seq<nat>, q: seq<nat>, inDegree: seq<int>) {
    && |inDegree| == n
    && (forall i, j :: 0 <= i < j < |order + q| ==> (order + q)[i] != (order + q)[j])
    && (forall c: nat :: c in order + q <==> c < n && inDegree[c] == 0)
  }

  /** Between two successors of `curr`: the rest of its list is still to be subtracted. */
  ghost predicate InnerInvariant(n: nat, edges: seq<Edge>, order: seq<nat>, q: seq<nat>, inDegree: seq<int>,
                                 rest: seq<nat>)
  {
    && |inDegree| == n
    && (forall c :: 0 <= c < n ==> inDegree[c] == Pending(edges, Set(order), c) + multiset(rest)[c])
    && Ready(n, order, q, inDegree)
  }

  lemma DifferentPlaces(s: seq<nat>, i: nat, j: nat)
    requires forall x, y :: 0 <= x < y < |s| ==> s[x] != s[y]
    requires i < j < |s|
    ensures s[i] != s[j]
  {
  }

  lemma TakeNext(n: nat, edges: seq<Edge>, order: seq<nat>, q: seq<nat>, inDegree: seq<int>)
    requires QueueInvariant(n, edges, order, q, inDegree) && q != []
    ensures q[0] < n && PrerequisitesFirst(edges, order + [q[0]])
    ensures InnerInvariant(n, edges, order + [q[0]], q[1..], inDegree, Successors(edges, q[0]))
  {
    var curr := q[0];
    var order' := order + [curr];
    assert order' + q[1..] == order + q;
    assert (order + q)[|order|] == curr;
    assert curr in order + q;
    assert curr !in order by {
      if curr in order {
        var i :| 0 <= i < |order| && order[i] == curr;
        DifferentPlaces(order + q, i, |order|);
        assert false;
      }
    }
    assert Set(order') == Set(order) + {curr};
    forall c | 0 <= c < n
      ensures inDegree[c] == Pending(edges, Set(order'), c) + multiset(Successors(edges, curr))[c]
    {
      PendingAfterTaking(edges, Set(order), curr, c);
    }
    PendingZero(edges, Set(order), curr);
    forall i, e | 0 <= i < |order'| && e in edges && e.0 == order'[i]
      ensures e.1 in order'[..i]
    {
      if i < |order| {
        assert order'[..i] == order[..i];
      } else {
        assert order'[..i] == order;
      }
    }
  }

  lemma Release(n: nat, edges: seq<Edge>, order: seq<nat>, q: seq<nat>, inDegree: seq<int>, rest: seq<nat>)
    requires InnerInvariant(n, edges, order, q, inDegree, rest) && rest != [] && rest[0] < n
    ensures var next := rest[0];
            var inDegree' := inDegree[next := inDegree[next] - 1];
            var q' := if inDegree'[next] == 0 then q + [next] else q;
            InnerInvariant(n, edges, order, q', inDegree', rest[1..])
  {
    var next := rest[0];
    assert rest == [next] + rest[1..];
    assert multiset(rest) == multiset{next} + multiset(rest[1..]);
    var inDegree' := inDegree[next := inDegree[next] - 1];
    assert next !in order + q;
    if inDegree'[next] == 0 {
      assert order + (q + [next]) == order + q + [next];
    }
  }

  lemma AllReleased(n: nat, edges: seq<Edge>, order: seq<nat>, q: seq<nat>, inDegree: seq<int>)
    requires InnerInvariant(n, edges, order, q, inDegree, []) && PrerequisitesFirst(edges, order)
    ensures QueueInvariant(n, edges, order, q, inDegree)
  {
  }

  lemma QueueEmpty(n: nat, edges: seq<Edge>, order: seq<nat>, inDegree: seq<int>)
    requires InRange(n, edges) && QueueInvariant(n, edges, order, [], inDegree)
    ensures |order| == n ==> CanTake(n, edges, order) && !HasCycle(edges)
    ensures |order| != n ==> HasCycle(edges) && !exists other :: CanTake(n, edges, other)
  {
    assert order + [] == order;
    if |order| == n {
      assert forall i :: 0 <= i < n ==> order[i] in order + [];
      OrderExcludesCycle(n, edges, order);
    } else {
      var stuck := set c: nat | c < n && c !in order;
      forall c | c in stuck
        ensures Waits(edges, stuck, c)
      {
        PendingZero(edges, Set(order), c);
        var e :| e in edges && e.0 == c && e.1 !in Set(order);
        assert (c, e.1) in edges && e.1 in stuck;
      }
      if stuck == {} {
        assert forall c: nat :: c < n ==> c in stuck || c in order;
        TooMany(n, order);
        assert false;
      }
      StuckMeansCycle(n, edges, stuck);
      forall other | CanTake(n, edges, other)
        ensures false
      {
        OrderExcludesCycle(n, edges, other);
      }
    }
  }

  /** A list of distinct courses that misses none has length `n`. */
  lemma TooMany(n: nat, order: seq<nat>)
    requires forall i, j :: 0 <= i < j < |order| ==> order[i] != order[j]
    requires forall c :: c in order ==> c < n
    requires forall c: nat :: c < n ==> c in order
    ensures |order| == n
  {
    if |order| > n {
      assert forall i :: 0 <= i < |order| ==> order[i] in order;
      var i, j := Pigeonhole(order, n);
      assert false;
    } else if |order| < n {
      var at := seq(n, c requires 0 <= c < n => IndexOf(order, c));
      assert forall c :: 0 <= c < n ==> order[at[c]] == c;
      var i, j := Pigeonhole(at, |order|);
      assert false;
    }
  }

  // Filling the tables.

  /** The in-degrees before any course is taken. */
  function Degrees(n: nat, edges: seq<Edge>): seq<int> {
    seq(n, c requires 0 <= c < n => Pending(edges, {}, c))
  }

  function AdjacencyLists(n: nat, edges: seq<Edge>): seq<seq<nat>> {
    seq(n, v requires 0 <= v < n => Successors(edges, v))
  }

  method BuildGraph(n: nat, edges: seq<Edge>) returns (adj: array<seq<nat>>, inDegree: array<int>)
    requires InRange(n, edges)
    ensures fresh(adj) && fresh(inDegree)
    ensures adj[..] == AdjacencyLists(n, edges) && inDegree[..] == Degrees(n, edges)
  {
    adj := new seq<nat>[n](_ => []);
    inDegree := new int[n](_ => 0);
    for k := 0 to |edges|
      invariant forall v :: 0 <= v < n ==> adj[v] == Successors(edges[..k], v)
      invariant forall c :: 0 <= c < n ==> inDegree[c] == Pending(edges[..k], {}, c)
    {
      var p := edges[k];
      assert edges[..k + 1][..k] == edges[..k];
      adj[p.1] := adj[p.1] + [p.0];
      inDegree[p.0] := inDegree[p.0] + 1;
    }
    assert edges[..|edges|] == edges;
  }

  /** The courses below `i` with in-degree 0, in increasing order. */
  function ZeroBelow(inDegree: seq<int>, i: nat): seq<nat>
    requires i <= |inDegree|
  {
    if i == 0 then [] else ZeroBelow(inDegree, i - 1) + if inDegree[i - 1] == 0 then [i - 1] else []
  }

  lemma {:induction false} ZeroBelowIsZero(inDegree: seq<int>, i: nat)
    requires i <= |inDegree|
    ensures forall c: nat :: c in ZeroBelow(inDegree, i) <==> c < i && inDegree[c] == 0
    ensures forall x, y :: 0 <= x < y < |ZeroBelow(inDegree, i)| ==>
              ZeroBelow(inDegree, i)[x] < ZeroBelow(inDegree, i)[y]
  {
    if i > 0 {
      ZeroBelowIsZero(inDegree, i - 1);
      var z := ZeroBelow(inDegree, i - 1);
      assert forall x :: 0 <= x < |z| ==> z[x] in z;
    }
  }

  method QueueZeros(inDegree: array<int>) returns (q: seq<nat>)
    ensures q == ZeroBelow(inDegree[..], inDegree.Length)
  {
    q := [];
    for i := 0 to inDegree.Length
      invariant q == ZeroBelow(inDegree[..], i)
    {
      if inDegree[i] == 0 { q := q + [i]; }
    }
  }

  lemma QueueStart(n: nat, edges: seq<Edge>, inDegree: seq<int>)
    requires inDegree == Degrees(n, edges)
    ensures |inDegree| == n && QueueInvariant(n, edges, [], ZeroBelow(inDegree, n), inDegree)
  {
    ZeroBelowIsZero(inDegree, n);
    assert [] + ZeroBelow(inDegree, n) == ZeroBelow(inDegree, n);
    assert Set([]) == {};
  }

  /** Distinct courses taken are at most as many as there are courses. */
  lemma TakenAtMost(n: nat, edges: seq<Edge>, order: seq<nat>, q: seq<nat>, inDegree: seq<int>)
    requires QueueInvariant(n, edges, order, q, inDegree)
    ensures |inDegree| == n && |order| <= n && (q != [] ==> |order| < n)
  {
    hide Pending, PrerequisitesFirst;
    if |order + q| > n {
      forall i | 0 <= i < |order + q|
        ensures (order + q)[i] < n
      {
        assert (order + q)[i] in order + q;
      }
      var i, j := Pigeonhole(order + q, n);
      assert false;
    }
  }

  /** Taking `curr` and lowering the in-degrees of its successors one by one. */
  method Take(n: nat, edges: seq<Edge>, next: seq<nat>, q0: seq<nat>, inDegree: array<int>, ghost order: seq<nat>)
      returns (q: seq<nat>)
    requires InnerInvariant(n, edges, order, q0, inDegree[..], next) && forall x :: x in next ==> x < n
    modifies inDegree
    ensures InnerInvariant(n, edges, order, q, inDegree[..], [])
  {
    hide Pending, Ready;
    q := q0;
    for x := 0 to |next|
      invariant InnerInvariant(n, edges, order, q, inDegree[..], next[x..])
    {
      assert next[x..][1..] == next[x + 1..];
      assert next[x..][0] == next[x] && next[x] in next;
      Release(n, edges, order, q, inDegree[..], next[x..]);
      ghost var lowered := inDegree[..][next[x] := inDegree[..][next[x]] - 1];
      inDegree[next[x]] := inDegree[next[x]] - 1;
      assert inDegree[..] == lowered;
      if inDegree[next[x]] == 0 { q := q + [next[x]]; }
    }
    assert next[|next|..] == [];
  }

  lemma GraphShape(n: nat, edges: seq<Edge>, v: nat)
    requires InRange(n, edges)
    ensures |AdjacencyLists(n, edges)| == n && |Degrees(n, edges)| == n
    ensures v < n ==> AdjacencyLists(n, edges)[v] == Successors(edges, v)
    ensures forall x :: x in Successors(edges, v) ==> x < n
  {
    SuccessorsInRange(n, edges, v);
  }

  method CanFinish(numCourses: nat, prerequisites: seq<Edge>) returns (r: bool)
    requires InRange(numCourses, prerequisites)
    ensures r <==> !HasCycle(prerequisites)
    ensures r <==> exists order :: CanTake(numCourses, prerequisites, order)
  {
    hide *;
    var adj, inDegree := BuildGraph(numCourses, prerequisites);
    ghost var lists := adj[..];
    GraphShape(numCourses, prerequisites, 0);
    assert |adj[..]| == adj.Length && |inDegree[..]| == inDegree.Length;
    var q := QueueZeros(inDegree);
    QueueStart(numCourses, prerequisites, inDegree[..]);
    var count := 0;
    ghost var order: seq<nat> := [];
    while |q| > 0
      invariant adj[..] == lists
      invariant QueueInvariant(numCourses, prerequisites, order, q, inDegree[..])
      invariant count == |order|
      decreases numCourses - count
    {
      var curr := q[0];
      TakenAtMost(numCourses, prerequisites, order, q, inDegree[..]);
      TakeNext(numCourses, prerequisites, order, q, inDegree[..]);
      GraphShape(numCourses, prerequisites, curr);
      q := q[1..];
      count := count + 1;
      order := order + [curr];
      assert adj[curr] == lists[curr];
      q := Take(numCourses, prerequisites, adj[curr], q, inDegree, order);
      AllReleased(numCourses, prerequisites, order, q, inDegree[..]);
    }
    assert q == [];
    QueueEmpty(numCourses, prerequisites, order, inDegree[..]);
    r := count == numCourses;
  }
}
