// Minimum number of meeting rooms from start times and end times sorted separately.
module MeetingRooms {
  import opened Sequences
  import opened Sets

  /** Start and end time. */
  type Interval = (int, int)

  predicate Overlap(x: Interval, y: Interval) {
    x.0 < y.1 && y.0 < x.1
  }

  ghost predicate ProperIntervals(intervals: seq<Interval>) {
    forall m :: 0 <= m < |intervals| ==> intervals[m].0 < intervals[m].1
  }

  /** `room` gives every meeting one of `n` rooms, and no two meetings in a room overlap. */
  ghost predicate Assignment(intervals: seq<Interval>, room: seq<nat>, n: nat) {
    && |room| == |intervals|
    && (forall m :: 0 <= m < |room| ==> room[m] < n)
    && (forall m, k :: 0 <= m < k < |room| && room[m] == room[k] ==> !Overlap(intervals[m], intervals[k]))
  }

  ghost predicate IsMinimumRooms(intervals: seq<Interval>, n: nat) {
    && (exists room :: Assignment(intervals, room, n))
    && (forall room, k: nat :: Assignment(intervals, room, k) ==> n <= k)
  }

  // Ranks: which meeting a sorted time belongs to, and the rank of each meeting.

  /** `p` lists the meetings in the order of `times`, `rank` is its inverse. */
  ghost predicate Ranked(times: seq<int>, p: seq<nat>, rank: seq<nat>, keys: seq<int>) {
    && |times| == |p| == |rank| == |keys|
    && (forall x :: 0 <= x < |p| ==> p[x] < |p| && rank[p[x]] == x && times[x] == keys[p[x]])
    && (forall m :: 0 <= m < |p| ==> rank[m] < |p| && p[rank[m]] == m)
  }

  lemma SwapKeepsRanks(times: seq<int>, p: seq<nat>, rank: seq<nat>, keys: seq<int>, i: nat, j: nat)
    requires Ranked(times, p, rank, keys) && i < |p| && j < |p|
    ensures Ranked(Swap(times, i, j), Swap(p, i, j), Swap(rank, p[i], p[j]), keys)
  {
  }

  /** The first `i` entries are in final position, and entry `i` is least among those before `j`. */
  ghost predicate SortedUpTo(s: seq<int>, i: nat, j: nat) {
    && (forall x, y :: 0 <= x < i && x <= y < |s| ==> s[x] <= s[y])
    && (forall y :: i <= y < j && y < |s| ==> s[i] <= s[y])
  }

  ghost function Starts(intervals: seq<Interval>): seq<int> {
    seq(|intervals|, m requires 0 <= m < |intervals| => intervals[m].0)
  }

  ghost function Ends(intervals: seq<Interval>): seq<int> {
    seq(|intervals|, m requires 0 <= m < |intervals| => intervals[m].1)
  }

  /** The ranks of a partly sorted array. */
  ghost predicate Sorting(times: seq<int>, p: seq<nat>, rank: seq<nat>, keys: seq<int>, i: nat, j: nat) {
    Ranked(times, p, rank, keys) && SortedUpTo(times, i, j)
  }

  method CompareExchange(a: array<int>, i: nat, j: nat, ghost p: seq<nat>, ghost rank: seq<nat>, ghost keys: seq<int>)
      returns (ghost p': seq<nat>, ghost rank': seq<nat>)
    requires i < j < a.Length && Sorting(a[..], p, rank, keys, i, j)
    modifies a
    ensures Sorting(a[..], p', rank', keys, i, j + 1)
  {
    p', rank' := p, rank;
    if a[i] > a[j] {
      SwapKeepsRanks(a[..], p, rank, keys, i, j);
      SwapKeepsOrder(a[..], i, j);
      rank', p' := Swap(rank, p[i], p[j]), Swap(p, i, j);
      ghost var swapped := Swap(a[..], i, j);
      a[i], a[j] := a[j], a[i];
      assert a[..] == swapped;
    }
  }

  lemma FirstRanks(times: seq<int>, p: seq<nat>)
    requires p == seq(|times|, x => x)
    ensures Sorting(times, p, p, times, 0, 0)
  {
  }

  /** The next position starts out least of an empty stretch. */
  lemma NextPosition(times: seq<int>, p: seq<nat>, rank: seq<nat>, keys: seq<int>, i: nat)
    requires i < |times|
    ensures Sorting(times, p, rank, keys, i, 0) ==> Sorting(times, p, rank, keys, i, i + 1)
    ensures Sorting(times, p, rank, keys, i, |times|) ==> Sorting(times, p, rank, keys, i + 1, 0)
  {
  }

  /** The two nested loops: exchange sort of both arrays at once. */
  method SortTimes(start: array<int>, end: array<int>)
      returns (ghost p: seq<nat>, ghost prank: seq<nat>, ghost q: seq<nat>, ghost qrank: seq<nat>)
    requires start != end && start.Length == end.Length
    modifies start, end
    ensures Sorting(start[..], p, prank, old(start[..]), start.Length, 0)
    ensures Sorting(end[..], q, qrank, old(end[..]), end.Length, 0)
  {
    hide *;
    ghost var n, starts, ends := start.Length, start[..], end[..];
    p := seq(n, x => x);
    FirstRanks(starts, p);
    FirstRanks(ends, p);
    prank, q, qrank := p, p, p;
    for i := 0 to start.Length
      invariant Sorting(start[..], p, prank, starts, i, 0)
      invariant Sorting(end[..], q, qrank, ends, i, 0)
    {
      NextPosition(start[..], p, prank, starts, i);
      NextPosition(end[..], q, qrank, ends, i);
      for j := i + 1 to start.Length
        invariant Sorting(start[..], p, prank, starts, i, j)
        invariant Sorting(end[..], q, qrank, ends, i, j)
      {
        p, prank := CompareExchange(start, i, j, p, prank, starts);
        q, qrank := CompareExchange(end, i, j, q, qrank, ends);
      }
      NextPosition(start[..], p, prank, starts, i);
      NextPosition(end[..], q, qrank, ends, i);
    }
  }

  lemma SwapKeepsOrder(s: seq<int>, i: nat, j: nat)
    requires i < j < |s| && s[i] > s[j] && SortedUpTo(s, i, j)
    ensures SortedUpTo(Swap(s, i, j), i, j + 1)
  {
  }

  // The sweep.

  /** The first `s` meetings by start have rooms below `s - e`; a meeting whose end is not among the
      first `e` ends is the last one of its room. */
  ghost predicate Seated(intervals: seq<Interval>, prank: seq<nat>, qrank: seq<nat>, room: seq<nat>, s: nat, e: nat) {
    && |room| == |intervals| == |prank| == |qrank| && e <= s <= |intervals|
    && (forall m :: 0 <= m < |room| && prank[m] < s ==> room[m] < s - e)
    && (forall m, k :: 0 <= m < |room| && 0 <= k < |room| && m != k
                       && prank[m] < s && prank[k] < s && room[m] == room[k] ==>
          && !Overlap(intervals[m], intervals[k])
          && (qrank[k] >= e ==> intervals[m].1 <= intervals[k].0))
  }

  /** The meetings going on at time `t`. */
  ghost function ActiveAt(intervals: seq<Interval>, t: int): set<nat> {
    set m: nat | m < |intervals| && intervals[m].0 <= t < intervals[m].1
  }

  ghost predicate SomeTimeNeeds(intervals: seq<Interval>, n: nat) {
    n == 0 || exists t :: |ActiveAt(intervals, t)| >= n
  }

  ghost predicate InOrder(intervals: seq<Interval>, start: seq<int>, end: seq<int>,
                          p: seq<nat>, prank: seq<nat>, q: seq<nat>, qrank: seq<nat>) {
    && ProperIntervals(intervals)
    && Sorting(start, p, prank, Starts(intervals), |intervals|, 0)
    && Sorting(end, q, qrank, Ends(intervals), |intervals|, 0)
  }

  /** A meeting that starts when the `e`-th end has passed takes over that meeting's room. */
  lemma ReuseRoom(intervals: seq<Interval>, start: seq<int>, end: seq<int>, p: seq<nat>, prank: seq<nat>,
                  q: seq<nat>, qrank: seq<nat>, room: seq<nat>, s: nat, e: nat)
    requires InOrder(intervals, start, end, p, prank, q, qrank)
    requires s < |intervals| && Seated(intervals, prank, qrank, room, s, e) && start[s] >= end[e]
    ensures e < s && Seated(intervals, prank, qrank, room[p[s] := room[q[e]]], s + 1, e + 1)
  {
    var x, k := p[s], q[e];
    assert intervals[k].1 == end[e] && intervals[x].0 == start[s];
    assert start[prank[k]] == intervals[k].0 < start[s];
    assert prank[k] < s;
  }

  lemma OpenRoom(intervals: seq<Interval>, start: seq<int>, end: seq<int>, p: seq<nat>, prank: seq<nat>,
                 q: seq<nat>, qrank: seq<nat>, room: seq<nat>, s: nat, e: nat)
    requires InOrder(intervals, start, end, p, prank, q, qrank)
    requires s < |intervals| && Seated(intervals, prank, qrank, room, s, e)
    ensures Seated(intervals, prank, qrank, room[p[s] := s - e], s + 1, e)
  {
  }

  /** Meetings of rank below `n` are exactly `n` many. */
  lemma {:induction false} RankedBelow(times: seq<int>, p: seq<nat>, rank: seq<nat>, keys: seq<int>, n: nat)
    requires Ranked(times, p, rank, keys) && n <= |p|
    ensures |set m: nat | m < |p| && rank[m] < n| == n
  {
    var S := set m: nat | m < |p| && rank[m] < n;
    if n > 0 {
      RankedBelow(times, p, rank, keys, n - 1);
      assert S == (set m: nat | m < |p| && rank[m] < n - 1) + {p[n - 1]};
    } else {
      assert S == {};
    }
  }

  lemma StartedNotEnded(intervals: seq<Interval>, start: seq<int>, end: seq<int>, p: seq<nat>, prank: seq<nat>,
                        q: seq<nat>, qrank: seq<nat>, s: nat, e: nat, m: nat)
    requires InOrder(intervals, start, end, p, prank, q, qrank)
    requires s < |intervals| && e < |intervals| && start[s] < end[e]
    requires m < |intervals| && prank[m] <= s && qrank[m] >= e
    ensures m in ActiveAt(intervals, start[s])
  {
    assert start[prank[m]] == intervals[m].0 && start[prank[m]] <= start[s];
    assert end[qrank[m]] == intervals[m].1 && end[e] <= end[qrank[m]];
  }

  /** When no room is free, all the meetings started but not ended overlap at this start time. */
  lemma NoFreeRoom(intervals: seq<Interval>, start: seq<int>, end: seq<int>, p: seq<nat>, prank: seq<nat>,
                   q: seq<nat>, qrank: seq<nat>, s: nat, e: nat)
    requires InOrder(intervals, start, end, p, prank, q, qrank)
    requires e <= s < |intervals| && start[s] < end[e]
    ensures SomeTimeNeeds(intervals, s + 1 - e)
  {
    hide ActiveAt, SortedUpTo, ProperIntervals;
    var started := set m: nat | m < |p| && prank[m] < s + 1;
    var ended := set m: nat | m < |q| && qrank[m] < e;
    RankedBelow(start, p, prank, Starts(intervals), s + 1);
    RankedBelow(end, q, qrank, Ends(intervals), e);
    forall m | m in started - ended
      ensures m in ActiveAt(intervals, start[s])
    {
      StartedNotEnded(intervals, start, end, p, prank, q, qrank, s, e, m);
    }
    SubsetSize(started - ended, ActiveAt(intervals, start[s]));
    DifferenceSize(started, ended);
  }

  lemma DifferenceSize(A: set<nat>, B: set<nat>)
    ensures |A - B| >= |A| - |B|
  {
    assert A <= (A - B) + B;
    SubsetSize(A, (A - B) + B);
  }

  lemma {:induction false} DistinctRooms(room: seq<nat>, S: set<nat>, k: nat)
    requires forall m :: m in S ==> m < |room| && room[m] < k
    requires forall m, x :: m in S && x in S && m != x ==> room[m] != room[x]
    ensures |S| <= k
  {
    if k == 0 {
      if m :| m in S {
        assert false;
      }
    } else if m :| m in S && room[m] == k - 1 {
      DistinctRooms(room, S - {m}, k - 1);
    } else {
      DistinctRooms(room, S, k - 1);
    }
  }

  /** Meetings that overlap pairwise need a room each. */
  lemma OverlappingNeedRooms(intervals: seq<Interval>, room: seq<nat>, S: set<nat>, k: nat)
    requires Assignment(intervals, room, k)
    requires forall m :: m in S ==> m < |intervals|
    requires forall m, x :: m in S && x in S && m != x ==> Overlap(intervals[m], intervals[x])
    ensures |S| <= k
  {
    forall m, x | m in S && x in S && m != x
      ensures room[m] != room[x]
    {
      assert Overlap(intervals[m], intervals[x]) && Overlap(intervals[x], intervals[m]);
    }
    DistinctRooms(room, S, k);
  }

  /** After the sweep the rooms in use are enough, and some instant needs them all. */
  lemma Optimal(intervals: seq<Interval>, start: seq<int>, end: seq<int>, p: seq<nat>, prank: seq<nat>,
                q: seq<nat>, qrank: seq<nat>, room: seq<nat>, e: nat)
    requires InOrder(intervals, start, end, p, prank, q, qrank)
    requires Seated(intervals, prank, qrank, room, |intervals|, e)
    requires SomeTimeNeeds(intervals, |intervals| - e)
    ensures IsMinimumRooms(intervals, |intervals| - e)
  {
    var n := |intervals| - e;
    assert Assignment(intervals, room, n);
    forall other, k: nat | Assignment(intervals, other, k)
      ensures n <= k
    {
      if n > 0 {
        var t :| |ActiveAt(intervals, t)| >= n;
        OverlappingNeedRooms(intervals, other, ActiveAt(intervals, t), k);
      }
    }
  }

  lemma SweepStart(intervals: seq<Interval>, start: seq<int>, end: seq<int>, p: seq<nat>, prank: seq<nat>,
                   q: seq<nat>, qrank: seq<nat>, room: seq<nat>)
    requires InOrder(intervals, start, end, p, prank, q, qrank) && |room| == |intervals|
    ensures |start| == |end| == |intervals| && |p| == |q| == |intervals|
    ensures forall s :: 0 <= s < |intervals| ==> p[s] < |intervals| && q[s] < |intervals|
    ensures Seated(intervals, prank, qrank, room, 0, 0) && SomeTimeNeeds(intervals, 0)
  {
  }

  lemma IsInOrder(intervals: seq<Interval>, start: seq<int>, end: seq<int>,
                  p: seq<nat>, prank: seq<nat>, q: seq<nat>, qrank: seq<nat>)
    requires ProperIntervals(intervals) && |start| == |end| == |intervals|
    requires Sorting(start, p, prank, Starts(intervals), |start|, 0)
    requires Sorting(end, q, qrank, Ends(intervals), |end|, 0)
    ensures InOrder(intervals, start, end, p, prank, q, qrank)
  {
  }

  /** The second half of the algorithm: walk the start times, releasing one room per passed end time. */
  method Sweep(intervals: seq<Interval>, start: array<int>, end: array<int>,
               ghost p: seq<nat>, ghost prank: seq<nat>, ghost q: seq<nat>, ghost qrank: seq<nat>)
      returns (rooms: nat)
    requires start.Length == end.Length == |intervals|
    requires InOrder(intervals, start[..], end[..], p, prank, q, qrank)
    ensures IsMinimumRooms(intervals, rooms)
  {
    hide *;
    var s, e := 0, 0;
    rooms := 0;
    ghost var S, E := start[..], end[..];
    ghost var room: seq<nat> := seq(|intervals|, _ => 0);
    SweepStart(intervals, S, E, p, prank, q, qrank, room);
    while s < |intervals|
      invariant e <= s <= |intervals| && rooms == s - e && |room| == |intervals|
      invariant start[..] == S && end[..] == E
      invariant Seated(intervals, prank, qrank, room, s, e)
      invariant SomeTimeNeeds(intervals, rooms)
    {
      if start[s] >= end[e] {
        ReuseRoom(intervals, S, E, p, prank, q, qrank, room, s, e);
        room := room[p[s] := room[q[e]]];
        rooms := rooms - 1;
        e := e + 1;
      } else {
        OpenRoom(intervals, S, E, p, prank, q, qrank, room, s, e);
        NoFreeRoom(intervals, S, E, p, prank, q, qrank, s, e);
        room := room[p[s] := s - e];
      }
      rooms := rooms + 1;
      s := s + 1;
    }
    Optimal(intervals, S, E, p, prank, q, qrank, room, e);
  }

  method CopyTimes(intervals: seq<Interval>) returns (start: array<int>, end: array<int>)
    ensures fresh(start) && fresh(end) && start != end
    ensures start[..] == Starts(intervals) && end[..] == Ends(intervals)
  {
    start, end := new int[|intervals|], new int[|intervals|];
    for i := 0 to |intervals|
      invariant start[..i] == Starts(intervals)[..i] && end[..i] == Ends(intervals)[..i]
    {
      start[i], end[i] := intervals[i].0, intervals[i].1;
    }
  }

  method MinMeetingRooms(intervals: seq<Interval>) returns (rooms: nat)
    requires ProperIntervals(intervals)
    ensures IsMinimumRooms(intervals, rooms)
  {
    if |intervals| == 0 {
      assert Assignment(intervals, [], 0);
      return 0;
    }
    var start, end := CopyTimes(intervals);
    assert start.Length == |start[..]| == |intervals| == |end[..]| == end.Length;
    hide *;
    ghost var p, prank, q, qrank;
    p, prank, q, qrank := SortTimes(start, end);
    IsInOrder(intervals, start[..], end[..], p, prank, q, qrank);
    rooms := Sweep(intervals, start, end, p, prank, q, qrank);
  }
}
