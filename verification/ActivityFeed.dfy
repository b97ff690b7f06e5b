// The dashboard's activity feed: each source gives its latest rows, cut to the
// limit, and the feed is the latest of those.
module ActivityFeed {
  import opened Sequences

  datatype Event = Event(at: int, kind: string, item: string)

  /** A timestamp of the database: a point in time, or one of the two infinite values. */
  datatype Time = NegInfinity | Finite(t: int) | Infinity

  /** A database row. All columns the sources read are declared not null, so the row fits the item's fields
      unless its time is infinite. */
  datatype Row = Row(at: Time, item: string)

  /** What the query of a source gives: an error, or rows. */
  datatype Answer = Failed | Rows(rows: seq<Row>)

  // Newest first, ties in any order.

  ghost predicate NewestFirst(s: seq<Event>) {
    forall i, j :: 0 <= i <= j < |s| ==> s[i].at >= s[j].at
  }

  /** `r` is the first `k` events of some newest-first arrangement of `all`. */
  ghost predicate IsLatest(all: multiset<Event>, k: nat, r: seq<Event>) {
    exists full :: IsArrangement(all, full) && r == Cut(full, k)
  }

  ghost predicate IsArrangement(all: multiset<Event>, full: seq<Event>) {
    NewestFirst(full) && multiset(full) == all
  }

  function Cut<T>(s: seq<T>, k: nat): seq<T> {
    if |s| > k then s[..k] else s
  }

  function Times(s: seq<Event>): seq<int> {
    seq(|s|, i requires 0 <= i < |s| => s[i].at)
  }

  // Sorting events.

  function Age(e: Event): int { -e.at }

  function SortEvents(s: seq<Event>): seq<Event> { SortBy(Age, s) }

  lemma NewestFirstIsAscending(s: seq<Event>)
    ensures NewestFirst(s) <==> Ascending(Age, s)
  {
    if Ascending(Age, s) {
      assert forall i, j :: 0 <= i < j < |s| ==> Age(s[i]) <= Age(s[j]);
    }
  }

  lemma SortEventsSorts(s: seq<Event>)
    ensures IsArrangement(multiset(s), SortEvents(s))
  {
    SortByOrders(Age, s);
    hide SortBy;
    NewestFirstIsAscending(SortEvents(s));
  }

  lemma AppendOlder(l: seq<Event>, r: seq<Event>)
    requires NewestFirst(l) && NewestFirst(r) && forall x, y :: x in l && y in r ==> x.at >= y.at
    ensures NewestFirst(l + r)
  {
    NewestFirstIsAscending(l);
    NewestFirstIsAscending(r);
    AppendAscending(Age, l, r);
    NewestFirstIsAscending(l + r);
  }

  // Cutting a source before merging loses nothing.

  /** If `a`, of length k, is among events arranged as `full`, the first k of `full` are no older than the
      last of `a`. */
  lemma FirstKAreAsNew(full: seq<Event>, a: seq<Event>, k: nat)
    requires NewestFirst(full) && NewestFirst(a) && multiset(a) <= multiset(full) && |a| == k > 0
    ensures k <= |full| && full[k - 1].at >= a[k - 1].at
  {
    ContainedIsShorter(a, full);
    if full[k - 1].at < a[k - 1].at {
      var front, back := full[..k - 1], full[k - 1..];
      assert full == front + back;
      forall x | x in multiset(a)
        ensures multiset(a)[x] <= multiset(front)[x]
      {
        OlderBehind(full, a, k, x);
        assert multiset(full)[x] == multiset(front)[x] + multiset(back)[x];
      }
      assert multiset(a) <= multiset(front);
      ContainedIsShorter(a, front);
      assert false;
    }
  }

  lemma OlderBehind(full: seq<Event>, a: seq<Event>, k: nat, x: Event)
    requires NewestFirst(full) && NewestFirst(a) && |a| == k > 0 && k <= |full| && x in multiset(a)
    requires full[k - 1].at < a[k - 1].at
    ensures x !in multiset(full[k - 1..])
  {
    var i :| 0 <= i < k && a[i] == x;
    assert a[i].at >= a[k - 1].at;
    forall y | y in full[k - 1..]
      ensures y.at <= full[k - 1].at
    {
      var j :| 0 <= j < |full[k - 1..]| && full[k - 1..][j] == y;
      assert full[k - 1].at >= full[k - 1 + j].at;
    }
  }

  /** The latest k of A and B can be found from the latest k of A alone and all of B. */
  lemma CutBeforeMerge(A: multiset<Event>, B: multiset<Event>, k: nat, a: seq<Event>, r: seq<Event>)
    requires IsLatest(A, k, a) && IsLatest(multiset(a) + B, k, r)
    ensures IsLatest(A + B, k, r)
  {
    var fullA: seq<Event> :| IsArrangement(A, fullA) && a == Cut(fullA, k);
    var full: seq<Event> :| IsArrangement(multiset(a) + B, full) && r == Cut(full, k);
    if |fullA| > k {
      var lost := fullA[k..];
      assert fullA == a + lost;
      ContainedIsShorter(a, full);
      NewerThanLost(fullA, full, k);
      AddOlder(full, lost, k);
      hide NewestFirst;
      assert multiset(full) + multiset(lost) == A + B;
    }
  }

  /** Events no newer than any of the first k change nothing: sorted in behind, they arrange everything. */
  lemma AddOlder(full: seq<Event>, lost: seq<Event>, k: nat)
    requires NewestFirst(full) && k <= |full| && forall x, y :: x in full[..k] && y in lost ==> x.at >= y.at
    ensures IsLatest(multiset(full) + multiset(lost), k, full[..k])
  {
    var first, rest := full[..k], full[k..];
    assert full == first + rest;
    var tail := SortEvents(rest + lost);
    SortEventsSorts(rest + lost);
    NewerThanTail(full, lost, k, tail);
    AppendOlder(first, tail);
    hide NewestFirst, SortEvents;
    Assoc(multiset(first), multiset(rest), multiset(lost));
    assert multiset(rest + lost) == multiset(rest) + multiset(lost);
    assert multiset(full) == multiset(first) + multiset(rest);
    assert IsArrangement(multiset(full) + multiset(lost), first + tail);
    assert Cut(first + tail, k) == first;
  }

  lemma NewerThanTail(full: seq<Event>, lost: seq<Event>, k: nat, tail: seq<Event>)
    requires NewestFirst(full) && k <= |full| && forall x, y :: x in full[..k] && y in lost ==> x.at >= y.at
    requires multiset(tail) == multiset(full[k..] + lost)
    ensures forall x, y :: x in full[..k] && y in tail ==> x.at >= y.at
  {
    SameElements(tail, full[k..] + lost);
    forall x, y | x in full[..k] && y in full[k..]
      ensures x.at >= y.at
    {
      var i :| 0 <= i < k && full[i] == x;
      var j :| 0 <= j < |full[k..]| && full[k..][j] == y;
      assert full[i].at >= full[k + j].at;
    }
  }

  lemma Assoc(x: multiset<Event>, y: multiset<Event>, z: multiset<Event>)
    ensures x + (y + z) == (x + y) + z
  {
  }

  lemma NewerThanLost(fullA: seq<Event>, full: seq<Event>, k: nat)
    requires NewestFirst(fullA) && NewestFirst(full) && k < |fullA|
    requires multiset(fullA[..k]) <= multiset(full) && k <= |full|
    ensures forall x, y :: x in full[..k] && y in fullA[k..] ==> x.at >= y.at
  {
    if k > 0 {
      FirstKAreAsNew(full, fullA[..k], k);
    }
    forall x, y | x in full[..k] && y in fullA[k..]
      ensures x.at >= y.at
    {
      var i :| 0 <= i < k && full[i] == x;
      var j :| 0 <= j < |fullA[k..]| && fullA[k..][j] == y;
      assert fullA[k - 1].at >= fullA[k + j].at;
      assert full[i].at >= full[k - 1].at;
    }
  }

  /** The times of the latest events do not depend on how ties are arranged. */
  lemma LatestTimesAgree(all: multiset<Event>, k: nat, r: seq<Event>, r': seq<Event>)
    requires IsLatest(all, k, r) && IsLatest(all, k, r')
    ensures Times(r) == Times(r')
  {
    var s: seq<Event> :| IsArrangement(all, s) && r == Cut(s, k);
    var t: seq<Event> :| IsArrangement(all, t) && r' == Cut(t, k);
    SameElements(s, t);
    forall i | 0 <= i < |s|
      ensures s[i].at == t[i].at
    {
      SameTimeAt(s, t, i);
    }
    hide NewestFirst;
    assert Times(r) == Times(r');
  }

  lemma SameTimeAt(s: seq<Event>, t: seq<Event>, i: nat)
    requires NewestFirst(s) && NewestFirst(t) && multiset(s) == multiset(t) && i < |s| == |t|
    ensures s[i].at == t[i].at
  {
    PrefixContained(s, i + 1);
    PrefixContained(t, i + 1);
    hide NewestFirst;
    FirstKAreAsNew(t, s[..i + 1], i + 1);
    FirstKAreAsNew(s, t[..i + 1], i + 1);
  }

  lemma PrefixContained(s: seq<Event>, n: nat)
    requires n <= |s|
    ensures multiset(s[..n]) <= multiset(s) && (NewestFirst(s) ==> NewestFirst(s[..n]))
  {
    assert s == s[..n] + s[n..];
  }

  lemma LatestShape(all: seq<Event>, k: nat, r: seq<Event>)
    requires IsLatest(multiset(all), k, r)
    ensures |r| == (if |all| < k then |all| else k) && NewestFirst(r)
  {
    var full: seq<Event> :| IsArrangement(multiset(all), full) && r == Cut(full, k);
    SameElements(all, full);
  }

  // Counting the events from a time on.

  function CountSince(s: seq<Event>, t: int): nat {
    if s == [] then 0 else (if s[0].at >= t then 1 else 0) + CountSince(s[1..], t)
  }

  lemma {:induction false} CountOfConcat(x: seq<Event>, y: seq<Event>, t: int)
    ensures CountSince(x + y, t) == CountSince(x, t) + CountSince(y, t)
  {
    if x == [] {
      assert x + y == y;
    } else {
      CountOfConcat(x[1..], y, t);
      assert (x + y)[1..] == x[1..] + y;
    }
  }

  lemma CountWithout(s: seq<Event>, j: nat, t: int)
    requires j < |s|
    ensures CountSince(s, t) == CountSince(RemoveAt(s, j), t) + if s[j].at >= t then 1 else 0
  {
    assert s == s[..j] + s[j..] && s[j..][1..] == s[j + 1..];
    CountOfConcat(s[..j], s[j..], t);
    CountOfConcat(s[..j], s[j + 1..], t);
  }

  lemma {:induction false} CountOfPermutation(x: seq<Event>, y: seq<Event>, t: int)
    requires multiset(x) == multiset(y)
    ensures CountSince(x, t) == CountSince(y, t)
    decreases |x|
  {
    hide CountSince;
    SameElements(x, y);
    if x == [] {
      assert x == y;
    } else {
      var j := RemoveFromBoth(x, y, 0);
      CountOfPermutation(RemoveAt(x, 0), RemoveAt(y, j), t);
      CountWithout(x, 0, t);
      CountWithout(y, j, t);
    }
  }

  lemma {:induction false} CountBounds(s: seq<Event>, t: int)
    ensures CountSince(s, t) <= |s|
    ensures forall e :: e in s && e.at >= t ==> CountSince(s, t) > 0
    ensures CountSince(s, t) == |s| ==> forall e :: e in s ==> e.at >= t
  {
    if s != [] {
      CountBounds(s[1..], t);
      assert s == [s[0]] + s[1..];
    }
  }

  lemma {:induction false} CountOfCut(full: seq<Event>, k: nat, t: int)
    requires NewestFirst(full)
    ensures CountSince(Cut(full, k), t) == if CountSince(full, t) < k then CountSince(full, t) else k
  {
    if full != [] {
      if k == 0 {
        assert Cut(full, 0) == [];
      } else {
        CountOfCut(full[1..], k - 1, t);
        var cut := Cut(full, k);
        assert cut != [] && cut[0] == full[0] && cut[1..] == Cut(full[1..], k - 1);
        if full[0].at < t {
          NoneSince(full, t);
          assert CountSince(full[1..], t) == 0;
        }
      }
    }
  }

  lemma NoneSince(full: seq<Event>, t: int)
    requires NewestFirst(full) && full != [] && full[0].at < t
    ensures CountSince(full, t) == 0
    decreases |full|
  {
    if |full| > 1 {
      NoneSince(full[1..], t);
    }
  }

  lemma {:induction false} CountOfTimes(r: seq<Event>, r': seq<Event>, t: int)
    requires Times(r) == Times(r')
    ensures CountSince(r, t) == CountSince(r', t)
  {
    assert |Times(r)| == |r| && |Times(r')| == |r'|;
    if r != [] {
      assert Times(r)[0] == r[0].at && Times(r')[0] == r'[0].at;
      assert Times(r[1..]) == Times(r)[1..] == Times(r')[1..] == Times(r'[1..]);
      CountOfTimes(r[1..], r'[1..], t);
    }
  }

  // When hidden events make a difference.

  /** Every hidden event has at least `k` shown ones that are as new. */
  predicate AllOutdone(shown: seq<Event>, hidden: seq<Event>, k: nat) {
    forall e :: e in hidden ==> CountSince(shown, e.at) >= k
  }

  /** `r` shows the times of the latest `k` events. */
  ghost predicate HasLatestTimes(all: multiset<Event>, k: nat, r: seq<Event>) {
    exists best :: IsLatest(all, k, best) && Times(best) == Times(r)
  }

  lemma OutdoneStaysLatest(shown: seq<Event>, hidden: seq<Event>, k: nat, r: seq<Event>)
    requires IsLatest(multiset(shown), k, r) && AllOutdone(shown, hidden, k)
    ensures IsLatest(multiset(shown) + multiset(hidden), k, r)
  {
    if hidden == [] {
      assert multiset(shown) + multiset(hidden) == multiset(shown);
    } else {
      var full: seq<Event> :| IsArrangement(multiset(shown), full) && r == Cut(full, k);
      forall e | e in hidden
        ensures k <= |full| && forall x :: x in full[..k] ==> x.at >= e.at
      {
        CountOfPermutation(shown, full, e.at);
        CountBounds(full, e.at);
        CountOfCut(full, k, e.at);
        CountBounds(Cut(full, k), e.at);
        hide CountSince, NewestFirst;
        assert |full| >= k && Cut(full, k) == full[..k];
      }
      assert hidden[0] in hidden;
      hide CountSince, NewestFirst;
      AddOlder(full, hidden, k);
    }
  }

  lemma LatestTimesOutdo(shown: seq<Event>, hidden: seq<Event>, k: nat, r: seq<Event>, e: Event)
    requires IsLatest(multiset(shown), k, r) && HasLatestTimes(multiset(shown) + multiset(hidden), k, r)
    requires e in hidden
    ensures CountSince(shown, e.at) >= k
  {
    var best :| IsLatest(multiset(shown) + multiset(hidden), k, best) && Times(best) == Times(r);
    var full: seq<Event> :| IsArrangement(multiset(shown), full) && r == Cut(full, k);
    var full': seq<Event> :| IsArrangement(multiset(shown) + multiset(hidden), full') && best == Cut(full', k);
    hide CountSince, Times, NewestFirst;
    CountOfPermutation(shown, full, e.at);
    CountOfPermutation(shown + hidden, full', e.at);
    CountOfConcat(shown, hidden, e.at);
    CountBounds(hidden, e.at);
    CountOfCut(full, k, e.at);
    CountOfCut(full', k, e.at);
    CountOfTimes(r, best, e.at);
  }

  /** A feed of the shown events is right about all events, even about their times alone, iff the hidden ones
      are outdone. */
  lemma FeedIsExactIff(shown: seq<Event>, hidden: seq<Event>, k: nat, r: seq<Event>)
    requires IsLatest(multiset(shown), k, r)
    ensures IsLatest(multiset(shown) + multiset(hidden), k, r) <==> AllOutdone(shown, hidden, k)
    ensures HasLatestTimes(multiset(shown) + multiset(hidden), k, r) <==> AllOutdone(shown, hidden, k)
  {
    hide IsLatest, CountSince, Times;
    if AllOutdone(shown, hidden, k) {
      OutdoneStaysLatest(shown, hidden, k, r);
    }
    if HasLatestTimes(multiset(shown) + multiset(hidden), k, r) {
      forall e | e in hidden
        ensures CountSince(shown, e.at) >= k
      {
        LatestTimesOutdo(shown, hidden, k, r, e);
      }
    }
  }

  // The sources.

  /** The events recorded in a list of rows: those with a point in time, labelled with the source's kind. */
  function EventsOf(kind: string, rows: seq<Row>): seq<Event> {
    if rows == [] then [] else EventOf(kind, rows[0]) + EventsOf(kind, rows[1..])
  }

  function EventOf(kind: string, row: Row): seq<Event> {
    if row.at.Finite? then [Event(row.at.t, kind, row.item)] else []
  }

  /** The events read from a result: the first row that does not fit closes it. */
  function ReadOf(kind: string, rows: seq<Row>): seq<Event> {
    if rows == [] || !rows[0].at.Finite? then []
    else [Event(rows[0].at.t, kind, rows[0].item)] + ReadOf(kind, rows[1..])
  }

  /** `x` stands before `y`, or may, when times descend. */
  predicate NotBefore(x: Time, y: Time) {
    x.Infinity? || y.NegInfinity? || (x.Finite? && y.Finite? && x.t >= y.t)
  }

  ghost predicate Descending(rows: seq<Row>) {
    forall i, j :: 0 <= i <= j < |rows| ==> NotBefore(rows[i].at, rows[j].at)
  }

  /** What ORDER BY time DESC LIMIT k may return for a table. */
  ghost predicate IsQueryResult(table: seq<Row>, k: nat, rows: seq<Row>) {
    exists full :: multiset(full) == multiset(table) && Descending(full) && rows == Cut(full, k)
  }

  /** The answer of a source: an error, or its latest rows. */
  ghost predicate Answers(table: seq<Row>, k: nat, answer: Answer) {
    answer.Rows? ==> IsQueryResult(table, k, answer.rows)
  }

  /** A row at infinity stands first in every result. */
  predicate Blocked(table: seq<Row>) {
    exists row :: row in table && row.at.Infinity?
  }

  lemma {:induction false} EventsOfConcat(kind: string, x: seq<Row>, y: seq<Row>)
    ensures EventsOf(kind, x + y) == EventsOf(kind, x) + EventsOf(kind, y)
  {
    if x == [] {
      assert x + y == y;
    } else {
      hide EventOf;
      EventsOfConcat(kind, x[1..], y);
      assert (x + y)[1..] == x[1..] + y && (x + y)[0] == x[0];
      var head, middle, tail := EventOf(kind, x[0]), EventsOf(kind, x[1..]), EventsOf(kind, y);
      assert head + (middle + tail) == (head + middle) + tail;
    }
  }

  lemma EventsWithout(kind: string, y: seq<Row>, j: nat)
    requires j < |y|
    ensures multiset(EventsOf(kind, y)) ==
            multiset(EventsOf(kind, RemoveAt(y, j))) + multiset(EventsOf(kind, [y[j]]))
  {
    assert y == y[..j] + ([y[j]] + y[j + 1..]);
    EventsOfConcat(kind, y[..j], y[j + 1..]);
    EventsOfConcat(kind, y[..j], [y[j]] + y[j + 1..]);
    EventsOfConcat(kind, [y[j]], y[j + 1..]);
  }

  lemma {:induction false} EventsOfPermutation(kind: string, x: seq<Row>, y: seq<Row>)
    requires multiset(x) == multiset(y)
    ensures multiset(EventsOf(kind, x)) == multiset(EventsOf(kind, y))
    decreases |x|
  {
    hide EventsOf;
    SameElements(x, y);
    if x == [] {
      assert x == y;
    } else {
      var j := RemoveFromBoth(x, y, 0);
      EventsOfPermutation(kind, RemoveAt(x, 0), RemoveAt(y, j));
      EventsWithout(kind, x, 0);
      EventsWithout(kind, y, j);
    }
  }

  /** The events of descending rows are newest first. */
  lemma {:induction false} EventsDescend(kind: string, rows: seq<Row>)
    requires Descending(rows)
    ensures NewestFirst(EventsOf(kind, rows))
    ensures forall e :: e in EventsOf(kind, rows) ==> rows != [] && NotBefore(rows[0].at, Finite(e.at))
  {
    if rows != [] {
      EventsDescend(kind, rows[1..]);
      var rest := EventsOf(kind, rows[1..]);
      assert |rows| > 1 ==> NotBefore(rows[0].at, rows[1].at);
      if rows[0].at.Finite? {
        AppendOlder([Event(rows[0].at.t, kind, rows[0].item)], rest);
      }
    }
  }

  lemma {:induction false} OnlyNegInfinity(kind: string, rows: seq<Row>)
    requires Descending(rows) && rows != [] && rows[0].at.NegInfinity?
    ensures EventsOf(kind, rows) == []
    decreases |rows|
  {
    assert |rows| > 1 ==> NotBefore(rows[0].at, rows[1].at);
    if |rows| > 1 {
      OnlyNegInfinity(kind, rows[1..]);
    }
  }

  /** Without a row at infinity, reading stops only where the events end. */
  lemma {:induction false} UnblockedIsReadWhole(kind: string, full: seq<Row>)
    requires Descending(full) && !Blocked(full)
    ensures ReadOf(kind, full) == EventsOf(kind, full)
  {
    if full != [] {
      assert full[0] in full;
      if full[0].at.Finite? {
        assert forall row :: row in full[1..] ==> row in full;
        UnblockedIsReadWhole(kind, full[1..]);
      } else {
        OnlyNegInfinity(kind, full);
      }
    }
  }

  lemma {:induction false} ReadOfCut(kind: string, full: seq<Row>, k: nat)
    ensures ReadOf(kind, Cut(full, k)) == Cut(ReadOf(kind, full), k)
  {
    if full != [] && k > 0 {
      ReadOfCut(kind, full[1..], k - 1);
      assert Cut(full, k)[0] == full[0] && Cut(full, k)[1..] == Cut(full[1..], k - 1);
      if full[0].at.Finite? {
        assert Cut(ReadOf(kind, full), k) == [ReadOf(kind, full)[0]] + Cut(ReadOf(kind, full[1..]), k - 1);
      }
    }
  }

  /** The events of a table that can show in the feed. */
  function Reachable(kind: string, table: seq<Row>): seq<Event> {
    if Blocked(table) then [] else EventsOf(kind, table)
  }

  /** What is read from a source is the latest of what can be reached, or nothing when its result is blocked. */
  lemma ReadIsLatest(kind: string, table: seq<Row>, k: nat, rows: seq<Row>)
    requires k >= 1 && IsQueryResult(table, k, rows)
    ensures IsLatest(multiset(Reachable(kind, table)), k, ReadOf(kind, rows))
  {
    var full: seq<Row> :| multiset(full) == multiset(table) && Descending(full) && rows == Cut(full, k);
    SameElements(full, table);
    if Blocked(table) {
      var row :| row in table && row.at.Infinity?;
      assert row in full;
      var i :| 0 <= i < |full| && full[i] == row;
      assert NotBefore(full[0].at, full[i].at);
      assert rows[0] == full[0];
      assert IsArrangement(multiset([]), []) && Cut([], k) == ReadOf(kind, rows);
    } else {
      EventsOfPermutation(kind, full, table);
      EventsDescend(kind, full);
      UnblockedIsReadWhole(kind, full);
      ReadOfCut(kind, full, k);
      assert IsArrangement(multiset(EventsOf(kind, table)), EventsOf(kind, full));
    }
  }

  /** A source never hides anything, whatever the other sources hold, iff no row at infinity blocks a recorded event. */
  lemma SourceIsExactIff(kind: string, table: seq<Row>, k: nat, rows: seq<Row>)
    requires k >= 1 && IsQueryResult(table, k, rows)
    ensures (forall B, r :: IsLatest(multiset(ReadOf(kind, rows)) + B, k, r) ==>
                              IsLatest(multiset(EventsOf(kind, table)) + B, k, r))
            <==> (Blocked(table) ==> EventsOf(kind, table) == [])
  {
    var read, whole := multiset(ReadOf(kind, rows)), multiset(EventsOf(kind, table));
    ReadIsLatest(kind, table, k, rows);
    if Blocked(table) ==> EventsOf(kind, table) == [] {
      assert Reachable(kind, table) == EventsOf(kind, table);
      forall B, r | IsLatest(read + B, k, r)
        ensures IsLatest(whole + B, k, r)
      {
        CutBeforeMerge(whole, B, k, ReadOf(kind, rows), r);
      }
    } else {
      LatestOfNothing(k, ReadOf(kind, rows));
      assert read + multiset{} == read && whole + multiset{} == whole;
      assert IsLatest(read + multiset{}, k, []);
      assert EventsOf(kind, table)[0] in whole;
      if IsLatest(whole + multiset{}, k, []) {
        LatestIsEmptyIff(whole, k, []);
      }
    }
  }

  lemma LatestOfNothing(k: nat, r: seq<Event>)
    requires IsLatest(multiset([]), k, r)
    ensures r == [] && IsLatest(multiset{}, k, [])
  {
    var full: seq<Event> :| IsArrangement(multiset([]), full) && r == Cut(full, k);
    assert |multiset(full)| == 0;
    assert IsArrangement(multiset{}, r) && Cut(r, k) == r;
  }

  lemma LatestIsEmptyIff(all: multiset<Event>, k: nat, r: seq<Event>)
    requires k >= 1 && IsLatest(all, k, r)
    ensures r == [] <==> all == multiset{}
  {
    var full: seq<Event> :| IsArrangement(all, full) && r == Cut(full, k);
    assert |multiset(full)| == |full|;
  }

  // All sources together.

  datatype Source = Source(kind: string, answer: Answer)

  function RowsOf(s: Source): seq<Row> {
    if s.answer.Rows? then s.answer.rows else []
  }

  /** The events read from the sources, from number `i` on. */
  function ReadFrom(sources: seq<Source>, i: nat): multiset<Event>
    requires i <= |sources|
    decreases |sources| - i
  {
    if i == |sources| then multiset{}
    else multiset(ReadOf(sources[i].kind, RowsOf(sources[i]))) + ReadFrom(sources, i + 1)
  }

  /** The events a source records, if it answered: shown unless a row at infinity blocks them, else hidden. */
  function RecordedBy(s: Source, table: seq<Row>): seq<Event> {
    if s.answer.Failed? then [] else EventsOf(s.kind, table)
  }

  function ShownBy(s: Source, table: seq<Row>): seq<Event> {
    if s.answer.Failed? then [] else Reachable(s.kind, table)
  }

  function HiddenBy(s: Source, table: seq<Row>): seq<Event> {
    if Blocked(table) then RecordedBy(s, table) else []
  }

  /** Collecting `part` over the first `n` sources and their tables. */
  function Collect(part: (Source, seq<Row>) -> seq<Event>, sources: seq<Source>, tables: seq<seq<Row>>,
                   n: nat): seq<Event>
    requires n <= |sources| == |tables|
  {
    if n == 0 then [] else Collect(part, sources, tables, n - 1) + part(sources[n - 1], tables[n - 1])
  }

  function Recorded(sources: seq<Source>, tables: seq<seq<Row>>): seq<Event>
    requires |sources| == |tables|
  {
    Collect(RecordedBy, sources, tables, |sources|)
  }

  function Shown(sources: seq<Source>, tables: seq<seq<Row>>): seq<Event>
    requires |sources| == |tables|
  {
    Collect(ShownBy, sources, tables, |sources|)
  }

  function Hidden(sources: seq<Source>, tables: seq<seq<Row>>): seq<Event>
    requires |sources| == |tables|
  {
    Collect(HiddenBy, sources, tables, |sources|)
  }

  lemma SourceIsShownOrHidden(s: Source, table: seq<Row>)
    ensures multiset(RecordedBy(s, table)) == multiset(ShownBy(s, table)) + multiset(HiddenBy(s, table))
  {
    hide EventsOf, Blocked;
  }

  /** Every recorded event is either shown or hidden. */
  lemma {:induction false} ShownAndHidden(sources: seq<Source>, tables: seq<seq<Row>>, n: nat)
    requires n <= |sources| == |tables|
    ensures multiset(Collect(RecordedBy, sources, tables, n)) ==
            multiset(Collect(ShownBy, sources, tables, n)) + multiset(Collect(HiddenBy, sources, tables, n))
  {
    hide *;
    if n == 0 {
      NoneCollected(RecordedBy, sources, tables);
      NoneCollected(ShownBy, sources, tables);
      NoneCollected(HiddenBy, sources, tables);
    } else {
      ShownAndHidden(sources, tables, n - 1);
      SourceIsShownOrHidden(sources[n - 1], tables[n - 1]);
      OneMoreSource(sources, tables, n);
    }
  }

  lemma OneMoreSource(sources: seq<Source>, tables: seq<seq<Row>>, n: nat)
    requires 0 < n <= |sources| == |tables|
    requires multiset(Collect(RecordedBy, sources, tables, n - 1)) ==
             multiset(Collect(ShownBy, sources, tables, n - 1)) + multiset(Collect(HiddenBy, sources, tables, n - 1))
    requires var s, table := sources[n - 1], tables[n - 1];
             multiset(RecordedBy(s, table)) == multiset(ShownBy(s, table)) + multiset(HiddenBy(s, table))
    ensures multiset(Collect(RecordedBy, sources, tables, n)) ==
            multiset(Collect(ShownBy, sources, tables, n)) + multiset(Collect(HiddenBy, sources, tables, n))
  {
    hide *;
    CollectStep(RecordedBy, sources, tables, n);
    CollectStep(ShownBy, sources, tables, n);
    CollectStep(HiddenBy, sources, tables, n);
    var s, table := sources[n - 1], tables[n - 1];
    Regroup4(multiset(Collect(ShownBy, sources, tables, n - 1)), multiset(Collect(HiddenBy, sources, tables, n - 1)),
             multiset(ShownBy(s, table)), multiset(HiddenBy(s, table)));
  }

  lemma Regroup4(s: multiset<Event>, h: multiset<Event>, s': multiset<Event>, h': multiset<Event>)
    ensures (s + h) + (s' + h') == (s + s') + (h + h')
  {
  }

  lemma {:induction false} NothingCollectedIff(part: (Source, seq<Row>) -> seq<Event>, sources: seq<Source>,
                                               tables: seq<seq<Row>>, n: nat)
    requires n <= |sources| == |tables|
    ensures Collect(part, sources, tables, n) == [] <==> forall i :: 0 <= i < n ==> part(sources[i], tables[i]) == []
  {
    if n > 0 {
      NothingCollectedIff(part, sources, tables, n - 1);
    }
  }

  /** Nothing is hidden iff no source that answered holds both a row at infinity and an event. */
  lemma NothingHiddenIff(sources: seq<Source>, tables: seq<seq<Row>>)
    requires |sources| == |tables|
    ensures Hidden(sources, tables) == [] <==>
            forall i :: 0 <= i < |sources| && sources[i].answer.Rows? && Blocked(tables[i]) ==>
              EventsOf(sources[i].kind, tables[i]) == []
  {
    hide Collect, EventsOf, Blocked;
    NothingCollectedIff(HiddenBy, sources, tables, |sources|);
  }

  ghost predicate Queried(sources: seq<Source>, tables: seq<seq<Row>>, k: nat) {
    && |sources| == |tables|
    && forall i :: 0 <= i < |sources| ==> Answers(tables[i], k, sources[i].answer)
  }

  /** Source by source, the rows read are replaced by all the events they are the latest of. */
  lemma {:induction false} LatestOfShown(sources: seq<Source>, tables: seq<seq<Row>>, k: nat, n: nat, r: seq<Event>)
    requires k >= 1 && |sources| == |tables| && Queried(sources, tables, k) && n <= |sources|
    requires IsLatest(ReadFrom(sources, 0), k, r)
    ensures IsLatest(multiset(Collect(ShownBy, sources, tables, n)) + ReadFrom(sources, n), k, r)
  {
    hide *;
    if n == 0 {
      NoneCollected(ShownBy, sources, tables);
      assert multiset([]) + ReadFrom(sources, 0) == ReadFrom(sources, 0);
    } else {
      LatestOfShown(sources, tables, k, n - 1, r);
      QueriedAt(sources, tables, k, n - 1);
      CollectStep(ShownBy, sources, tables, n);
      ReadStep(sources, n - 1);
      var done, rest := multiset(Collect(ShownBy, sources, tables, n - 1)), ReadFrom(sources, n);
      ReplaceSource(sources[n - 1], tables[n - 1], k, done, rest, r);
    }
  }

  lemma QueriedAt(sources: seq<Source>, tables: seq<seq<Row>>, k: nat, i: nat)
    requires |sources| == |tables| && Queried(sources, tables, k) && i < |sources|
    ensures Answers(tables[i], k, sources[i].answer)
  {
  }

  lemma NoneCollected(part: (Source, seq<Row>) -> seq<Event>, sources: seq<Source>, tables: seq<seq<Row>>)
    requires |sources| == |tables|
    ensures Collect(part, sources, tables, 0) == []
  {
  }

  lemma CollectStep(part: (Source, seq<Row>) -> seq<Event>, sources: seq<Source>, tables: seq<seq<Row>>, n: nat)
    requires 0 < n <= |sources| == |tables|
    ensures multiset(Collect(part, sources, tables, n)) ==
            multiset(Collect(part, sources, tables, n - 1)) + multiset(part(sources[n - 1], tables[n - 1]))
  {
  }

  lemma ReadStep(sources: seq<Source>, i: nat)
    requires i < |sources|
    ensures ReadFrom(sources, i) == multiset(ReadOf(sources[i].kind, RowsOf(sources[i]))) + ReadFrom(sources, i + 1)
  {
  }

  lemma ReplaceSource(s: Source, table: seq<Row>, k: nat, done: multiset<Event>, rest: multiset<Event>, r: seq<Event>)
    requires k >= 1 && Answers(table, k, s.answer)
    requires IsLatest(done + (multiset(ReadOf(s.kind, RowsOf(s))) + rest), k, r)
    ensures IsLatest((done + multiset(ShownBy(s, table))) + rest, k, r)
  {
    hide EventsOf, IsLatest, Reachable, IsQueryResult, ReadOf;
    var read, shown := multiset(ReadOf(s.kind, RowsOf(s))), multiset(ShownBy(s, table));
    Regroup(done, read, rest);
    Regroup(done, shown, rest);
    if s.answer.Rows? {
      ReadIsLatest(s.kind, table, k, s.answer.rows);
      CutBeforeMerge(shown, done + rest, k, ReadOf(s.kind, s.answer.rows), r);
    } else {
      NothingRead(s.kind);
    }
  }

  lemma Regroup(done: multiset<Event>, x: multiset<Event>, rest: multiset<Event>)
    ensures done + (x + rest) == x + (done + rest) == (done + x) + rest
  {
  }

  // The handler.

  /** The library sort by time; it is not stable, so ties may come out in any order. */
  method SortNewestFirst(all: seq<Event>) returns (r: seq<Event>)
    ensures IsArrangement(multiset(all), r)
  {
    r := SortEvents(all);
    SortEventsSorts(all);
  }

  /** A row that does not fit closes the result, so no further row comes. */
  method ReadRows(kind: string, rows: seq<Row>, before: seq<Event>) returns (all: seq<Event>)
    ensures all == before + ReadOf(kind, rows)
  {
    all := before;
    var next, closed := 0, false;
    while !closed && next < |rows|
      invariant next <= |rows|
      invariant all + (if closed then [] else ReadOf(kind, rows[next..])) == before + ReadOf(kind, rows)
    {
      var row := rows[next];
      assert rows[next..][0] == row && rows[next..][1..] == rows[next + 1..];
      next := next + 1;
      match row.at
      case Finite(t) =>
        all := all + [Event(t, kind, row.item)];
      case _ =>
        closed := true;
    }
  }

  method ReadSources(sources: seq<Source>) returns (all: seq<Event>)
    ensures multiset(all) == ReadFrom(sources, 0)
  {
    hide ReadOf;
    all := [];
    ghost var total := ReadFrom(sources, 0);
    for i := 0 to |sources|
      invariant multiset(all) + ReadFrom(sources, i) == total
    {
      var src := sources[i];
      if src.answer.Failed? {
        NothingRead(src.kind);
        continue;
      }
      all := ReadRows(src.kind, src.answer.rows, all);
    }
  }

  lemma NothingRead(kind: string)
    ensures multiset(ReadOf(kind, [])) == multiset{}
  {
  }

  method HandleActivity(requested: int, sources: seq<Source>, ghost tables: seq<seq<Row>>) returns (items: seq<Event>)
    requires Queried(sources, tables, if 1 <= requested <= 50 then requested else 8)
    ensures var k := if 1 <= requested <= 50 then requested else 8;
            var shown, recorded := Shown(sources, tables), multiset(Recorded(sources, tables));
            var exact := AllOutdone(shown, Hidden(sources, tables), k);
            && |items| == (if |shown| < k then |shown| else k)
            && NewestFirst(items) && IsLatest(multiset(shown), k, items)
            && (IsLatest(recorded, k, items) <==> exact)
            && (HasLatestTimes(recorded, k, items) <==> exact)
  {
    hide NewestFirst, EventsOf, CountSince, ReadOf, Reachable, HasLatestTimes;
    var limit := requested;
    if limit < 1 || limit > 50 { limit := 8; }
    var all := ReadSources(sources);
    all := SortNewestFirst(all);
    ghost var full := all;
    if |all| > limit {
      all := all[..limit];
    }
    items := all;
    assert items == Cut(full, limit);
    ghost var shown, hidden := Shown(sources, tables), Hidden(sources, tables);
    LatestOfShown(sources, tables, limit, |sources|, items);
    assert multiset(shown) + multiset{} == multiset(shown);
    LatestShape(shown, limit, items);
    ShownAndHidden(sources, tables, |sources|);
    FeedIsExactIff(shown, hidden, limit, items);
  }

  /** A row whose time is 'infinity' hides every event of its source, even when the source is not cut. */
  lemma InfiniteTimeHidesEvents(k: nat)
    requires k >= 2
    ensures var table := [Row(Infinity, "x"), Row(Finite(1), "y")];
            && IsQueryResult(table, k, table)
            && ReadOf("joined", table) == []
            && EventsOf("joined", table) == [Event(1, "joined", "y")]
            && !HasLatestTimes(multiset(EventsOf("joined", table)), k, ReadOf("joined", table))
  {
    var table := [Row(Infinity, "x"), Row(Finite(1), "y")];
    assert Descending(table) && Cut(table, k) == table;
    assert table[1..] == [Row(Finite(1), "y")] && table[1..][1..] == [];
    var all := multiset(EventsOf("joined", table));
    assert Event(1, "joined", "y") in all;
    forall best | IsLatest(all, k, best)
      ensures |Times(best)| > 0
    {
      LatestIsEmptyIff(all, k, best);
    }
  }
}
