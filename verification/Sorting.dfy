// Sorted sequences of integers and the library sort the algorithms call.
module Sorting {
  import opened Sequences

  ghost predicate Sorted(s: seq<int>) {
    forall i, j :: 0 <= i <= j < |s| ==> s[i] <= s[j]
  }

  function Itself(x: int): int { x }

  lemma SortedIsAscending(s: seq<int>)
    ensures Sorted(s) <==> Ascending(Itself, s)
  {
    if Ascending(Itself, s) {
      assert forall i, j :: 0 <= i < j < |s| ==> Itself(s[i]) <= Itself(s[j]);
    }
  }

  lemma AppendSorted(l: seq<int>, r: seq<int>)
    requires Sorted(l) && Sorted(r) && forall x, y :: x in l && y in r ==> x <= y
    ensures Sorted(l + r)
  {
    SortedIsAscending(l);
    SortedIsAscending(r);
    AppendAscending(Itself, l, r);
    SortedIsAscending(l + r);
  }

  /** The sorted rearrangement of `s`. */
  function SortedCopy(s: seq<int>): (r: seq<int>)
    ensures Sorted(r) && multiset(r) == multiset(s) && |r| == |s|
  {
    SortByOrders(Itself, s);
    SortedIsAscending(SortBy(Itself, s));
    SameElements(SortBy(Itself, s), s);
    SortBy(Itself, s)
  }

  lemma WithoutHead(s: seq<int>)
    requires s != []
    ensures multiset(s[1..]) == multiset(s) - multiset{s[0]}
  {
    assert s == [s[0]] + s[1..];
  }

  /** There is only one sorted arrangement of given elements. */
  lemma {:induction false} SortedIsUnique(s: seq<int>, t: seq<int>)
    requires Sorted(s) && Sorted(t) && multiset(s) == multiset(t)
    ensures s == t
    decreases |s|
  {
    SameElements(s, t);
    if s != [] {
      FirstIsLeast(s, t, s[0]);
      WithoutHead(s);
      WithoutHead(t);
      SortedIsUnique(s[1..], t[1..]);
      assert s == [s[0]] + s[1..] && t == [t[0]] + t[1..];
    }
  }

  lemma FirstIsLeast(s: seq<int>, t: seq<int>, m: int)
    requires Sorted(t) && multiset(s) == multiset(t)
    requires m in s && forall x :: x in s ==> m <= x
    ensures t != [] && t[0] == m
  {
    SameElements(s, t);
    var k :| 0 <= k < |t| && t[k] == m;
    assert t[0] in s;
  }

  lemma LastIsGreatest(s: seq<int>, t: seq<int>, m: int)
    requires Sorted(t) && multiset(s) == multiset(t)
    requires m in s && forall x :: x in s ==> x <= m
    ensures t != [] && t[|t| - 1] == m
  {
    SameElements(s, t);
    var k :| 0 <= k < |t| && t[k] == m;
    assert t[|t| - 1] in s;
  }

  /** The library sort: rearranges the array into sorted order. */
  method SortInts(a: array<int>)
    modifies a
    ensures a[..] == SortedCopy(old(a[..]))
  {
    var r := SortedCopy(a[..]);
    forall i | 0 <= i < a.Length {
      a[i] := r[i];
    }
    assert a[..] == r;
  }
}
