// Rearranging sequences: the same elements in another order, and sorting by a key.
module Sequences {

  lemma SameElements<T>(s: seq<T>, t: seq<T>)
    requires multiset(s) == multiset(t)
    ensures (forall x :: x in s <==> x in t) && |s| == |t|
  {
    assert |multiset(s)| == |multiset(t)|;
    forall x
      ensures x in s <==> x in t
    {
      assert x in s <==> x in multiset(s);
      assert x in t <==> x in multiset(t);
    }
  }

  lemma ContainedIsShorter<T>(a: seq<T>, s: seq<T>)
    requires multiset(a) <= multiset(s)
    ensures |a| <= |s|
  {
    assert |multiset(s)| == |multiset(a)| + |multiset(s) - multiset(a)|;
  }

  function RemoveAt<T>(s: seq<T>, i: nat): seq<T>
    requires i < |s|
  {
    s[..i] + s[i + 1..]
  }

  lemma RemoveAtElements<T>(s: seq<T>, i: nat)
    requires i < |s|
    ensures multiset(RemoveAt(s, i)) == multiset(s) - multiset{s[i]}
  {
    assert s == s[..i] + [s[i]] + s[i + 1..];
  }

  /** An element of one arrangement can be removed from any other. */
  lemma RemoveFromBoth<T>(s: seq<T>, t: seq<T>, i: nat) returns (j: nat)
    requires multiset(s) == multiset(t) && i < |s|
    ensures j < |t| && t[j] == s[i] && multiset(RemoveAt(s, i)) == multiset(RemoveAt(t, j))
  {
    SameElements(s, t);
    assert s[i] in s;
    j :| 0 <= j < |t| && t[j] == s[i];
    RemoveAtElements(s, i);
    RemoveAtElements(t, j);
  }

  function Swap<T>(s: seq<T>, i: nat, j: nat): seq<T>
    requires i < |s| && j < |s|
  {
    s[i := s[j]][j := s[i]]
  }

  // Sorting by a key.

  ghost predicate Ascending<T>(key: T -> int, s: seq<T>) {
    forall i, j :: 0 <= i < j < |s| ==> key(s[i]) <= key(s[j])
  }

  lemma AppendAscending<T>(key: T -> int, l: seq<T>, r: seq<T>)
    requires Ascending(key, l) && Ascending(key, r) && forall x, y :: x in l && y in r ==> key(x) <= key(y)
    ensures Ascending(key, l + r)
  {
    forall i, j | 0 <= i < j < |l + r|
      ensures key((l + r)[i]) <= key((l + r)[j])
    {
      if i < |l| <= j {
        assert l[i] in l && r[j - |l|] in r;
      }
    }
  }

  function InsertBy<T>(key: T -> int, x: T, s: seq<T>): seq<T> {
    if s == [] || key(x) <= key(s[0]) then [x] + s else [s[0]] + InsertBy(key, x, s[1..])
  }

  function SortBy<T>(key: T -> int, s: seq<T>): seq<T> {
    if s == [] then [] else InsertBy(key, s[0], SortBy(key, s[1..]))
  }

  lemma {:induction false} InsertByKeepsElements<T>(key: T -> int, x: T, s: seq<T>)
    ensures multiset(InsertBy(key, x, s)) == multiset(s) + multiset{x}
  {
    if !(s == [] || key(x) <= key(s[0])) {
      InsertByKeepsElements(key, x, s[1..]);
      assert s == [s[0]] + s[1..];
    }
  }

  lemma LeastFirst<T>(key: T -> int, x: T, s: seq<T>)
    requires Ascending(key, s) && forall y :: y in multiset(s) ==> key(x) <= key(y)
    ensures Ascending(key, [x] + s)
  {
    assert forall j :: 0 <= j < |s| ==> s[j] in multiset(s);
  }

  lemma {:induction false} InsertByOrders<T>(key: T -> int, x: T, s: seq<T>)
    requires Ascending(key, s)
    ensures Ascending(key, InsertBy(key, x, s))
  {
    if s == [] || key(x) <= key(s[0]) {
      LeastFirst(key, x, s);
    } else {
      InsertByOrders(key, x, s[1..]);
      InsertByKeepsElements(key, x, s[1..]);
      LeastFirst(key, s[0], InsertBy(key, x, s[1..]));
    }
  }

  /** Sorting rearranges the elements into ascending order. */
  lemma {:induction false} SortByOrders<T>(key: T -> int, s: seq<T>)
    ensures Ascending(key, SortBy(key, s)) && multiset(SortBy(key, s)) == multiset(s)
  {
    if s != [] {
      SortByOrders(key, s[1..]);
      InsertByOrders(key, s[0], SortBy(key, s[1..]));
      InsertByKeepsElements(key, s[0], SortBy(key, s[1..]));
      assert s == [s[0]] + s[1..];
    }
  }

  /** Sorting leaves an ascending sequence as it is. */
  lemma {:induction false} AscendingStaysPut<T>(key: T -> int, s: seq<T>)
    requires Ascending(key, s)
    ensures SortBy(key, s) == s
  {
    if s != [] {
      AscendingStaysPut(key, s[1..]);
      assert s == [s[0]] + s[1..];
    }
  }
}
