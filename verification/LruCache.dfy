// The least-recently-used cache: a key-indexed map of list elements plus a recency list.
module LruCache {

  /** Key and value. */
  type Entry = (int, int)

  // What the cache means: an association list, most recently used first.

  ghost predicate HasKey(c: seq<Entry>, key: int) {
    exists i :: 0 <= i < |c| && c[i].0 == key
  }

  ghost predicate DistinctKeys(c: seq<Entry>) {
    forall i, j :: 0 <= i < j < |c| ==> c[i].0 != c[j].0
  }

  function Position(c: seq<Entry>, key: int): (i: nat)
    ensures i <= |c| && (i < |c| ==> c[i].0 == key) && (forall x :: 0 <= x < i ==> c[x].0 != key)
  {
    if c == [] || c[0].0 == key then 0 else 1 + Position(c[1..], key)
  }

  function Without(c: seq<Entry>, key: int): seq<Entry> {
    var i := Position(c, key);
    if i < |c| then c[..i] + c[i + 1..] else c
  }

  function Lookup(c: seq<Entry>, key: int): int {
    var i := Position(c, key);
    if i < |c| then c[i].1 else -1
  }

  /** Getting a present key moves it to the front. */
  function AfterGet(c: seq<Entry>, key: int): seq<Entry> {
    var i := Position(c, key);
    if i < |c| then [c[i]] + Without(c, key) else c
  }

  /** Putting a new key into a full cache drops the last entry. */
  function AfterPut(c: seq<Entry>, cap: int, key: int, value: int): seq<Entry> {
    if Position(c, key) < |c| then [(key, value)] + Without(c, key)
    else if |c| == cap && c != [] then [(key, value)] + c[..|c| - 1]
    else [(key, value)] + c
  }

  // The implementation.

  class Element {
    const key: int
    var val: int

    constructor (key: int, val: int)
      ensures this.key == key && this.val == val
    {
      this.key := key;
      this.val := val;
    }
  }

  ghost function Entries(l: seq<Element>): (c: seq<Entry>)
    reads l
    ensures |c| == |l| && forall i :: 0 <= i < |l| ==> c[i] == (l[i].key, l[i].val)
  {
    seq(|l|, i requires 0 <= i < |l| reads l => (l[i].key, l[i].val))
  }

  /** The map holds exactly the elements of the list, under their keys. */
  ghost predicate Indexed(l: seq<Element>, m: map<int, Element>) {
    && (forall i :: 0 <= i < |l| ==> l[i].key in m && m[l[i].key] == l[i])
    && (forall k :: k in m ==> m[k].key == k && m[k] in l)
    && (forall i, j :: 0 <= i < j < |l| ==> l[i].key != l[j].key)
  }

  /** The place of an element in the list. */
  function IndexIn(s: seq<Element>, e: Element): (i: nat)
    requires e in s
    ensures i < |s| && s[i] == e
  {
    if s[0] == e then 0 else 1 + IndexIn(s[1..], e)
  }

  /** The list with the element at `i` moved to the front. */
  function Rotated(l: seq<Element>, i: nat): seq<Element>
    requires i < |l|
  {
    [l[i]] + (l[..i] + l[i + 1..])
  }

  lemma RotatedAt(l: seq<Element>, i: nat)
    requires i < |l|
    ensures |Rotated(l, i)| == |l| && Rotated(l, i)[0] == l[i]
    ensures forall x :: 0 <= x < |l| ==> Rotated(l, i)[x] == if x == 0 then l[i] else if x <= i then l[x - 1] else l[x]
    ensures forall e :: e in l <==> e in Rotated(l, i)
  {
    assert l == l[..i] + [l[i]] + l[i + 1..];
  }

  lemma RotatedIsIndexed(l: seq<Element>, m: map<int, Element>, i: nat)
    requires i < |l| && Indexed(l, m)
    ensures Indexed(Rotated(l, i), m)
  {
    RotatedAt(l, i);
    hide Rotated;
  }

  lemma PositionInEntries(l: seq<Element>, m: map<int, Element>, i: nat)
    requires i < |l| && Indexed(l, m)
    ensures Position(Entries(l), l[i].key) == i
  {
  }

  lemma PositionIfAbsent(l: seq<Element>, m: map<int, Element>, key: int)
    requires Indexed(l, m) && key !in m
    ensures Position(Entries(l), key) == |l|
  {
  }

  lemma EntriesOfParts(l: seq<Element>, i: nat)
    requires i < |l|
    ensures Entries(l[..i]) == Entries(l)[..i] && Entries(l[i + 1..]) == Entries(l)[i + 1..]
    ensures Entries([l[i]]) == [Entries(l)[i]]
  {
  }

  lemma EntriesOfConcat(x: seq<Element>, y: seq<Element>)
    ensures Entries(x + y) == Entries(x) + Entries(y)
  {
  }

  lemma FrontAndRest(c: seq<Entry>, key: int, i: nat)
    requires Position(c, key) == i < |c|
    ensures AfterGet(c, key) == [c[i]] + (c[..i] + c[i + 1..])
  {
  }

  lemma RotatedEntries(l: seq<Element>, m: map<int, Element>, i: nat)
    requires i < |l| && Indexed(l, m)
    ensures Entries(Rotated(l, i)) == AfterGet(Entries(l), l[i].key)
  {
    PositionInEntries(l, m, i);
    EntriesOfParts(l, i);
    EntriesOfConcat(l[..i], l[i + 1..]);
    EntriesOfConcat([l[i]], l[..i] + l[i + 1..]);
    hide Entries, AfterGet, Position;
    FrontAndRest(Entries(l), l[i].key, i);
  }

  lemma PushIsIndexed(l: seq<Element>, m: map<int, Element>, e: Element)
    requires Indexed(l, m) && e.key !in m
    ensures Indexed([e] + l, m[e.key := e])
  {
    var l', m' := [e] + l, m[e.key := e];
    forall k | k in m'
      ensures m'[k].key == k && m'[k] in l'
    {
      if k != e.key {
        assert m[k] in l;
      }
    }
  }

  lemma PopIsIndexed(l: seq<Element>, m: map<int, Element>)
    requires l != [] && Indexed(l, m)
    ensures Indexed(l[..|l| - 1], m - {l[|l| - 1].key})
  {
    var n, m' := |l| - 1, m - {l[|l| - 1].key};
    forall k | k in m'
      ensures m'[k].key == k && m'[k] in l[..n]
    {
      var i :| 0 <= i < |l| && l[i] == m[k];
      assert i < n && l[..n][i] == m[k];
    }
  }

  class Cache {
    const cap: int
    var l: seq<Element>
    var m: map<int, Element>

    /** Map and list index each other, and the list is within capacity. */
    ghost predicate Valid()
      reads this
    {
      1 <= cap && |l| <= cap && Indexed(l, m)
    }

    ghost function Contents(): seq<Entry>
      reads this, l
    {
      Entries(l)
    }

    constructor (capacity: int)
      requires capacity >= 1
      ensures Valid() && Contents() == [] && cap == capacity && l == []
    {
      cap := capacity;
      l := [];
      m := map[];
    }

    method MoveToFront(e: Element)
      requires Valid() && e in l
      modifies this`l
      ensures Valid() && l == Rotated(old(l), IndexIn(old(l), e))
      ensures Contents() == AfterGet(old(Contents()), e.key)
      ensures |l| == |old(l)| && l[0] == e && forall x :: x in l <==> x in old(l)
    {
      hide *;
      var i := IndexIn(l, e);
      assert l[i] == e;
      RotatedKeeps(i);
      RotatedEntries(l, m, i);
      RotatedAt(l, i);
      ghost var c := Contents();
      assert c == Entries(l) by { ContentsAreEntries(); }
      assert Rotated(l, i)[0] == e;
      l := Rotated(l, i);
      ContentsAreEntries();
    }

    lemma ContentsAreEntries()
      ensures Contents() == Entries(l)
      ensures Valid() <==> 1 <= cap && |l| <= cap && Indexed(l, m)
    {
    }

    lemma RotatedKeeps(i: nat)
      requires Valid() && i < |l|
      ensures Indexed(l, m) && Indexed(Rotated(l, i), m) && 1 <= cap && |Rotated(l, i)| <= cap
    {
      RotatedIsIndexed(l, m, i);
    }

    method Get(key: int) returns (r: int)
      requires Valid()
      modifies this`l
      ensures Valid()
      ensures r == Lookup(old(Contents()), key)
      ensures Contents() == AfterGet(old(Contents()), key)
      ensures forall x :: x in l <==> x in old(l)
    {
      if key in m {
        var elem := m[key];
        PositionInEntries(l, m, IndexIn(l, elem));
        MoveToFront(elem);
        return elem.val;
      }
      PositionIfAbsent(l, m, key);
      return -1;
    }

    method Put(key: int, value: int)
      requires Valid()
      modifies this`l, this`m, l
      ensures Valid()
      ensures Contents() == AfterPut(old(Contents()), cap, key, value)
      ensures forall x :: x in l ==> x in old(l) || fresh(x)
    {
      if key in m {
        PutExisting(key, value);
      } else {
        PutNew(key, value);
      }
    }

    method PutExisting(key: int, value: int)
      requires Valid() && key in m
      modifies this`l, l
      ensures Valid()
      ensures Contents() == AfterPut(old(Contents()), cap, key, value)
      ensures forall x :: x in l ==> x in old(l)
    {
      hide *;
      ghost var c := Contents();
      ContentsAreEntries();
      var elem := m[key];
      IndexedElement(l, m, key);
      PositionInEntries(l, m, IndexIn(l, elem));
      MoveToFront(elem);
      ContentsAreEntries();
      ghost var c' := Entries(l);
      FirstKeyOnly(l, m);
      elem.val := value;
      ContentsAreEntries();
      assert Entries(l)[1..] == c'[1..];
      assert Entries(l) == [(key, value)] + c'[1..];
      PutPresent(c, cap, key, value);
    }

    method PutNew(key: int, value: int)
      requires Valid() && key !in m
      modifies this`l, this`m
      ensures Valid()
      ensures Contents() == AfterPut(old(Contents()), cap, key, value)
      ensures forall x :: x in l ==> x in old(l) || fresh(x)
    {
      hide Indexed;
      ghost var c := Contents();
      PositionIfAbsent(l, m, key);
      if |l| == cap {
        var back := l[|l| - 1];
        PopIsIndexed(l, m);
        l := l[..|l| - 1];
        m := m - {back.key};
      }
      var e := new Element(key, value);
      PushIsIndexed(l, m, e);
      l := [e] + l;
      m := m[key := e];
      assert Contents() == AfterPut(c, cap, key, value);
    }
  }

  lemma IndexedElement(l: seq<Element>, m: map<int, Element>, key: int)
    requires Indexed(l, m) && key in m
    ensures m[key] in l && m[key].key == key
  {
  }

  lemma PutPresent(c: seq<Entry>, cap: int, key: int, value: int)
    requires Position(c, key) < |c|
    ensures AfterGet(c, key) != [] && AfterPut(c, cap, key, value) == [(key, value)] + AfterGet(c, key)[1..]
  {
  }

  lemma FirstKeyOnly(l: seq<Element>, m: map<int, Element>)
    requires Indexed(l, m)
    ensures forall i :: 0 < i < |l| ==> l[i] != l[0]
  {
  }
}
