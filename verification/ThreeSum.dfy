// All distinct triples that sum to zero, by sorting and two pointers.
module ThreeSum {
  import opened Sequences
  import opened Sorting

  type Triple = (int, int, int)

  /** The same three values in non-decreasing order. */
  function Ordered(t: Triple): Triple {
    var lo, hi := Min(t.0, Min(t.1, t.2)), Max(t.0, Max(t.1, t.2));
    (lo, t.0 + t.1 + t.2 - lo - hi, hi)
  }

  function Min(x: int, y: int): int { if x <= y then x else y }

  function Max(x: int, y: int): int { if x <= y then y else x }

  /** `t` consists of the values at three different positions of `s`. */
  ghost predicate Picks(s: seq<int>, t: Triple) {
    exists i, j, k :: PicksAt(s, t, i, j, k)
  }

  ghost predicate PicksAt(s: seq<int>, t: Triple, i: int, j: int, k: int) {
    && 0 <= i < |s| && 0 <= j < |s| && 0 <= k < |s|
    && i != j && i != k && j != k
    && t == (s[i], s[j], s[k])
  }

  /** `res` lists the values of every zero-sum choice of three positions, and no values twice; the values of a triple
      do not descend, and the triples ascend. */
  ghost predicate IsSolution(s: seq<int>, res: seq<Triple>) {
    && (forall t :: t in res ==> t.0 + t.1 + t.2 == 0 && Picks(s, t) && t.0 <= t.1 <= t.2)
    && (forall t :: Picks(s, t) && t.0 + t.1 + t.2 == 0 ==> Ordered(t) in res)
    && (forall x, y :: 0 <= x < y < |res| ==> Ordered(res[x]) != Ordered(res[y]))
    && Rising(res)
  }

  predicate Before(t: Triple, u: Triple) {
    t.0 < u.0 || (t.0 == u.0 && t.1 < u.1)
  }

  ghost predicate Rising(res: seq<Triple>) {
    forall x, y :: 0 <= x < y < |res| ==> Before(res[x], res[y])
  }

  /** An input has only one solution: the list and its order are determined. */
  lemma SolutionIsUnique(s: seq<int>, res: seq<Triple>, res': seq<Triple>)
    requires IsSolution(s, res) && IsSolution(s, res')
    ensures res == res'
  {
    assert Rising(res) && Rising(res');
    hide *;
    forall t
      ensures t in res <==> t in res'
    {
      InEverySolution(s, res, res', t);
      InEverySolution(s, res', res, t);
    }
    RisingIsUnique(res, res');
  }

  lemma InEverySolution(s: seq<int>, res: seq<Triple>, res': seq<Triple>, t: Triple)
    requires IsSolution(s, res) && IsSolution(s, res')
    ensures t in res ==> t in res'
  {
    hide Picks, Rising;
    if t in res {
      assert Ordered(t) == t;
    }
  }

  lemma {:induction false} RisingIsUnique(res: seq<Triple>, res': seq<Triple>)
    requires Rising(res) && Rising(res') && forall t :: t in res <==> t in res'
    ensures res == res'
    decreases |res|
  {
    if res == [] {
      assert forall x :: 0 <= x < |res'| ==> res'[x] in res;
    } else {
      FirstOfRising(res, res');
      forall t
        ensures t in res[1..] <==> t in res'[1..]
      {
        RestOfRising(res, t);
        RestOfRising(res', t);
      }
      RisingIsUnique(res[1..], res'[1..]);
      assert res == [res[0]] + res[1..] && res' == [res'[0]] + res'[1..];
    }
  }

  lemma FirstOfRising(res: seq<Triple>, res': seq<Triple>)
    requires Rising(res) && Rising(res') && res != [] && forall t :: t in res <==> t in res'
    ensures res' != [] && res'[0] == res[0]
  {
    assert res[0] in res';
    var x :| 0 <= x < |res'| && res'[x] == res[0];
    assert res'[0] in res;
    var y :| 0 <= y < |res| && res[y] == res'[0];
  }

  lemma RestOfRising(res: seq<Triple>, t: Triple)
    requires Rising(res) && res != []
    ensures t in res[1..] <==> t in res && t != res[0]
  {
    assert res == [res[0]] + res[1..];
    if t in res[1..] {
      var x :| 0 <= x < |res[1..]| && res[1..][x] == t;
      assert Before(res[0], res[x + 1]);
    }
  }

  // Rearranging a sequence does not change what can be picked from it.

  /** The position of s[j] once position `i` is removed, and back. */
  function Close(i: int, j: int): int { if j < i then j else j - 1 }

  function Open(i: int, j: int): int { if j < i then j else j + 1 }

  lemma PicksFromPermutation(s: seq<int>, a: seq<int>, t: Triple)
    requires multiset(s) == multiset(a) && Picks(s, t)
    ensures Picks(a, t)
  {
    var i, j, k :| PicksAt(s, t, i, j, k);
    var i' := RemoveFromBoth(s, a, i);
    var s1, a1, j1, k1 := RemoveAt(s, i), RemoveAt(a, i'), Close(i, j), Close(i, k);
    var j1' := RemoveFromBoth(s1, a1, j1);
    var s2, a2, k2 := RemoveAt(s1, j1), RemoveAt(a1, j1'), Close(j1, k1);
    var k2' := RemoveFromBoth(s2, a2, k2);
    var k1' := Open(j1', k2');
    PositionsReopened(a, t, i', j1', k1');
  }

  lemma PositionsReopened(a: seq<int>, t: Triple, i: nat, j: nat, k: nat)
    requires i < |a| && j < |RemoveAt(a, i)| && k < |RemoveAt(a, i)| && j != k
    requires t == (a[i], RemoveAt(a, i)[j], RemoveAt(a, i)[k])
    ensures Picks(a, t)
  {
    assert PicksAt(a, t, i, Open(i, j), Open(i, k));
  }

  // The search on the sorted array.

  /** `t` is a zero-sum triple at positions p < q < r. */
  ghost predicate Hit(a: seq<int>, t: Triple, p: int, q: int, r: int) {
    0 <= p < q < r < |a| && t == (a[p], a[q], a[r]) && t.0 + t.1 + t.2 == 0
  }

  ghost predicate Sound(a: seq<int>, res: seq<Triple>) {
    forall t :: t in res ==> exists p, q, r :: Hit(a, t, p, q, r)
  }

  /** All hits with first position below `i` are collected. */
  ghost predicate CompleteBelow(a: seq<int>, res: seq<Triple>, i: int) {
    forall t, p, q, r :: Hit(a, t, p, q, r) && p < i ==> t in res
  }

  /** Of the hits with first position `i`, only pairs within [left, right] may be missing. */
  ghost predicate CompleteOutside(a: seq<int>, res: seq<Triple>, i: int, left: int, right: int) {
    forall t, q, r :: Hit(a, t, i, q, r) ==> t in res || left <= q < r <= right
  }

  /** A triple found from now on is new. */
  ghost predicate Fresh(a: seq<int>, res: seq<Triple>, i: int, left: int, right: int) {
    && 0 <= i < |a|
    && (forall t :: t in res ==> t.0 <= a[i])
    && (0 <= left < right < |a| ==> forall t :: t in res && t.0 == a[i] ==> t.1 < a[left])
  }

  ghost predicate Scan(a: seq<int>, res: seq<Triple>, i: int, left: int, right: int) {
    && i < left && right < |a| && left <= right + 2 && left <= |a| && i <= right
    && Sound(a, res) && Rising(res)
    && CompleteBelow(a, res, i) && CompleteOutside(a, res, i, left, right)
    && Fresh(a, res, i, left, right)
  }

  ghost predicate Outer(a: seq<int>, res: seq<Triple>, i: int) {
    && 0 <= i && Sound(a, res) && Rising(res) && CompleteBelow(a, res, i)
    && forall t :: t in res ==> 0 < i <= |a| && t.0 <= a[i - 1]
  }

  lemma SkipRepeated(a: seq<int>, res: seq<Triple>, i: int)
    requires Sorted(a) && Outer(a, res, i) && 0 < i < |a| && a[i] == a[i - 1]
    ensures Outer(a, res, i + 1)
  {
    forall t, p, q, r | Hit(a, t, p, q, r) && p < i + 1
      ensures t in res
    {
      if p == i {
        assert Hit(a, t, i - 1, q, r);
      }
    }
  }

  lemma StartScan(a: seq<int>, res: seq<Triple>, i: int)
    requires Sorted(a) && Outer(a, res, i) && i < |a| - 2 && (i > 0 ==> a[i] != a[i - 1])
    ensures Scan(a, res, i, i + 1, |a| - 1)
  {
  }

  lemma EndScan(a: seq<int>, res: seq<Triple>, i: int, left: int, right: int)
    requires Scan(a, res, i, left, right) && left >= right
    ensures Outer(a, res, i + 1)
  {
  }

  lemma TooSmall(a: seq<int>, res: seq<Triple>, i: int, left: int, right: int)
    requires Sorted(a) && Scan(a, res, i, left, right) && left < right && a[i] + a[left] + a[right] < 0
    ensures Scan(a, res, i, left + 1, right)
  {
    forall t, q, r | Hit(a, t, i, q, r)
      ensures t in res || left + 1 <= q < r <= right
    {
      assert r <= right ==> a[r] <= a[right];
    }
  }

  lemma TooLarge(a: seq<int>, res: seq<Triple>, i: int, left: int, right: int)
    requires Sorted(a) && Scan(a, res, i, left, right) && left < right && a[i] + a[left] + a[right] > 0
    ensures Scan(a, res, i, left, right - 1)
  {
    forall t, q, r | Hit(a, t, i, q, r)
      ensures t in res || left <= q < r <= right - 1
    {
      assert left <= q ==> a[left] <= a[q];
    }
  }

  /** After a hit, the repeats of both its values are skipped: l and r are the last ones in each direction. */
  lemma Found(a: seq<int>, res: seq<Triple>, i: int, left: int, right: int, l: int, r: int)
    requires Sorted(a) && Scan(a, res, i, left, right) && left < right && a[i] + a[left] + a[right] == 0
    requires left <= l <= r <= right
    requires a[l] == a[left] && a[r] == a[right]
    requires l < right ==> a[l] != a[l + 1] || l == r
    ensures Scan(a, res + [(a[i], a[left], a[right])], i, l + 1, r - 1)
  {
    var t0 := (a[i], a[left], a[right]);
    var res' := res + [t0];
    FoundIsNew(a, res, i, left, right);
    assert Sound(a, res') by {
      assert Hit(a, t0, i, left, right);
    }
    forall t, q, x | Hit(a, t, i, q, x)
      ensures t in res' || l + 1 <= q < x <= r - 1
    {
      if t !in res && q <= l {
        assert a[left] <= a[q] <= a[l];
        assert t == t0;
      } else if t !in res && x >= r {
        assert a[r] <= a[x] <= a[right];
        assert t == t0;
      }
    }
    FoundKeepsFresh(a, res, i, left, right, l, r);
  }

  lemma FoundIsNew(a: seq<int>, res: seq<Triple>, i: int, left: int, right: int)
    requires Scan(a, res, i, left, right) && left < right
    ensures Rising(res + [(a[i], a[left], a[right])])
  {
    var t0 := (a[i], a[left], a[right]);
    forall x | 0 <= x < |res|
      ensures Before(res[x], t0)
    {
      assert res[x] in res;
    }
  }

  lemma FoundKeepsFresh(a: seq<int>, res: seq<Triple>, i: int, left: int, right: int, l: int, r: int)
    requires Sorted(a) && Fresh(a, res, i, left, right) && 0 <= left < right < |a|
    requires left <= l <= r <= right && a[l] == a[left]
    requires l < right ==> a[l] != a[l + 1] || l == r
    ensures Fresh(a, res + [(a[i], a[left], a[right])], i, l + 1, r - 1)
  {
    if l + 1 < r - 1 {
      assert a[l] < a[l + 1];
    }
  }

  /** The two skipping loops after a hit. */
  method SkipRepeats(a: array<int>, left: int, right: int) returns (l: int, r: int)
    requires 0 <= left < right < a.Length
    ensures left <= l <= r <= right && a[l] == a[left] && a[r] == a[right]
    ensures l < right ==> a[l] != a[l + 1] || l == r
  {
    l, r := left, right;
    while l < r && a[l] == a[l + 1]
      invariant left <= l <= right && a[l] == a[left]
    {
      l := l + 1;
    }
    while l < r && a[r] == a[r - 1]
      invariant l <= r <= right && a[r] == a[right]
    {
      r := r - 1;
    }
  }

  /** The two-pointer loop for one first position. */
  method ScanPairs(a: array<int>, i: int, res0: seq<Triple>) returns (res: seq<Triple>)
    requires Sorted(a[..]) && Scan(a[..], res0, i, i + 1, a.Length - 1)
    ensures Outer(a[..], res, i + 1)
  {
    hide Sorted, Sound, Rising, CompleteBelow, CompleteOutside, Outer;
    var left, right := i + 1, a.Length - 1;
    res := res0;
    while left < right
      invariant Scan(a[..], res, i, left, right)
    {
      var sum := a[i] + a[left] + a[right];
      if sum == 0 {
        var l, r := SkipRepeats(a, left, right);
        Found(a[..], res, i, left, right, l, r);
        res := res + [(a[i], a[left], a[right])];
        left, right := l + 1, r - 1;
      } else if sum < 0 {
        TooSmall(a[..], res, i, left, right);
        left := left + 1;
      } else {
        TooLarge(a[..], res, i, left, right);
        right := right - 1;
      }
    }
    EndScan(a[..], res, i, left, right);
  }

  lemma HitsAreOrdered(a: seq<int>, res: seq<Triple>, t: Triple)
    requires Sorted(a) && Sound(a, res) && t in res
    ensures t.0 + t.1 + t.2 == 0 && Picks(a, t) && t.0 <= t.1 <= t.2 && Ordered(t) == t
  {
    var p, q, r :| Hit(a, t, p, q, r);
    assert PicksAt(a, t, p, q, r);
  }

  lemma InOrder(i: int, j: int, k: int) returns (p: int, q: int, r: int)
    requires i != j && i != k && j != k
    ensures p < q < r
    ensures (i, j, k) == (p, q, r) || (i, j, k) == (p, r, q) || (i, j, k) == (q, p, r) || (i, j, k) == (q, r, p)
            || (i, j, k) == (r, p, q) || (i, j, k) == (r, q, p)
  {
    p, r := Min(i, Min(j, k)), Max(i, Max(j, k));
    q := i + j + k - p - r;
  }

  /** In a sorted sequence the picked values, ordered, stand at increasing positions. */
  lemma PickIsHit(a: seq<int>, t: Triple)
    requires Sorted(a) && Picks(a, t) && t.0 + t.1 + t.2 == 0
    ensures exists p, q, r :: Hit(a, Ordered(t), p, q, r)
  {
    var i, j, k :| PicksAt(a, t, i, j, k);
    var p, q, r := InOrder(i, j, k);
    var x, y, z := a[p], a[q], a[r];
    assert x <= y <= z;
    hide Sorted;
    OrderedIsSorted(t, x, y, z);
    assert Hit(a, Ordered(t), p, q, r);
  }

  lemma OrderedIsSorted(t: Triple, x: int, y: int, z: int)
    requires x <= y <= z
    requires t == (x, y, z) || t == (x, z, y) || t == (y, x, z) || t == (y, z, x) || t == (z, x, y) || t == (z, y, x)
    ensures Ordered(t) == (x, y, z)
  {
  }

  lemma OuterGivesSolution(s: seq<int>, a: seq<int>, res: seq<Triple>, i: int)
    requires Sorted(a) && multiset(a) == multiset(s)
    requires Outer(a, res, i) && i >= |a| - 2
    ensures IsSolution(s, res)
  {
    hide Ordered, Picks, Sorted;
    forall t | t in res
      ensures t.0 + t.1 + t.2 == 0 && Picks(s, t) && t.0 <= t.1 <= t.2 && Ordered(t) == t
    {
      HitsAreOrdered(a, res, t);
      PicksFromPermutation(a, s, t);
    }
    forall t | Picks(s, t) && t.0 + t.1 + t.2 == 0
      ensures Ordered(t) in res
    {
      PicksFromPermutation(s, a, t);
      PickIsHit(a, t);
    }
    forall x, y | 0 <= x < y < |res|
      ensures Ordered(res[x]) != Ordered(res[y])
    {
      assert res[x] in res && res[y] in res && Before(res[x], res[y]);
    }
  }

  lemma NothingYet(a: seq<int>)
    ensures Outer(a, [], 0)
  {
  }

  method AllTriples(nums: array<int>) returns (res: seq<Triple>)
    modifies nums
    ensures nums[..] == SortedCopy(old(nums[..]))
    ensures IsSolution(old(nums[..]), res)
  {
    hide *;
    SortInts(nums);
    ghost var a := nums[..];
    res := [];
    NothingYet(a);
    var i := 0;
    while i < nums.Length - 2
      invariant nums[..] == a && Outer(a, res, i) && i >= 0
    {
      if i > 0 && nums[i] == nums[i - 1] {
        SkipRepeated(a, res, i);
      } else {
        StartScan(a, res, i);
        res := ScanPairs(nums, i, res);
      }
      i := i + 1;
    }
    OuterGivesSolution(old(nums[..]), a, res, i);
  }
}
