// Nearly equal values at nearby positions: the bucket dictionary and the nested
// loops give the same answer.
module NearbyDuplicate {

  function Abs(x: int): (r: nat)
    ensures r >= x && r >= -x && (r == x || r == -x)
  {
    if x < 0 then -x else x
  }

  ghost predicate NearPair(nums: seq<int>, indexDiff: int, valueDiff: int, i: int, j: int) {
    0 <= i < j < |nums| && j - i <= indexDiff && Abs(nums[i] - nums[j]) <= valueDiff
  }

  ghost predicate HasNearPair(nums: seq<int>, indexDiff: int, valueDiff: int) {
    exists i, j :: NearPair(nums, indexDiff, valueDiff, i, j)
  }

  /** The nested loops (the Go solution), for all integer arguments. */
  method NestedLoops(nums: seq<int>, indexDiff: int, valueDiff: int) returns (r: bool)
    ensures r <==> HasNearPair(nums, indexDiff, valueDiff)
  {
    for i := 0 to |nums|
      invariant forall x, y :: x < i ==> !NearPair(nums, indexDiff, valueDiff, x, y)
    {
      var j := i + 1;
      while j <= i + indexDiff && j < |nums|
        invariant i < j && forall y :: y < j ==> !NearPair(nums, indexDiff, valueDiff, i, y)
        decreases |nums| - j
      {
        var diff := nums[i] - nums[j];
        if diff < 0 { diff := -diff; }
        if diff <= valueDiff {
          assert NearPair(nums, indexDiff, valueDiff, i, j);
          return true;
        }
        j := j + 1;
      }
    }
    return false;
  }

  // The bucket form: buckets of width w = valueDiff + 1, numbered by floor division.

  function Slot(x: int, w: int): int
    requires w > 0
  {
    x / w
  }

  /** Before position `i`: the dictionary holds exactly the last `indexDiff` elements, one per bucket. */
  ghost predicate HoldsWindow(nums: seq<int>, indexDiff: int, w: int, i: int, buckets: map<int, int>)
    requires w > 0
  {
    && 0 <= i <= |nums|
    && (forall m :: 0 <= m < i && i - indexDiff <= m ==>
          Slot(nums[m], w) in buckets && buckets[Slot(nums[m], w)] == nums[m])
    && (forall b :: b in buckets ==> exists m :: InWindow(nums, indexDiff, w, i, b, m))
    && (forall m, k :: 0 <= m < k < i && i - indexDiff <= m ==> Slot(nums[m], w) != Slot(nums[k], w))
  }

  /** Position `m` is among the last `indexDiff` before `i`, and its value falls in bucket `b`. */
  ghost predicate InWindow(nums: seq<int>, indexDiff: int, w: int, i: int, b: int, m: int)
    requires w > 0
  {
    0 <= m < i <= |nums| && i - indexDiff <= m && Slot(nums[m], w) == b
  }

  lemma NonNegativeProduct(x: nat, w: nat)
    ensures x * w >= 0
  {
  }

  lemma ScaleUp(p: int, q: int, w: int)
    requires w > 0 && p >= q + 2
    ensures p * w >= q * w + 2 * w
  {
    NonNegativeProduct(p - q - 2, w);
    assert (p - q - 2) * w == p * w - q * w - 2 * w;
  }

  /** Values in one bucket are close; close values lie in the same or neighbouring buckets. */
  lemma SlotsOfCloseValues(x: int, y: int, w: int)
    requires w > 0
    ensures Slot(x, w) == Slot(y, w) ==> Abs(x - y) < w
    ensures Abs(x - y) < w ==> -1 <= Slot(x, w) - Slot(y, w) <= 1
  {
    var p, q := x / w, y / w;
    assert x == p * w + x % w && y == q * w + y % w;
    if p >= q + 2 {
      ScaleUp(p, q, w);
    } else if p <= q - 2 {
      ScaleUp(q, p, w);
    }
  }

  /** Whether one of the three bucket tests succeeds for the value `n`. */
  predicate Close(buckets: map<int, int>, n: int, w: int, valueDiff: int)
    requires w > 0
  {
    var b := Slot(n, w);
    || b in buckets
    || (b - 1 in buckets && Abs(n - buckets[b - 1]) <= valueDiff)
    || (b + 1 in buckets && Abs(n - buckets[b + 1]) <= valueDiff)
  }

  lemma CloseGivesPair(nums: seq<int>, indexDiff: int, valueDiff: int, w: int, i: nat, buckets: map<int, int>)
    requires w == valueDiff + 1 > 0 && i < |nums| && HoldsWindow(nums, indexDiff, w, i, buckets)
    requires Close(buckets, nums[i], w, valueDiff)
    ensures HasNearPair(nums, indexDiff, valueDiff)
  {
    hide Slot, Abs;
    var n := nums[i];
    var s := Slot(n, w);
    var b := if s in buckets then s
             else if s - 1 in buckets && Abs(n - buckets[s - 1]) <= valueDiff then s - 1
             else s + 1;
    var m :| InWindow(nums, indexDiff, w, i, b, m);
    SlotsOfCloseValues(nums[m], n, w);
    AbsSymmetric(nums[m], n);
    assert NearPair(nums, indexDiff, valueDiff, m, i);
  }

  lemma AbsSymmetric(x: int, y: int)
    ensures Abs(x - y) == Abs(y - x)
  {
  }

  lemma PairGivesClose(nums: seq<int>, indexDiff: int, valueDiff: int, w: int, i: nat, buckets: map<int, int>, m: int)
    requires w == valueDiff + 1 > 0 && HoldsWindow(nums, indexDiff, w, i, buckets)
    requires NearPair(nums, indexDiff, valueDiff, m, i)
    ensures Close(buckets, nums[i], w, valueDiff)
  {
    hide Slot, Abs;
    SlotsOfCloseValues(nums[m], nums[i], w);
    AbsSymmetric(nums[m], nums[i]);
    assert Slot(nums[m], w) in buckets;
  }

  /** The dictionary after adding position `i` and deleting the element that leaves the window. */
  function Slid(nums: seq<int>, indexDiff: int, w: int, i: nat, buckets: map<int, int>): map<int, int>
    requires w > 0 && i < |nums| && indexDiff >= 0
  {
    var added := buckets[Slot(nums[i], w) := nums[i]];
    if i >= indexDiff then added - {Slot(nums[i - indexDiff], w)} else added
  }

  lemma SlideWindow(nums: seq<int>, indexDiff: int, w: int, i: nat, buckets: map<int, int>)
    requires w > 0 && i < |nums| && indexDiff >= 0 && HoldsWindow(nums, indexDiff, w, i, buckets)
    requires Slot(nums[i], w) !in buckets
    ensures i >= indexDiff ==> Slot(nums[i - indexDiff], w) in buckets[Slot(nums[i], w) := nums[i]]
    ensures HoldsWindow(nums, indexDiff, w, i + 1, Slid(nums, indexDiff, w, i, buckets))
  {
    hide Slot;
    var kept, next := Slid(nums, indexDiff, w, i, buckets), i + 1;
    forall m | 0 <= m < i && i - indexDiff <= m
      ensures Slot(nums[m], w) in buckets && Slot(nums[m], w) != Slot(nums[i], w)
    {
    }
    forall b | b in kept
      ensures exists m :: InWindow(nums, indexDiff, w, next, b, m)
    {
      if b == Slot(nums[i], w) {
        assert InWindow(nums, indexDiff, w, next, b, i);
      } else {
        var m :| InWindow(nums, indexDiff, w, i, b, m);
        assert InWindow(nums, indexDiff, w, next, b, m);
      }
    }
  }

  /** The bucket dictionary (the Python solution). */
  method BucketSearch(nums: seq<int>, indexDiff: int, valueDiff: int) returns (r: bool)
    requires indexDiff >= 0
    ensures r <==> HasNearPair(nums, indexDiff, valueDiff)
  {
    hide HoldsWindow;
    if valueDiff < 0 { return false; }
    var buckets: map<int, int> := map[];
    var w := valueDiff + 1;
    EmptyWindow(nums, indexDiff, w);
    for i := 0 to |nums|
      invariant HoldsWindow(nums, indexDiff, w, i, buckets)
      invariant forall x, y :: y < i ==> !NearPair(nums, indexDiff, valueDiff, x, y)
    {
      var n := nums[i];
      var b := n / w;
      if Close(buckets, n, w, valueDiff) {
        CloseGivesPair(nums, indexDiff, valueDiff, w, i, buckets);
      }
      if b in buckets { return true; }
      if b - 1 in buckets && Abs(n - buckets[b - 1]) <= valueDiff { return true; }
      if b + 1 in buckets && Abs(n - buckets[b + 1]) <= valueDiff { return true; }
      forall m | NearPair(nums, indexDiff, valueDiff, m, i)
        ensures false
      {
        PairGivesClose(nums, indexDiff, valueDiff, w, i, buckets, m);
      }
      SlideWindow(nums, indexDiff, w, i, buckets);
      buckets := buckets[b := n];
      if i >= indexDiff {
        assert nums[i - indexDiff] / w in buckets;
        buckets := buckets - {nums[i - indexDiff] / w};
      }
    }
    return false;
  }

  lemma EmptyWindow(nums: seq<int>, indexDiff: int, w: int)
    requires w > 0
    ensures HoldsWindow(nums, indexDiff, w, 0, map[])
  {
  }
}
