// The next lexicographic permutation, in place.
module NextPermutation {
  import opened Sequences
  import opened Sorting

  ghost predicate IsPermutation(s: seq<int>, t: seq<int>) {
    multiset(s) == multiset(t)
  }

  /** The sequences first differ at `d`, and `s` is smaller there. */
  ghost predicate LessAt(s: seq<int>, t: seq<int>, d: int) {
    0 <= d < |s| == |t| && s[..d] == t[..d] && s[d] < t[d]
  }

  ghost predicate Less(s: seq<int>, t: seq<int>) {
    exists d :: LessAt(s, t, d)
  }

  ghost predicate IsLast(s: seq<int>) {
    forall t :: IsPermutation(s, t) ==> !Less(s, t)
  }

  ghost predicate Descending(s: seq<int>) {
    forall i, j :: 0 <= i < j < |s| ==> s[i] >= s[j]
  }

  /** `t` is the immediate successor of `s` among its permutations, or, after the last one, the sorted order. */
  ghost predicate IsNext(s: seq<int>, t: seq<int>) {
    && IsPermutation(s, t)
    && if IsLast(s) then Sorted(t)
       else Less(s, t) && forall u :: IsPermutation(s, u) && Less(s, u) ==> !Less(u, t)
  }

  // Permutations that share a prefix.

  lemma SuffixesArePermutations(s: seq<int>, t: seq<int>, d: nat)
    requires IsPermutation(s, t) && d <= |s| && d <= |t| && s[..d] == t[..d]
    ensures IsPermutation(s[d..], t[d..]) && |s| == |t|
  {
    assert s == s[..d] + s[d..] && t == t[..d] + t[d..];
    assert multiset(s[d..]) == multiset(s) - multiset(s[..d]);
    assert multiset(t[d..]) == multiset(t) - multiset(t[..d]);
    assert |multiset(s)| == |s| && |multiset(t)| == |t|;
  }

  /** With a shared prefix, the value of `t` at position d occurs in `s` at or after d. */
  lemma ValueFromSuffix(s: seq<int>, t: seq<int>, d: nat) returns (k: nat)
    requires IsPermutation(s, t) && d < |t| && d <= |s| && s[..d] == t[..d]
    ensures d <= k < |s| && s[k] == t[d]
  {
    SuffixesArePermutations(s, t, d);
    assert t[d..][0] in multiset(t[d..]);
    assert t[d] in multiset(s[d..]);
    assert t[d] in s[d..];
    var x :| 0 <= x < |s[d..]| && s[d..][x] == t[d];
    k := d + x;
  }

  lemma LessIsAsymmetric(s: seq<int>, t: seq<int>, d: int)
    requires LessAt(s, t, d)
    ensures !Less(t, s)
  {
    forall e | 0 <= e < |s|
      ensures !LessAt(t, s, e)
    {
      if e < d {
        assert s[e] == s[..d][e] == t[..d][e] == t[e];
      } else if e > d {
        assert s[..e][d] != t[..e][d];
      }
    }
  }

  /** Of the permutations sharing a prefix, the one whose suffix descends is greatest. */
  lemma DescendingSuffixIsLast(s: seq<int>, t: seq<int>, i: nat)
    requires IsPermutation(s, t) && i <= |s| && i <= |t| && s[..i] == t[..i] && Descending(s[i..])
    ensures !Less(s, t)
  {
    forall d | 0 <= d < |s| == |t| && s[..d] == t[..d]
      ensures s[d] >= t[d]
    {
      if d < i {
        assert s[d] == s[..i][d] == t[..i][d] == t[d];
      } else {
        var k := ValueFromSuffix(s, t, d);
        assert s[k] == s[i..][k - i] && s[d] == s[i..][d - i];
      }
    }
  }

  /** ... and the one whose suffix ascends is least. */
  lemma AscendingSuffixIsFirst(s: seq<int>, t: seq<int>, i: nat)
    requires IsPermutation(s, t) && i <= |s| && i <= |t| && s[..i] == t[..i] && Sorted(s[i..])
    ensures !Less(t, s)
  {
    forall d | 0 <= d < |s| == |t| && s[..d] == t[..d]
      ensures s[d] <= t[d]
    {
      if d < i {
        assert s[d] == s[..i][d] == t[..i][d] == t[d];
      } else {
        var k := ValueFromSuffix(s, t, d);
        assert s[k] == s[i..][k - i] && s[d] == s[i..][d - i];
      }
    }
  }

  // The three steps of the algorithm.

  /** Position i is the last one followed by something larger; j is the last position holding something
      larger than s[i]. */
  ghost predicate Pivot(s: seq<int>, i: int, j: int) {
    && 0 <= i < j < |s| && Descending(s[i + 1..])
    && s[i] < s[j] && forall k :: j < k < |s| ==> s[k] <= s[i]
  }

  function Reverse(s: seq<int>): (r: seq<int>)
    ensures |r| == |s| && forall k :: 0 <= k < |s| ==> r[k] == s[|s| - 1 - k]
  {
    if s == [] then [] else Reverse(s[1..]) + [s[0]]
  }

  lemma {:induction false} ReverseIsPermutation(s: seq<int>)
    ensures IsPermutation(s, Reverse(s))
    decreases |s|
  {
    if s != [] {
      ReverseIsPermutation(s[1..]);
      assert s == [s[0]] + s[1..];
    }
  }

  /** Exchange positions i and j, then reverse what follows i. */
  function Successor(s: seq<int>, i: nat, j: nat): seq<int>
    requires i < j < |s|
  {
    Swap(s, i, j)[..i + 1] + Reverse(Swap(s, i, j)[i + 1..])
  }

  lemma SwappedIsPermutation(s: seq<int>, i: nat, j: nat)
    requires i < j < |s|
    ensures IsPermutation(s, Swap(s, i, j))
  {
  }

  lemma ReversedSuffixIsPermutation(s: seq<int>, i: nat)
    requires i <= |s|
    ensures IsPermutation(s, s[..i] + Reverse(s[i..]))
  {
    assert s == s[..i] + s[i..];
    ReverseIsPermutation(s[i..]);
  }

  lemma SuccessorShape(s: seq<int>, i: nat, j: nat)
    requires Pivot(s, i, j)
    ensures IsPermutation(s, Successor(s, i, j)) && |Successor(s, i, j)| == |s|
    ensures Successor(s, i, j)[..i] == s[..i] && Successor(s, i, j)[i] == s[j]
    ensures Sorted(Successor(s, i, j)[i + 1..])
  {
    var w := Swap(s, i, j);
    SwappedIsPermutation(s, i, j);
    ReversedSuffixIsPermutation(w, i + 1);
    assert Successor(s, i, j)[i + 1..] == Reverse(w[i + 1..]);
    SwapKeepsDescending(s, i, j);
    assert Successor(s, i, j)[..i] == w[..i] == s[..i];
  }

  lemma SwapKeepsDescending(s: seq<int>, i: nat, j: nat)
    requires Pivot(s, i, j)
    ensures Descending(Swap(s, i, j)[i + 1..])
  {
    var tail, w := s[i + 1..], Swap(s, i, j)[i + 1..];
    forall x, y | 0 <= x < y < |w|
      ensures w[x] >= w[y]
    {
      assert tail[x] >= tail[y] && (x < j - i - 1 ==> tail[x] >= tail[j - i - 1]);
      assert tail[x] == s[i + 1 + x] && tail[y] == s[i + 1 + y];
    }
  }

  /** The values after i that exceed s[i] are at least s[j]. */
  lemma LeastLarger(s: seq<int>, i: nat, j: nat, k: nat)
    requires Pivot(s, i, j) && i < k < |s| && s[k] > s[i]
    ensures s[k] >= s[j]
  {
    assert k <= j;
    assert s[i + 1..][k - i - 1] == s[k] && s[i + 1..][j - i - 1] == s[j];
  }

  /** A permutation above `s` first exceeds it at or before i. */
  lemma ExceedsByPivot(s: seq<int>, i: nat, j: nat, u: seq<int>) returns (d: nat)
    requires Pivot(s, i, j) && IsPermutation(s, u) && Less(s, u)
    ensures d <= i && LessAt(s, u, d)
  {
    d :| LessAt(s, u, d);
    if d > i {
      assert s[..i + 1] == s[..d][..i + 1] == u[..d][..i + 1] == u[..i + 1];
      DescendingSuffixIsLast(s, u, i + 1);
      assert false;
    }
  }

  /** A sequence that exceeds `s` before i, where `t` still agrees with `s`, exceeds `t` there too. */
  lemma ExceedsBoth(s: seq<int>, t: seq<int>, u: seq<int>, i: nat, d: nat)
    requires d < i <= |s| == |t| && s[..i] == t[..i] && LessAt(s, u, d)
    ensures LessAt(t, u, d)
  {
    assert t[..d] == t[..i][..d] == s[..i][..d] == s[..d];
    assert t[d] == t[..i][d] == s[..i][d] == s[d];
  }

  /** `t` holds the least value allowed at i and ascends behind it: nothing that exceeds `s` at i is below `t`. */
  lemma NotBelow(s: seq<int>, t: seq<int>, u: seq<int>, i: nat)
    requires i < |s| == |t| && s[..i] == t[..i] && LessAt(s, u, i) && u[i] >= t[i]
    requires IsPermutation(t, u) && Sorted(t[i + 1..])
    ensures !Less(u, t)
  {
    if u[i] > t[i] {
      LessIsAsymmetric(t, u, i);
    } else {
      assert t[..i + 1] == t[..i] + [t[i]] == u[..i] + [u[i]] == u[..i + 1];
      AscendingSuffixIsFirst(t, u, i + 1);
    }
  }

  /** Between `s` and its successor there is no permutation. */
  lemma NothingBetween(s: seq<int>, i: nat, j: nat, u: seq<int>)
    requires Pivot(s, i, j) && IsPermutation(s, u) && Less(s, u)
    ensures !Less(u, Successor(s, i, j))
  {
    var t := Successor(s, i, j);
    SuccessorShape(s, i, j);
    var d := ExceedsByPivot(s, i, j, u);
    hide Successor, Less, Sorted;
    if d < i {
      ExceedsBoth(s, t, u, i, d);
      LessIsAsymmetric(t, u, d);
    } else {
      var k := ValueFromSuffix(s, u, i);
      LeastLarger(s, i, j, k);
      NotBelow(s, t, u, i);
    }
  }

  lemma PivotGivesNext(s: seq<int>, i: nat, j: nat)
    requires Pivot(s, i, j)
    ensures IsNext(s, Successor(s, i, j))
  {
    var t := Successor(s, i, j);
    SuccessorShape(s, i, j);
    assert LessAt(s, t, i);
    forall u | IsPermutation(s, u) && Less(s, u)
      ensures !Less(u, t)
    {
      NothingBetween(s, i, j, u);
    }
  }

  /** A descending sequence is the last permutation, and its reversal the sorted one. */
  lemma LastGivesSorted(s: seq<int>)
    requires Descending(s)
    ensures IsLast(s) && Sorted(Reverse(s)) && IsNext(s, Reverse(s))
  {
    assert s[0..] == s;
    forall t | IsPermutation(s, t)
      ensures !Less(s, t)
    {
      DescendingSuffixIsLast(s, t, 0);
    }
    ReverseIsPermutation(s);
  }

  lemma DescendingGrows(s: seq<int>, i: nat)
    requires i + 1 < |s| && Descending(s[i + 1..]) && s[i] >= s[i + 1]
    ensures Descending(s[i..])
  {
    var tail := s[i + 1..];
    assert s[i..] == [s[i]] + tail;
    assert forall k :: 0 < k < |tail| ==> tail[0] >= tail[k];
  }

  /** Half-way through reversing s[from..]: cells outside [l, r] are final. */
  ghost predicate HalfReversed(s: seq<int>, a: seq<int>, from: int, l: int, r: int) {
    && |a| == |s| && 0 <= from <= l <= r + 2 && l - from == |s| - 1 - r && l <= |s|
    && (forall k :: 0 <= k < |s| && (k < from || l <= k <= r) ==> a[k] == s[k])
    && (forall k :: from <= k < |s| && (k < l || r < k) ==> a[k] == s[from + (|s| - 1 - k)])
  }

  lemma FullyReversed(s: seq<int>, a: seq<int>, from: int, l: int, r: int)
    requires HalfReversed(s, a, from, l, r) && l >= r
    ensures a == s[..from] + Reverse(s[from..])
  {
  }

  method ReverseFrom(a: array<int>, from: int)
    requires -1 <= from <= a.Length && (from < 0 ==> a.Length == 0)
    modifies a
    ensures from >= 0 ==> a[..] == old(a[..from]) + Reverse(old(a[from..]))
    ensures from < 0 ==> a[..] == old(a[..])
  {
    var l, r := from, a.Length - 1;
    ghost var s := a[..];
    while l < r
      invariant from >= 0 ==> HalfReversed(s, a[..], from, l, r)
      invariant from < 0 ==> l == from && r == a.Length - 1
    {
      a[l], a[r] := a[r], a[l];
      l, r := l + 1, r - 1;
    }
    if from >= 0 {
      FullyReversed(s, a[..], from, l, r);
    }
  }

  /** What the first loop has passed: a descending suffix. */
  ghost predicate Passed(s: seq<int>, i: int) {
    if s == [] then i == -2 else -1 <= i < |s| - 1 && Descending(s[i + 1..])
  }

  lemma PassOne(s: seq<int>, i: int)
    requires Passed(s, i) && i >= 0 && s[i] >= s[i + 1]
    ensures Passed(s, i - 1)
  {
    DescendingGrows(s, i);
  }

  /** The first loop: the last position followed by something larger, or below 0 if there is none. */
  method FindDescent(nums: array<int>) returns (i: int)
    ensures -2 <= i < nums.Length && Passed(nums[..], i)
    ensures i >= 0 ==> i + 1 < nums.Length && nums[i] < nums[i + 1]
  {
    hide Descending;
    i := nums.Length - 2;
    LastDescends(nums[..]);
    while i >= 0 && nums[i] >= nums[i + 1]
      invariant -2 <= i < nums.Length - 1 && Passed(nums[..], i)
    {
      PassOne(nums[..], i);
      i := i - 1;
    }
  }

  lemma LastDescends(s: seq<int>)
    ensures Passed(s, |s| - 2)
  {
  }

  /** The second loop: the last position holding something larger than nums[i]. */
  method FindLarger(nums: array<int>, i: nat) returns (j: nat)
    requires i + 1 < nums.Length && nums[i] < nums[i + 1]
    ensures i < j < nums.Length && nums[i] < nums[j]
    ensures forall k :: j < k < nums.Length ==> nums[k] <= nums[i]
  {
    j := nums.Length - 1;
    while nums[j] <= nums[i]
      invariant i < j < nums.Length
      invariant forall k :: j < k < nums.Length ==> nums[k] <= nums[i]
      decreases j
    {
      j := j - 1;
    }
  }

  lemma NoDescent(s: seq<int>, i: int)
    requires Passed(s, i) && i < 0
    ensures s == [] ==> IsNext(s, s)
    ensures s != [] ==> i == -1 && IsNext(s, s[..0] + Reverse(s[0..]))
  {
    assert s[0..] == s && s[..0] + Reverse(s) == Reverse(s);
    LastGivesSorted(s);
  }

  method NextPermutation(nums: array<int>)
    modifies nums
    ensures IsNext(old(nums[..]), nums[..])
  {
    hide *;
    ghost var s := nums[..];
    var i := FindDescent(nums);
    if i >= 0 {
      var j := FindLarger(nums, i);
      IsPivot(s, i, j);
      PivotGivesNext(s, i, j);
      SuccessorIsSwapThenReverse(s, i, j);
      nums[i], nums[j] := nums[j], nums[i];
      assert nums[..] == s[i := s[j]][j := s[i]];
    } else {
      NoDescent(s, i);
    }
    ghost var w := nums[..];
    assert i >= -1 ==> nums[..i + 1] == w[..i + 1] && nums[i + 1..] == w[i + 1..];
    ReverseFrom(nums, i + 1);
  }

  lemma IsPivot(s: seq<int>, i: nat, j: nat)
    requires i < j < |s| && Passed(s, i)
    requires s[i] < s[j] && forall k :: j < k < |s| ==> s[k] <= s[i]
    ensures Pivot(s, i, j)
  {
  }

  lemma SuccessorIsSwapThenReverse(s: seq<int>, i: nat, j: nat)
    requires i < j < |s|
    ensures var w := s[i := s[j]][j := s[i]]; Successor(s, i, j) == w[..i + 1] + Reverse(w[i + 1..])
  {
  }
}
