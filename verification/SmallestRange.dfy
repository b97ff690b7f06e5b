// Smallest range with an element of every list, by merging the lists through a heap.
module SmallestRange {

  const MIN_INT32: int := -0x8000_0000
  const MAX_INT32: int := 0x7fff_ffff

  datatype Element = Element(val: int, row: nat, col: nat)

  /** What the search asks of its input: sorted non-empty lists. */
  ghost predicate WellFormed(nums: seq<seq<int>>) {
    && nums != []
    && (forall r :: 0 <= r < |nums| ==> nums[r] != [])
    && (forall r, i, j :: 0 <= r < |nums| && 0 <= i <= j < |nums[r]| ==> nums[r][i] <= nums[r][j])
  }

  /** Some element of the list lies in [lo, hi]. */
  ghost predicate Hits(list: seq<int>, lo: int, hi: int) {
    exists i :: 0 <= i < |list| && lo <= list[i] <= hi
  }

  ghost predicate Covers(nums: seq<seq<int>>, lo: int, hi: int) {
    forall r :: 0 <= r < |nums| ==> Hits(nums[r], lo, hi)
  }

  ghost predicate IsSmallestRange(nums: seq<seq<int>>, lo: int, hi: int) {
    && Covers(nums, lo, hi)
    && forall a, b :: Covers(nums, a, b) ==> hi - lo <= b - a
  }

  // When the sentinels suffice.

  /** Some smallest range does not end below the least sentinel and is narrower than the greatest. */
  ghost predicate InsideSentinels(nums: seq<seq<int>>) {
    exists a, b :: IsSmallestRange(nums, a, b) && -2147483648 <= b && b - a < 2147483647
  }

  ghost predicate SomeNarrow(nums: seq<seq<int>>) {
    exists a, b :: Covers(nums, a, b) && b - a < 2147483647
  }

  ghost predicate NoneBelow(nums: seq<seq<int>>) {
    forall r, i :: 0 <= r < |nums| && 0 <= i < |nums[r]| ==> -2147483648 <= nums[r][i]
  }

  /** A covering range that does not end below the least sentinel. */
  ghost predicate Candidate(nums: seq<seq<int>>, a: int, b: int) {
    Covers(nums, a, b) && -2147483648 <= b
  }

  /** The lowest of the narrowest candidates, if some candidate is narrower than the greatest sentinel; else [0, 0]. */
  ghost predicate IsAnswer(nums: seq<seq<int>>, lo: int, hi: int) {
    if exists a, b :: Candidate(nums, a, b) && b - a < 2147483647 then
      && Candidate(nums, lo, hi)
      && forall a, b :: Candidate(nums, a, b) ==> hi - lo < b - a || (hi - lo == b - a && lo <= a)
    else
      lo == hi == 0
  }

  lemma AnswerIsUnique(nums: seq<seq<int>>, lo: int, hi: int, lo': int, hi': int)
    requires IsAnswer(nums, lo, hi) && IsAnswer(nums, lo', hi')
    ensures lo == lo' && hi == hi'
  {
    hide Candidate;
  }

  /** For values from the least sentinel on, the answer is the lowest of all smallest ranges. */
  lemma AnswerIsLowest(nums: seq<seq<int>>, lo: int, hi: int, a: int, b: int)
    requires nums != [] && NoneBelow(nums) && IsAnswer(nums, lo, hi)
    requires IsSmallestRange(nums, lo, hi) && IsSmallestRange(nums, a, b)
    ensures lo <= a
  {
    assert Hits(nums[0], lo, hi) && Hits(nums[0], a, b);
    hide Covers;
    assert Candidate(nums, lo, hi) && Candidate(nums, a, b);
  }

  lemma {:induction false} SmallestExists(nums: seq<seq<int>>, a: int, b: int)
    requires nums != [] && Covers(nums, a, b)
    ensures exists lo, hi :: IsSmallestRange(nums, lo, hi) && hi - lo <= b - a
    decreases b - a
  {
    if lo, hi :| Covers(nums, lo, hi) && hi - lo < b - a {
      assert Hits(nums[0], lo, hi);
      SmallestExists(nums, lo, hi);
    } else {
      assert IsSmallestRange(nums, a, b);
    }
  }

  /** For values from the least sentinel on, it is enough that some covering range is narrower than the greatest. */
  lemma NarrowIsInside(nums: seq<seq<int>>)
    requires nums != [] && NoneBelow(nums)
    ensures InsideSentinels(nums) <==> SomeNarrow(nums)
  {
    if SomeNarrow(nums) {
      var a, b :| Covers(nums, a, b) && b - a < MAX_INT32;
      SmallestExists(nums, a, b);
      var lo, hi :| IsSmallestRange(nums, lo, hi) && hi - lo <= b - a;
      assert Hits(nums[0], lo, hi);
    }
  }

  /** So values and differences inside the sentinels are enough. */
  lemma SmallDifferencesAreInside(nums: seq<seq<int>>, least: int, greatest: int)
    requires WellFormed(nums) && -2147483648 <= least && greatest - least < 2147483647
    requires forall r, i :: 0 <= r < |nums| && 0 <= i < |nums[r]| ==> least <= nums[r][i] <= greatest
    ensures InsideSentinels(nums)
  {
    assert Covers(nums, least, greatest) by {
      forall r | 0 <= r < |nums|
        ensures Hits(nums[r], least, greatest)
      {
        assert least <= nums[r][0] <= greatest;
      }
    }
    NarrowIsInside(nums);
  }

  /** Two lists as far apart as the greatest sentinel do not fit. */
  lemma FarApartIsOutside()
    ensures WellFormed([[0], [2147483647]]) && !InsideSentinels([[0], [2147483647]])
  {
    var nums := [[0], [MAX_INT32]];
    forall a, b | Covers(nums, a, b)
      ensures b - a >= MAX_INT32
    {
      assert Hits(nums[0], a, b) && Hits(nums[1], a, b);
    }
  }

  /** Nor does a list below the least sentinel. */
  lemma BelowIsOutside()
    ensures WellFormed([[-2147483649]]) && !InsideSentinels([[-2147483649]])
  {
    var nums := [[MIN_INT32 - 1]];
    assert Covers(nums, MIN_INT32 - 1, MIN_INT32 - 1) by {
      assert nums[0][0] == MIN_INT32 - 1;
    }
    forall a, b | Covers(nums, a, b)
      ensures a <= MIN_INT32 - 1 <= b
    {
      assert Hits(nums[0], a, b);
    }
  }

  // The heap, kept as a list: pushing appends, popping removes some least element.

  method PopMin(heap: seq<Element>) returns (x: Element, rest: seq<Element>)
    requires heap != []
    ensures x in heap && forall y :: y in heap ==> x.val <= y.val
    ensures multiset(heap) == multiset(rest) + multiset{x}
  {
    var at := 0;
    for i := 1 to |heap|
      invariant at < |heap| && forall k :: 0 <= k < i ==> heap[at].val <= heap[k].val
    {
      if heap[i].val < heap[at].val { at := i; }
    }
    x, rest := heap[at], heap[..at] + heap[at + 1..];
    assert heap == heap[..at] + [x] + heap[at + 1..];
  }

  /** The heap holds the current element of every list: that of list `r` is at column `cols[r]`. */
  ghost predicate Holds(nums: seq<seq<int>>, cols: seq<nat>, heap: multiset<Element>) {
    && |cols| == |nums|
    && (forall r :: 0 <= r < |nums| ==> cols[r] < |nums[r]|)
    && heap == Current(nums, cols, |nums|)
  }

  ghost function Current(nums: seq<seq<int>>, cols: seq<nat>, n: nat): multiset<Element>
    requires n <= |nums| && n <= |cols| && forall r :: 0 <= r < n ==> cols[r] < |nums[r]|
  {
    if n == 0 then multiset{}
    else Current(nums, cols, n - 1) + At(nums, n - 1, cols[n - 1])
  }

  lemma {:induction false} InCurrent(nums: seq<seq<int>>, cols: seq<nat>, n: nat)
    requires n <= |nums| && n <= |cols| && forall r :: 0 <= r < n ==> cols[r] < |nums[r]|
    ensures forall r :: 0 <= r < n ==> Element(nums[r][cols[r]], r, cols[r]) in Current(nums, cols, n)
    ensures forall x :: x in Current(nums, cols, n) ==>
              x.row < n && x.col == cols[x.row] && x.val == nums[x.row][x.col]
  {
    if n > 0 {
      InCurrent(nums, cols, n - 1);
    }
  }

  function At(nums: seq<seq<int>>, r: nat, c: nat): multiset<Element>
    requires r < |nums| && c < |nums[r]|
  {
    multiset{Element(nums[r][c], r, c)}
  }

  lemma {:induction false} CurrentUnchanged(nums: seq<seq<int>>, cols: seq<nat>, cols': seq<nat>, n: nat)
    requires n <= |nums| && n <= |cols| && n <= |cols'| && forall k :: 0 <= k < n ==> cols'[k] == cols[k] < |nums[k]|
    ensures Current(nums, cols', n) == Current(nums, cols, n)
  {
    if n > 0 {
      CurrentUnchanged(nums, cols, cols', n - 1);
    }
  }

  lemma CurrentLast(nums: seq<seq<int>>, cols: seq<nat>, n: nat)
    requires 0 < n <= |nums| && n <= |cols| && forall k :: 0 <= k < n ==> cols[k] < |nums[k]|
    ensures Current(nums, cols, n) == Current(nums, cols, n - 1) + At(nums, n - 1, cols[n - 1])
  {
  }

  lemma ExchangeUnder(A: multiset<Element>, B: multiset<Element>, O: multiset<Element>, N: multiset<Element>,
                      E: multiset<Element>)
    requires B + O == A + N
    ensures (B + E) + O == (A + E) + N
  {
    assert (B + E) + O == (B + O) + E == (A + N) + E == (A + E) + N;
  }

  /** Advancing list `r` exchanges its element in the heap. */
  lemma {:induction false} AdvanceCurrent(nums: seq<seq<int>>, cols: seq<nat>, n: nat, r: nat)
    requires r < n <= |nums| && n <= |cols| && (forall k :: 0 <= k < n ==> cols[k] < |nums[k]|)
    requires cols[r] + 1 < |nums[r]|
    ensures Current(nums, cols[r := cols[r] + 1], n) + At(nums, r, cols[r]) ==
            Current(nums, cols, n) + At(nums, r, cols[r] + 1)
  {
    hide Current;
    var cols' := cols[r := cols[r] + 1];
    CurrentLast(nums, cols, n);
    CurrentLast(nums, cols', n);
    if r == n - 1 {
      CurrentUnchanged(nums, cols, cols', r);
    } else {
      AdvanceCurrent(nums, cols, n - 1, r);
      ExchangeUnder(Current(nums, cols, n - 1), Current(nums, cols', n - 1),
                    At(nums, r, cols[r]), At(nums, r, cols[r] + 1), At(nums, n - 1, cols[n - 1]));
    }
  }

  // The search invariant.

  /** `maxVal` is the largest current element, or the sentinel it starts from when all are below. */
  ghost predicate IsMax(nums: seq<seq<int>>, cols: seq<nat>, n: nat, maxVal: int)
    requires n <= |nums| && n <= |cols| && forall r :: 0 <= r < n ==> cols[r] < |nums[r]|
  {
    && MIN_INT32 <= maxVal && (forall r :: 0 <= r < n ==> nums[r][cols[r]] <= maxVal)
    && (maxVal == MIN_INT32 || exists r :: 0 <= r < n && nums[r][cols[r]] == maxVal)
  }

  /** The best range so far: none yet, or a covering one of width `minRange`. */
  ghost predicate IsBest(nums: seq<seq<int>>, lo: int, hi: int, minRange: int) {
    if minRange == MAX_INT32 then lo == hi == 0
    else minRange < MAX_INT32 && Covers(nums, lo, hi) && MIN_INT32 <= hi && hi - lo == minRange
  }

  /** A range from `a` to `b` is wider than the recorded one, or as wide and does not start lower. */
  predicate Beaten(lo: int, minRange: int, a: int, b: int) {
    minRange < b - a || (minRange == b - a && (minRange < MAX_INT32 ==> lo <= a))
  }

  /** Every candidate is beaten or lies beyond all elements already passed. */
  ghost predicate NothingLost(nums: seq<seq<int>>, cols: seq<nat>, lo: int, minRange: int) {
    forall a, b :: Candidate(nums, a, b) ==> Beaten(lo, minRange, a, b) || Beyond(nums, cols, a)
  }

  /** A recorded range starts no higher than the current elements. */
  ghost predicate StartsLow(nums: seq<seq<int>>, cols: seq<nat>, lo: int, minRange: int) {
    && |cols| == |nums|
    && (minRange < MAX_INT32 ==> forall r :: 0 <= r < |nums| && cols[r] < |nums[r]| ==> lo <= nums[r][cols[r]])
  }

  ghost predicate IsFinal(nums: seq<seq<int>>, lo: int, hi: int, minRange: int) {
    IsBest(nums, lo, hi, minRange) && forall a, b :: Candidate(nums, a, b) ==> Beaten(lo, minRange, a, b)
  }

  lemma FinalIsAnswer(nums: seq<seq<int>>, lo: int, hi: int, minRange: int)
    requires IsFinal(nums, lo, hi, minRange)
    ensures IsAnswer(nums, lo, hi)
    ensures IsSmallestRange(nums, lo, hi) <==> InsideSentinels(nums)
  {
    hide Covers;
    if minRange < MAX_INT32 {
      assert Candidate(nums, lo, hi);
    }
    if InsideSentinels(nums) {
      var a, b :| IsSmallestRange(nums, a, b) && MIN_INT32 <= b && b - a < MAX_INT32;
      assert Candidate(nums, a, b);
    }
  }

  ghost predicate Beyond(nums: seq<seq<int>>, cols: seq<nat>, a: int) {
    && |cols| == |nums|
    && forall r, i :: 0 <= r < |nums| && 0 <= i < cols[r] && i < |nums[r]| ==> nums[r][i] < a
  }

  /** The current elements span a covering range. */
  lemma CurrentCovers(nums: seq<seq<int>>, cols: seq<nat>, x: int, maxVal: int)
    requires |cols| == |nums| && forall r :: 0 <= r < |nums| ==> cols[r] < |nums[r]|
    requires IsMax(nums, cols, |nums|, maxVal)
    requires forall r :: 0 <= r < |nums| ==> x <= nums[r][cols[r]]
    ensures Covers(nums, x, maxVal)
  {
  }

  /** A covering range beyond the passed elements that still reaches down to the least current element
      spans all current elements. */
  lemma ReachingDownIsWide(nums: seq<seq<int>>, cols: seq<nat>, a: int, b: int, maxVal: int)
    requires WellFormed(nums) && |cols| == |nums| && forall r :: 0 <= r < |nums| ==> cols[r] < |nums[r]|
    requires IsMax(nums, cols, |nums|, maxVal) && Candidate(nums, a, b) && Beyond(nums, cols, a)
    ensures maxVal <= b
  {
    if maxVal != MIN_INT32 {
      var r :| 0 <= r < |nums| && nums[r][cols[r]] == maxVal;
      assert Hits(nums[r], a, b);
      var i :| 0 <= i < |nums[r]| && a <= nums[r][i] <= b;
      assert i >= cols[r];
    }
  }

  /** Passing the least current element loses no range narrower or lower than the one it starts. */
  lemma PassLeast(nums: seq<seq<int>>, cols: seq<nat>, maxVal: int, lo: int, minRange: int, m: nat)
    requires WellFormed(nums) && |cols| == |nums| && forall r :: 0 <= r < |nums| ==> cols[r] < |nums[r]|
    requires m < |nums| && IsMax(nums, cols, |nums|, maxVal)
    requires NothingLost(nums, cols, lo, minRange) && Beaten(lo, minRange, nums[m][cols[m]], maxVal)
    ensures forall a, b :: Candidate(nums, a, b) ==>
              Beaten(lo, minRange, a, b) || (Beyond(nums, cols, a) && nums[m][cols[m]] < a)
    ensures NothingLost(nums, cols[m := cols[m] + 1], lo, minRange)
    ensures cols[m] + 1 == |nums[m]| ==> forall a, b :: Candidate(nums, a, b) ==> Beaten(lo, minRange, a, b)
  {
    forall a, b | Candidate(nums, a, b)
      ensures Beaten(lo, minRange, a, b) || (Beyond(nums, cols, a) && nums[m][cols[m]] < a)
    {
      if !Beaten(lo, minRange, a, b) && a <= nums[m][cols[m]] {
        ReachingDownIsWide(nums, cols, a, b, maxVal);
      }
    }
    if cols[m] + 1 == |nums[m]| {
      forall a, b | Candidate(nums, a, b)
        ensures Beaten(lo, minRange, a, b)
      {
        assert Hits(nums[m], a, b);
        var i :| 0 <= i < |nums[m]| && a <= nums[m][i] <= b;
        assert nums[m][i] <= nums[m][cols[m]];
      }
    }
  }

  /** How many elements the lists still have to offer. */
  ghost function Remaining(nums: seq<seq<int>>, cols: seq<nat>, n: nat): nat
    requires n <= |nums| && n <= |cols| && forall r :: 0 <= r < n ==> cols[r] < |nums[r]|
  {
    if n == 0 then 0 else Remaining(nums, cols, n - 1) + (|nums[n - 1]| - cols[n - 1])
  }

  lemma {:induction false} RemainingShrinks(nums: seq<seq<int>>, cols: seq<nat>, n: nat, r: nat)
    requires n <= |nums| && n <= |cols| && forall k :: 0 <= k < n ==> cols[k] < |nums[k]|
    requires r < |cols| && (r < n ==> cols[r] + 1 < |nums[r]|)
    ensures Remaining(nums, cols[r := cols[r] + 1], n) == Remaining(nums, cols, n) - if r < n then 1 else 0
  {
    if n > 0 {
      RemainingShrinks(nums, cols, n - 1, r);
    }
  }

  /** The invariant of the search loop. */
  ghost predicate Invariant(nums: seq<seq<int>>, cols: seq<nat>, heap: multiset<Element>, maxVal: int,
                            lo: int, hi: int, minRange: int) {
    && Holds(nums, cols, heap)
    && IsMax(nums, cols, |nums|, maxVal)
    && IsBest(nums, lo, hi, minRange) && NothingLost(nums, cols, lo, minRange) && StartsLow(nums, cols, lo, minRange)
  }

  /** What popping yields: the current element of some list, least of all current ones. */
  lemma LeastIsCurrent(nums: seq<seq<int>>, cols: seq<nat>, heap: seq<Element>, x: Element)
    requires Holds(nums, cols, multiset(heap))
    requires x in heap && forall y :: y in heap ==> x.val <= y.val
    ensures x.row < |nums| && x.col == cols[x.row] < |nums[x.row]| && x.val == nums[x.row][x.col]
    ensures forall r :: 0 <= r < |nums| ==> x.val <= nums[r][cols[r]]
  {
    InCurrent(nums, cols, |nums|);
    hide Current;
    forall y
      ensures y in heap <==> y in multiset(heap)
    {
    }
    forall r | 0 <= r < |nums|
      ensures x.val <= nums[r][cols[r]]
    {
      assert Element(nums[r][cols[r]], r, cols[r]) in heap;
    }
  }

  /** Recording the span of the current elements when it is narrower, and then passing the least one. */
  lemma RecordAndPass(nums: seq<seq<int>>, cols: seq<nat>, heap: multiset<Element>, maxVal: int,
                      lo: int, hi: int, minRange: int, x: Element, lo': int, hi': int, minRange': int)
    requires WellFormed(nums) && Invariant(nums, cols, heap, maxVal, lo, hi, minRange)
    requires x.row < |nums| && x.col == cols[x.row] && x.val == nums[x.row][x.col]
    requires forall r :: 0 <= r < |nums| ==> x.val <= nums[r][cols[r]]
    requires if maxVal - x.val < minRange then minRange' == maxVal - x.val && lo' == x.val && hi' == maxVal
             else minRange' == minRange && lo' == lo && hi' == hi
    ensures IsBest(nums, lo', hi', minRange') && StartsLow(nums, cols, lo', minRange')
    ensures NothingLost(nums, cols[x.row := x.col + 1], lo', minRange')
    ensures x.col + 1 == |nums[x.row]| ==> IsFinal(nums, lo', hi', minRange')
  {
    hide Current, Covers, Beyond;
    CurrentCovers(nums, cols, x.val, maxVal);
    PassLeast(nums, cols, maxVal, lo', minRange', x.row);
  }

  lemma AdvanceMax(nums: seq<seq<int>>, cols: seq<nat>, maxVal: int, r: nat)
    requires |cols| == |nums| && forall k :: 0 <= k < |nums| ==> cols[k] < |nums[k]|
    requires IsMax(nums, cols, |nums|, maxVal)
    requires r < |nums| && cols[r] + 1 < |nums[r]| && nums[r][cols[r]] <= nums[r][cols[r] + 1]
    ensures var next := nums[r][cols[r] + 1];
            IsMax(nums, cols[r := cols[r] + 1], |nums|, if next > maxVal then next else maxVal)
  {
    var cols', next := cols[r := cols[r] + 1], nums[r][cols[r] + 1];
    assert forall k :: 0 <= k < |nums| && k != r ==> cols'[k] == cols[k];
    if maxVal != MIN_INT32 || next > maxVal {
      var m' := r;
      if next < maxVal {
        m' :| 0 <= m' < |nums| && nums[m'][cols[m']] == maxVal;
      }
      assert nums[m'][cols'[m']] == if next > maxVal then next else maxVal;
    }
  }

  lemma AdvanceStartsLow(nums: seq<seq<int>>, cols: seq<nat>, lo: int, minRange: int, r: nat)
    requires StartsLow(nums, cols, lo, minRange) && r < |nums| && cols[r] + 1 < |nums[r]|
    requires nums[r][cols[r]] <= nums[r][cols[r] + 1]
    ensures StartsLow(nums, cols[r := cols[r] + 1], lo, minRange)
  {
  }

  /** Replacing the least element by its successor in its list. */
  lemma Advance(nums: seq<seq<int>>, cols: seq<nat>, heap: multiset<Element>, maxVal: int,
                lo: int, hi: int, minRange: int, x: Element, rest: multiset<Element>)
    requires Holds(nums, cols, heap) && IsMax(nums, cols, |nums|, maxVal)
    requires IsBest(nums, lo, hi, minRange) && StartsLow(nums, cols, lo, minRange)
    requires x.row < |nums| && NothingLost(nums, cols[x.row := x.col + 1], lo, minRange)
    requires x.col == cols[x.row] && x.val == nums[x.row][x.col] && x.col + 1 < |nums[x.row]|
    requires x.val <= nums[x.row][x.col + 1]
    requires heap == rest + multiset{x}
    ensures var next := nums[x.row][x.col + 1];
            Invariant(nums, cols[x.row := x.col + 1], rest + multiset{Element(next, x.row, x.col + 1)},
                      if next > maxVal then next else maxVal, lo, hi, minRange)
  {
    hide NothingLost, IsBest, IsMax;
    AdvanceStartsLow(nums, cols, lo, minRange, x.row);
    hide StartsLow;
    AdvanceCurrent(nums, cols, |nums|, x.row);
    hide Current;
    AdvanceMax(nums, cols, maxVal, x.row);
    ExchangeRest(Current(nums, cols[x.row := x.col + 1], |nums|), heap, rest,
                 At(nums, x.row, x.col), At(nums, x.row, x.col + 1));
  }

  lemma ExchangeRest(after: multiset<Element>, heap: multiset<Element>, rest: multiset<Element>,
                     gone: multiset<Element>, come: multiset<Element>)
    requires after + gone == heap + come && heap == rest + gone
    ensures after == rest + come
  {
    assert after == (after + gone) - gone == (rest + gone + come) - gone == rest + come;
  }

  lemma HeapIsNotEmpty(nums: seq<seq<int>>, cols: seq<nat>, heap: seq<Element>)
    requires nums != [] && Holds(nums, cols, multiset(heap))
    ensures heap != []
  {
    InCurrent(nums, cols, |nums|);
    assert Element(nums[0][cols[0]], 0, cols[0]) in multiset(heap);
  }

  /** Every list is at its first element. */
  ghost predicate AtStart(nums: seq<seq<int>>, cols: seq<nat>) {
    |cols| == |nums| && forall r :: 0 <= r < |nums| ==> cols[r] == 0
  }

  /** The heap while it is filled: the first elements of the first `i` lists. */
  ghost predicate Filled(nums: seq<seq<int>>, cols: seq<nat>, heap: multiset<Element>, maxVal: int, i: nat) {
    && AtStart(nums, cols) && i <= |nums| && (forall r :: 0 <= r < |nums| ==> cols[r] < |nums[r]|)
    && heap == Current(nums, cols, i) && IsMax(nums, cols, i, maxVal)
  }

  lemma FillOne(nums: seq<seq<int>>, cols: seq<nat>, heap: multiset<Element>, maxVal: int, i: nat)
    requires i < |nums| && Filled(nums, cols, heap, maxVal, i)
    ensures nums[i] != []
    ensures Filled(nums, cols, heap + multiset{Element(nums[i][0], i, 0)},
                   if nums[i][0] > maxVal then nums[i][0] else maxVal, i + 1)
  {
    if nums[i][0] > maxVal {
      assert nums[i][cols[i]] == nums[i][0];
    }
  }

  method FillHeap(nums: seq<seq<int>>, ghost cols: seq<nat>) returns (heap: seq<Element>, maxVal: int)
    requires WellFormed(nums) && AtStart(nums, cols)
    ensures Invariant(nums, cols, multiset(heap), maxVal, 0, 0, MAX_INT32)
  {
    heap, maxVal := [], MIN_INT32;
    assert Filled(nums, cols, multiset(heap), maxVal, 0);
    hide *;
    for i := 0 to |nums|
      invariant Filled(nums, cols, multiset(heap), maxVal, i)
    {
      FillOne(nums, cols, multiset(heap), maxVal, i);
      heap := heap + [Element(nums[i][0], i, 0)];
      if nums[i][0] > maxVal { maxVal := nums[i][0]; }
    }
    Start(nums, cols, multiset(heap), maxVal);
  }

  lemma Start(nums: seq<seq<int>>, cols: seq<nat>, heap: multiset<Element>, maxVal: int)
    requires Filled(nums, cols, heap, maxVal, |nums|)
    ensures Invariant(nums, cols, heap, maxVal, 0, 0, MAX_INT32)
  {
    hide Current, IsMax;
  }

  method SmallestRange(nums: seq<seq<int>>) returns (lo: int, hi: int)
    requires WellFormed(nums)
    ensures IsAnswer(nums, lo, hi)
    ensures IsSmallestRange(nums, lo, hi) <==> InsideSentinels(nums)
    ensures NoneBelow(nums) ==> (IsSmallestRange(nums, lo, hi) <==> SomeNarrow(nums))
  {
    hide Current, IsBest, NothingLost, IsMax, Covers, IsSmallestRange, InsideSentinels, SomeNarrow, IsFinal, NoneBelow;
    hide StartsLow, IsAnswer;
    ghost var cols: seq<nat> := seq(|nums|, _ => 0);
    var heap, maxVal := FillHeap(nums, cols);
    var minRange := MAX_INT32;
    lo, hi := 0, 0;
    while true
      invariant Invariant(nums, cols, multiset(heap), maxVal, lo, hi, minRange)
      decreases Remaining(nums, cols, |nums|)
    {
      HeapIsNotEmpty(nums, cols, heap);
      var minNode, rest := PopMin(heap);
      LeastIsCurrent(nums, cols, heap, minNode);
      ghost var lo0, hi0, minRange0 := lo, hi, minRange;
      if maxVal - minNode.val < minRange {
        minRange := maxVal - minNode.val;
        lo, hi := minNode.val, maxVal;
      }
      RecordAndPass(nums, cols, multiset(heap), maxVal, lo0, hi0, minRange0, minNode, lo, hi, minRange);
      if minNode.col + 1 == |nums[minNode.row]| {
        break;
      }
      var nextVal := nums[minNode.row][minNode.col + 1];
      Advance(nums, cols, multiset(heap), maxVal, lo, hi, minRange, minNode, multiset(rest));
      if nextVal > maxVal { maxVal := nextVal; }
      RemainingShrinks(nums, cols, |nums|, minNode.row);
      cols := cols[minNode.row := minNode.col + 1];
      heap := rest + [Element(nextVal, minNode.row, minNode.col + 1)];
    }
    FinalIsAnswer(nums, lo, hi, minRange);
    if NoneBelow(nums) {
      NarrowIsInside(nums);
    }
  }
}
