// Median of two sorted arrays by binary search over partitions.
module MedianOfTwo {
  import opened Sequences
  import opened Sorting

  /** The float values the search compares: reals and the two infinities, plus NaN. */
  datatype Ext = NegInf | Fin(v: real) | PosInf | NaN {
    predicate Le(that: Ext) {
      !NaN? && !that.NaN? && (NegInf? || that.PosInf? || (Fin? && that.Fin? && v <= that.v))
    }

    predicate Gt(that: Ext) {
      !NaN? && !that.NaN? && !Le(that)
    }

    function Plus(that: Ext): Ext {
      if NaN? || that.NaN? || (NegInf? && that.PosInf?) || (PosInf? && that.NegInf?) then NaN
      else if !Fin? then this
      else if !that.Fin? then that
      else Fin(v + that.v)
    }

    function Half(): Ext {
      if Fin? then Fin(v / 2.0) else this
    }
  }

  function Max(x: Ext, y: Ext): Ext {
    if x.NaN? || y.NaN? then NaN else if x.Le(y) then y else x
  }

  function Min(x: Ext, y: Ext): Ext {
    if x.NaN? || y.NaN? then NaN else if x.Le(y) then x else y
  }

  /** The middle value of a sorted sequence, or the mean of the two middle ones. */
  function Median(s: seq<int>): real
    requires s != []
  {
    var h := |s| / 2;
    if |s| % 2 == 0 then (s[h - 1] as real + s[h] as real) / 2.0 else s[h] as real
  }

  // Neighbours of a cut: the values just left and right of position `i`.

  function Left(s: seq<int>, i: nat): Ext
    requires i <= |s|
  {
    if i == 0 then NegInf else Fin(s[i - 1] as real)
  }

  function Right(s: seq<int>, i: nat): Ext
    requires i <= |s|
  {
    if i == |s| then PosInf else Fin(s[i] as real)
  }

  /** A cut of both sequences after which nothing on the left exceeds anything on the right. */
  predicate GoodCut(a: seq<int>, b: seq<int>, i: nat, j: nat)
    requires i <= |a| && j <= |b|
  {
    Left(a, i).Le(Right(b, j)) && Left(b, j).Le(Right(a, i))
  }

  /** The left and right sides of a good cut, each sorted, make up the merged sequence. */
  lemma GoodCutSplitsMerge(a: seq<int>, b: seq<int>, i: nat, j: nat)
    requires Sorted(a) && Sorted(b) && i <= |a| && j <= |b| && GoodCut(a, b, i, j)
    ensures SortedCopy(a + b) == SortedCopy(a[..i] + b[..j]) + SortedCopy(a[i..] + b[j..])
  {
    hide SortedCopy, GoodCut;
    var l, r := SortedCopy(a[..i] + b[..j]), SortedCopy(a[i..] + b[j..]);
    SameElements(l, a[..i] + b[..j]);
    SameElements(r, a[i..] + b[j..]);
    forall x, y | x in l && y in r
      ensures x <= y
    {
      CutOrder(a, b, i, j, x, y);
    }
    AppendSorted(l, r);
    assert a == a[..i] + a[i..] && b == b[..j] + b[j..];
    assert multiset(l + r) == multiset(a + b);
    SortedIsUnique(SortedCopy(a + b), l + r);
  }

  lemma CutOrder(a: seq<int>, b: seq<int>, i: nat, j: nat, x: int, y: int)
    requires Sorted(a) && Sorted(b) && i <= |a| && j <= |b| && GoodCut(a, b, i, j)
    requires x in a[..i] + b[..j] && y in a[i..] + b[j..]
    ensures x <= y
  {
    if x in a[..i] {
      var k :| 0 <= k < i && a[k] == x;
      assert x <= a[i - 1];
    } else {
      var k :| 0 <= k < j && b[k] == x;
      assert x <= b[j - 1];
    }
    if y in a[i..] {
      var k :| 0 <= k < |a| - i && a[i..][k] == y;
      assert a[i] <= a[i + k] == y;
    } else {
      var k :| 0 <= k < |b| - j && b[j..][k] == y;
      assert b[j] <= b[j + k] == y;
    }
  }

  /** The largest value left of a cut is the last of the sorted left side. */
  lemma LargestOnLeft(a: seq<int>, b: seq<int>, i: nat, j: nat)
    requires Sorted(a) && Sorted(b) && i <= |a| && j <= |b| && i + j > 0
    ensures Max(Left(a, i), Left(b, j)) == Fin(SortedCopy(a[..i] + b[..j])[i + j - 1] as real)
  {
    hide SortedCopy;
    var t := a[..i] + b[..j];
    var m := if i == 0 || (j > 0 && a[i - 1] <= b[j - 1]) then b[j - 1] else a[i - 1];
    assert i > 0 ==> t[i - 1] == a[i - 1];
    assert j > 0 ==> t[i + j - 1] == b[j - 1];
    LastIsGreatest(t, SortedCopy(t), m);
  }

  /** The smallest value right of a cut is the first of the sorted right side. */
  lemma SmallestOnRight(a: seq<int>, b: seq<int>, i: nat, j: nat)
    requires Sorted(a) && Sorted(b) && i <= |a| && j <= |b| && i + j < |a| + |b|
    ensures Min(Right(a, i), Right(b, j)) == Fin(SortedCopy(a[i..] + b[j..])[0] as real)
  {
    hide SortedCopy;
    var t := a[i..] + b[j..];
    var m := if i == |a| || (j < |b| && b[j] < a[i]) then b[j] else a[i];
    assert i < |a| ==> t[0] == a[i];
    assert j < |b| ==> t[|a| - i] == b[j];
    FirstIsLeast(t, SortedCopy(t), m);
  }

  /** What the search returns at a good cut. */
  function AtCut(a: seq<int>, b: seq<int>, i: nat, j: nat): Ext
    requires i <= |a| && j <= |b|
  {
    if (|a| + |b|) % 2 == 0 then Max(Left(a, i), Left(b, j)).Plus(Min(Right(a, i), Right(b, j))).Half()
    else Max(Left(a, i), Left(b, j))
  }

  lemma MiddleOfConcat(l: seq<int>, r: seq<int>, s: seq<int>)
    requires s == l + r && |l| == (|s| + 1) / 2 > 0
    ensures |s| % 2 == 1 ==> Median(s) == l[|l| - 1] as real
    ensures |s| % 2 == 0 ==> r != [] && Median(s) == (l[|l| - 1] as real + r[0] as real) / 2.0
  {
    if |s| % 2 == 0 {
      assert |s| / 2 == |l| && s[|l|] == r[0] && s[|l| - 1] == l[|l| - 1];
    } else {
      assert |s| / 2 == |l| - 1 && s[|l| - 1] == l[|l| - 1];
    }
  }

  lemma GoodCutGivesMedian(a: seq<int>, b: seq<int>, i: nat, j: nat)
    requires Sorted(a) && Sorted(b) && i <= |a| && j <= |b| && GoodCut(a, b, i, j)
    requires i + j == (|a| + |b| + 1) / 2 > 0
    ensures AtCut(a, b, i, j) == Fin(Median(SortedCopy(a + b)))
  {
    hide SortedCopy, GoodCut, Left, Right, Max, Min, Median, Sorted;
    GoodCutSplitsMerge(a, b, i, j);
    LargestOnLeft(a, b, i, j);
    MiddleOfConcat(SortedCopy(a[..i] + b[..j]), SortedCopy(a[i..] + b[j..]), SortedCopy(a + b));
    if (|a| + |b|) % 2 == 0 {
      SmallestOnRight(a, b, i, j);
    }
  }

  // Cuts the binary search has ruled out.

  predicate TooFarRight(a: seq<int>, b: seq<int>, i: nat, j: nat)
    requires i <= |a| && j <= |b|
  {
    Left(a, i).Gt(Right(b, j))
  }

  predicate TooFarLeft(a: seq<int>, b: seq<int>, i: nat, j: nat)
    requires i <= |a| && j <= |b|
  {
    Left(b, j).Gt(Right(a, i))
  }

  lemma MergeIsSymmetric(a: seq<int>, b: seq<int>)
    ensures SortedCopy(a + b) == SortedCopy(b + a)
  {
    hide SortedCopy;
    assert multiset(a + b) == multiset(b + a);
    SortedIsUnique(SortedCopy(a + b), SortedCopy(b + a));
  }

  /** What the search knows about its bounds. */
  ghost predicate Bounds(a: seq<int>, b: seq<int>, half: nat, left: int, right: int) {
    && 0 <= left <= |a| && -1 <= right <= |a| && left <= right + 1
    && |a| <= half <= |b|
    && (left == 0 || TooFarLeft(a, b, left - 1, half - (left - 1)))
    && (right == |a| || TooFarRight(a, b, right + 1, half - (right + 1)))
  }

  /** When the bounds have crossed, the two ruled-out cuts are neighbours and cannot both be wrong. */
  lemma CutsContradict(a: seq<int>, b: seq<int>, half: nat, left: int, right: int)
    requires Bounds(a, b, half, left, right)
    ensures left <= right
  {
  }

  /** Where the search goes on after a cut. */
  lemma NextBounds(a: seq<int>, b: seq<int>, half: nat, left: int, right: int, i: nat)
    requires Bounds(a, b, half, left, right) && left <= i <= right
    ensures !GoodCut(a, b, i, half - i) ==>
              if Left(a, i).Gt(Right(b, half - i)) then Bounds(a, b, half, left, i - 1)
              else Bounds(a, b, half, i + 1, right)
  {
  }

  lemma AnswerAtCut(a: seq<int>, b: seq<int>, i: nat, j: nat)
    requires Sorted(a) && Sorted(b) && i <= |a| && j <= |b| && GoodCut(a, b, i, j)
    requires i + j == (|a| + |b| + 1) / 2
    ensures a + b != [] ==> AtCut(a, b, i, j) == Fin(Median(SortedCopy(a + b)))
    ensures a + b == [] ==> AtCut(a, b, i, j) == NaN
  {
    if a + b != [] {
      GoodCutGivesMedian(a, b, i, j);
    } else {
      assert |a| == 0 && |b| == 0;
    }
  }

  method FindMedian(nums1: seq<int>, nums2: seq<int>) returns (r: Ext)
    requires Sorted(nums1) && Sorted(nums2)
    ensures nums1 + nums2 != [] ==> r == Fin(Median(SortedCopy(nums1 + nums2)))
    ensures nums1 + nums2 == [] ==> r == NaN
    decreases |nums1|
  {
    hide SortedCopy, Sorted, Median, Max, Min, Left, Right, TooFarLeft, TooFarRight, Ext.Le, Ext.Gt, Ext.Plus, Ext.Half;
    if |nums1| > |nums2| {
      r := FindMedian(nums2, nums1);
      MergeIsSymmetric(nums1, nums2);
      return;
    }
    var m, n := |nums1|, |nums2|;
    var half := (m + n + 1) / 2;
    var left, right := 0, m;
    while left <= right
      invariant Bounds(nums1, nums2, half, left, right)
    {
      var partitionX := (left + right) / 2;
      var partitionY := half - partitionX;
      var maxLeftX := Left(nums1, partitionX);
      var minRightX := Right(nums1, partitionX);
      var maxLeftY := Left(nums2, partitionY);
      var minRightY := Right(nums2, partitionY);
      NextBounds(nums1, nums2, half, left, right, partitionX);
      if maxLeftX.Le(minRightY) && maxLeftY.Le(minRightX) {
        AnswerAtCut(nums1, nums2, partitionX, partitionY);
        if (m + n) % 2 == 0 {
          return Max(maxLeftX, maxLeftY).Plus(Min(minRightX, minRightY)).Half();
        }
        return Max(maxLeftX, maxLeftY);
      } else if maxLeftX.Gt(minRightY) {
        right := partitionX - 1;
      } else {
        left := partitionX + 1;
      }
    }
    // the two ruled-out cuts are neighbours and contradict each other: this point is never reached
    CutsContradict(nums1, nums2, half, left, right);
    assert false;
    r := Fin(0.0);
  }
}
