// Shortest subarray with sum at least k, by a monotone queue over prefix sums.
module ShortestSubarray {

  function Sum(s: seq<int>): int
    decreases |s|
  {
    if s == [] then 0 else Sum(s[..|s| - 1]) + s[|s| - 1]
  }

  ghost predicate Reaches(nums: seq<int>, k: int, i: int, j: int) {
    0 <= i < j <= |nums| && Sum(nums[i..j]) >= k
  }

  /** `r` is the least length of a non-empty subarray with sum at least `k`, or -1 if there is none. */
  ghost predicate IsShortest(nums: seq<int>, k: int, r: int) {
    && (forall i, j :: Reaches(nums, k, i, j) ==> 1 <= r <= j - i)
    && (r == -1 || exists i, j :: Reaches(nums, k, i, j) && j - i == r)
  }

  ghost predicate SomePositive(nums: seq<int>) {
    exists i :: 0 <= i < |nums| && nums[i] > 0
  }

  ghost predicate AllBelow(nums: seq<int>, k: int) {
    forall i :: 0 <= i < |nums| ==> nums[i] < k
  }

  lemma {:induction false} SumOfRange(nums: seq<int>, i: nat, j: nat)
    requires i <= j <= |nums|
    ensures Sum(nums[i..j]) == Sum(nums[..j]) - Sum(nums[..i])
    decreases j
  {
    if i < j {
      SumOfRange(nums, i, j - 1);
      assert nums[i..j][..j - 1 - i] == nums[i..j - 1];
      assert nums[..j][..j - 1] == nums[..j - 1];
    }
  }

  lemma {:induction false} SumOfNegatives(s: seq<int>, k: int)
    requires s != [] && k <= 0 && AllBelow(s, k)
    ensures Sum(s) < k
    decreases |s|
  {
    if |s| > 1 {
      SumOfNegatives(s[..|s| - 1], k);
    } else {
      assert s[..0] == [];
    }
  }

  ghost predicate IsPrefixSums(P: seq<int>, nums: seq<int>) {
    |P| == |nums| + 1 && forall i :: 0 <= i <= |nums| ==> P[i] == Sum(nums[..i])
  }

  lemma ReachesByPrefix(P: seq<int>, nums: seq<int>, k: int)
    requires IsPrefixSums(P, nums)
    ensures forall i, j :: Reaches(nums, k, i, j) <==> 0 <= i < j <= |nums| && P[j] - P[i] >= k
  {
    forall i, j | 0 <= i < j <= |nums|
      ensures Sum(nums[i..j]) == P[j] - P[i]
    {
      SumOfRange(nums, i, j);
    }
  }

  // The queue invariants.

  /** Queue entries are indices below `y`, and both they and their prefix sums increase. */
  ghost predicate Monotone(P: seq<int>, q: seq<int>, y: int) {
    && (forall x :: 0 <= x < |q| ==> 0 <= q[x] < y && q[x] < |P|)
    && (forall x, z :: 0 <= x < z < |q| ==> q[x] < q[z] && P[q[x]] < P[q[z]])
  }

  /** A start `i` no longer queued is beaten by a later queued start, or can only give a worse answer. */
  ghost predicate Settled(P: seq<int>, q: seq<int>, i: int, y: int, ans: int)
    requires 0 <= i < |P| && forall x :: 0 <= x < |q| ==> 0 <= q[x] < |P|
  {
    i in q || ans <= y - i || exists x :: 0 <= x < |q| && i < q[x] && P[q[x]] <= P[i]
  }

  ghost predicate AllSettled(P: seq<int>, q: seq<int>, y: int, ans: int)
    requires 0 <= y <= |P| && Monotone(P, q, y)
  {
    forall i :: 0 <= i < y ==> Settled(P, q, i, y, ans)
  }

  /** `ans` is the best length among subarrays that end before `y`. */
  ghost predicate BestSoFar(P: seq<int>, k: int, y: int, ans: int)
    requires 0 <= y <= |P|
  {
    && (ans == |P| || exists i, j :: 0 <= i < j < y && P[j] - P[i] >= k && j - i == ans)
    && (forall i, j :: 0 <= i < j < y && P[j] - P[i] >= k ==> ans <= j - i)
  }

  /** What one round of the outer loop does: `q1` is left of `q0` at the back, then `f` entries go at the front. */
  ghost predicate Round(P: seq<int>, k: int, q0: seq<int>, q1: seq<int>, f: nat, y: nat, ans0: int, ans: int) {
    && y < |P| && Monotone(P, q0, y)
    && q1 <= q0 && f <= |q1|
    && (forall x :: |q1| <= x < |q0| ==> P[y] <= P[q0[x]])
    && (q1 != [] ==> P[y] > P[q1[|q1| - 1]])
    && (forall x :: 0 <= x < f ==> P[y] - P[q1[x]] >= k)
    && (f < |q1| ==> P[y] - P[q1[f]] < k)
    && ans == if f == 0 || ans0 <= y - q1[f - 1] then ans0 else y - q1[f - 1]
  }

  /** What a round drops cannot hold a better answer than the one it keeps. */
  lemma SettledAfterRound(P: seq<int>, k: int, q0: seq<int>, q1: seq<int>, f: nat, y: nat, ans0: int, ans: int, i: nat)
    requires k >= 1 && Round(P, k, q0, q1, f, y, ans0, ans)
    requires i < y && Settled(P, q0, i, y, ans0)
    ensures P[y] - P[i] >= k ==> ans <= y - i
    ensures i in q1[f..] || ans <= y + 1 - i || P[y] <= P[i]
            || exists x :: f <= x < |q1| && i < q1[x] && P[q1[x]] <= P[i]
  {
    if !(ans0 <= y - i) {
      var x :| 0 <= x < |q0| && i <= q0[x] && P[q0[x]] <= P[i];
      if x < |q1| {
        if x >= f {
          assert q1[f..][x - f] == q1[x];
          assert P[q1[f]] <= P[q1[x]];
        } else {
          assert q1[x] <= q1[f - 1];
        }
      }
    }
  }

  lemma MonotoneAfterRound(P: seq<int>, k: int, q0: seq<int>, q1: seq<int>, f: nat, y: nat, ans0: int, ans: int)
    requires Round(P, k, q0, q1, f, y, ans0, ans)
    ensures Monotone(P, q1[f..] + [y], y + 1)
  {
    var q := q1[f..] + [y];
    forall x | 0 <= x < |q|
      ensures q[x] == if x < |q1| - f then q0[f + x] else y
    {
    }
  }

  lemma AllSettledAfterRound(P: seq<int>, k: int, q0: seq<int>, q1: seq<int>, f: nat, y: nat, ans0: int, ans: int)
    requires k >= 1 && Round(P, k, q0, q1, f, y, ans0, ans)
    requires AllSettled(P, q0, y, ans0)
    ensures Monotone(P, q1[f..] + [y], y + 1) && AllSettled(P, q1[f..] + [y], y + 1, ans)
  {
    MonotoneAfterRound(P, k, q0, q1, f, y, ans0, ans);
    var q := q1[f..] + [y];
    assert q[|q| - 1] == y && forall x :: f <= x < |q1| ==> q[x - f] == q1[x];
    var y' := y + 1;
    forall i | 0 <= i < y'
      ensures Settled(P, q, i, y', ans)
    {
      if i < y {
        assert Settled(P, q0, i, y, ans0);
        SettledAfterRound(P, k, q0, q1, f, y, ans0, ans, i);
      }
    }
  }

  lemma BestAfterRound(P: seq<int>, k: int, q0: seq<int>, q1: seq<int>, f: nat, y: nat, ans0: int, ans: int)
    requires k >= 1 && Round(P, k, q0, q1, f, y, ans0, ans)
    requires AllSettled(P, q0, y, ans0) && BestSoFar(P, k, y, ans0)
    ensures BestSoFar(P, k, y + 1, ans)
  {
    forall i | 0 <= i < y
      ensures P[y] - P[i] >= k ==> ans <= y - i
    {
      assert Settled(P, q0, i, y, ans0);
      SettledAfterRound(P, k, q0, q1, f, y, ans0, ans, i);
    }
  }

  lemma RisesArePositives(nums: seq<int>, P: seq<int>)
    requires IsPrefixSums(P, nums)
    ensures (exists i :: 0 <= i < |nums| && P[i + 1] > P[i]) <==> SomePositive(nums)
  {
    hide Sum;
    forall i | 0 <= i < |nums|
      ensures P[i + 1] > P[i] <==> nums[i] > 0
    {
      SumOfRange(nums, i, i + 1);
      OneElement(nums, i);
    }
    if i :| 0 <= i < |nums| && nums[i] > 0 {
      assert P[i + 1] > P[i];
    }
    if i :| 0 <= i < |nums| && P[i + 1] > P[i] {
      assert nums[i] > 0;
    }
  }

  /** For k <= 0 an answer of 1 is right if some element reaches k, and -1 if none does. */
  lemma NonPositiveTarget(nums: seq<int>, k: int)
    requires k <= 0
    ensures IsShortest(nums, k, if SomePositive(nums) then 1 else -1) <==> SomePositive(nums) || AllBelow(nums, k)
  {
    hide Sum;
    if AllBelow(nums, k) {
      forall i, j | 0 <= i < j <= |nums|
        ensures !Reaches(nums, k, i, j)
      {
        SumOfNegatives(nums[i..j], k);
      }
    } else {
      var i :| 0 <= i < |nums| && nums[i] >= k && (SomePositive(nums) ==> nums[i] > 0);
      OneElement(nums, i);
      assert Reaches(nums, k, i, i + 1);
    }
  }

  /** For a k <= 0 an answer of -1 can be wrong. */
  lemma NegativeTargetIsMissed()
    ensures !SomePositive([-1]) && !AllBelow([-1], -2)
    ensures IsShortest([-1], -2, 1) && !IsShortest([-1], -2, -1)
  {
    OneElement([-1], 0);
    assert [-1][0] == -1;
    hide Sum;
    assert Reaches([-1], -2, 0, 1);
  }

  lemma OneElement(nums: seq<int>, i: nat)
    requires i < |nums|
    ensures Sum(nums[i..i + 1]) == nums[i]
  {
    assert nums[i..i + 1] == [nums[i]] && [nums[i]][..0] == [];
  }

  /** For k <= 0 the queue is always the previous index alone, and answers only ever become 1. */
  ghost predicate Degenerate(P: seq<int>, q: seq<int>, y: nat, ans: int) {
    && 1 <= y <= |P|
    && q == [y - 1]
    && ans == if exists i :: 0 <= i < y - 1 && P[i + 1] > P[i] then 1 else |P|
  }

  lemma DegenerateAfterRound(P: seq<int>, k: int, q0: seq<int>, q1: seq<int>, f: nat, y: nat, ans0: int, ans: int)
    requires k <= 0 && Round(P, k, q0, q1, f, y, ans0, ans)
    requires Degenerate(P, q0, y, ans0)
    ensures Degenerate(P, q1[f..] + [y], y + 1, ans)
  {
    if q1 == q0 {
      assert P[y - 1 + 1] > P[y - 1];
      assert f == 1;
    }
  }

  method PrefixSums(nums: seq<int>) returns (p: array<int>)
    ensures fresh(p) && IsPrefixSums(p[..], nums)
  {
    p := new int[|nums| + 1](_ => 0);
    for i := 0 to |nums|
      invariant forall x :: 0 <= x <= i ==> p[x] == Sum(nums[..x])
    {
      p[i + 1] := p[i] + nums[i];
      assert nums[..i + 1][..i] == nums[..i];
    }
  }

  /** First inner loop: drop queued starts whose prefix sum is not below the new one. */
  method DropBack(p: array<int>, q0: seq<int>, y: nat) returns (q1: seq<int>)
    requires y < p.Length && Monotone(p[..], q0, y)
    ensures q1 <= q0
    ensures forall x :: |q1| <= x < |q0| ==> p[y] <= p[q0[x]]
    ensures q1 != [] ==> p[y] > p[q1[|q1| - 1]]
  {
    q1 := q0;
    while |q1| > 0 && p[y] <= p[q1[|q1| - 1]]
      invariant q1 <= q0
      invariant forall x :: |q1| <= x < |q0| ==> p[y] <= p[q0[x]]
    {
      q1 := q1[..|q1| - 1];
    }
  }

  /** Second inner loop: collect and drop the starts that already reach `k`. */
  method DropFront(p: array<int>, k: int, q1: seq<int>, y: nat, ans0: int)
      returns (ghost f: nat, monoq: seq<int>, ans: int)
    requires y < p.Length && forall x :: 0 <= x < |q1| ==> 0 <= q1[x] < p.Length
    ensures f <= |q1| && monoq == q1[f..]
    ensures forall x :: 0 <= x < f ==> p[y] - p[q1[x]] >= k
    ensures f < |q1| ==> p[y] - p[q1[f]] < k
    ensures (forall x, z :: 0 <= x < z < |q1| ==> q1[x] < q1[z]) ==>
              ans == if f == 0 || ans0 <= y - q1[f - 1] then ans0 else y - q1[f - 1]
  {
    f, monoq, ans := 0, q1, ans0;
    while |monoq| > 0 && p[y] - p[monoq[0]] >= k
      invariant f <= |q1| && monoq == q1[f..]
      invariant forall x :: 0 <= x < f ==> p[y] - p[q1[x]] >= k
      invariant (forall x, z :: 0 <= x < z < |q1| ==> q1[x] < q1[z]) ==>
                  ans == if f == 0 || ans0 <= y - q1[f - 1] then ans0 else y - q1[f - 1]
      decreases |monoq|
    {
      var diff := y - monoq[0];
      if diff < ans { ans := diff; }
      monoq := monoq[1..];
      f := f + 1;
    }
  }

  /** The invariant of the outer loop. */
  ghost predicate Invariant(P: seq<int>, k: int, q: seq<int>, y: nat, ans: int) {
    && y <= |P| && Monotone(P, q, y)
    && (k >= 1 ==> AllSettled(P, q, y, ans) && BestSoFar(P, k, y, ans))
    && (if y == 0 then q == [] && ans == |P| else k <= 0 ==> Degenerate(P, q, y, ans))
  }

  lemma InvariantAtStart(P: seq<int>, nums: seq<int>, k: int)
    requires IsPrefixSums(P, nums)
    ensures |P| == |nums| + 1 && Invariant(P, k, [], 0, |P|)
  {
  }

  lemma InvariantKept(P: seq<int>, k: int, q0: seq<int>, q1: seq<int>, f: nat, y: nat, ans0: int, ans: int)
    requires Invariant(P, k, q0, y, ans0) && Round(P, k, q0, q1, f, y, ans0, ans)
    ensures Invariant(P, k, q1[f..] + [y], y + 1, ans)
  {
    MonotoneAfterRound(P, k, q0, q1, f, y, ans0, ans);
    if k >= 1 {
      AllSettledAfterRound(P, k, q0, q1, f, y, ans0, ans);
      BestAfterRound(P, k, q0, q1, f, y, ans0, ans);
    } else if y > 0 {
      DegenerateAfterRound(P, k, q0, q1, f, y, ans0, ans);
    } else {
      assert q1 == [] && f == 0;
    }
  }

  lemma InvariantGivesAnswer(nums: seq<int>, P: seq<int>, k: int, q: seq<int>, ans: int, r: int)
    requires IsPrefixSums(P, nums) && Invariant(P, k, q, |P|, ans)
    requires r == if ans <= |nums| then ans else -1
    ensures IsShortest(nums, k, r) <==> k >= 1 || SomePositive(nums) || AllBelow(nums, k)
    ensures k <= 0 ==> r == if SomePositive(nums) then 1 else -1
  {
    ReachesByPrefix(P, nums, k);
    if k <= 0 {
      RisesArePositives(nums, P);
      NonPositiveTarget(nums, k);
    }
  }

  /** One round of the outer loop, up to queueing `y`. */
  method OneRound(p: array<int>, k: int, q0: seq<int>, y: nat, ans0: int) returns (monoq: seq<int>, ans: int)
    requires y < p.Length && Invariant(p[..], k, q0, y, ans0)
    ensures Invariant(p[..], k, monoq + [y], y + 1, ans)
  {
    hide AllSettled, BestSoFar, Degenerate;
    var q1 := DropBack(p, q0, y);
    ghost var f;
    f, monoq, ans := DropFront(p, k, q1, y, ans0);
    InvariantKept(p[..], k, q0, q1, f, y, ans0, ans);
  }

  method Shortest(nums: seq<int>, k: int) returns (r: int)
    ensures IsShortest(nums, k, r) <==> k >= 1 || SomePositive(nums) || AllBelow(nums, k)
    ensures k <= 0 ==> r == if SomePositive(nums) then 1 else -1
  {
    hide *;
    var n := |nums|;
    var p := PrefixSums(nums);
    ghost var P := p[..];
    var ans := n + 1;
    var monoq: seq<int> := [];
    InvariantAtStart(P, nums, k);
    for y := 0 to n + 1
      invariant p[..] == P && Invariant(P, k, monoq, y, ans)
    {
      monoq, ans := OneRound(p, k, monoq, y, ans);
      monoq := monoq + [y];
    }
    r := if ans <= n then ans else -1;
    InvariantGivesAnswer(nums, P, k, monoq, ans, r);
  }
}
