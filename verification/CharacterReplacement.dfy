// Longest window that at most k replacements make uniform, with a maximum count
// that is never lowered.
module CharacterReplacement {

  predicate IsUpper(c: char) { 'A' <= c <= 'Z' }

  ghost predicate AllUpper(s: string) {
    forall i :: 0 <= i < |s| ==> IsUpper(s[i])
  }

  /** How often `c` occurs in s[i..j]. */
  function Count(s: string, i: nat, j: nat, c: char): nat
    requires i <= j <= |s|
    decreases j
  {
    if i == j then 0 else Count(s, i, j - 1, c) + if s[j - 1] == c then 1 else 0
  }

  /** At most `k` replacements turn s[i..j] into copies of `c`. */
  ghost predicate Uniform(s: string, k: int, i: nat, j: nat, c: char) {
    i <= j <= |s| && IsUpper(c) && j - i - Count(s, i, j, c) <= k
  }

  ghost predicate Feasible(s: string, k: int, i: nat, j: nat) {
    exists c :: Uniform(s, k, i, j, c)
  }

  ghost predicate IsLongest(s: string, k: int, n: nat) {
    && (exists i: nat, j: nat :: Feasible(s, k, i, j) && j - i == n)
    && (forall i: nat, j: nat :: Feasible(s, k, i, j) ==> j - i <= n)
  }

  // Counting in windows.

  lemma {:induction false} CountSplit(s: string, i: nat, m: nat, j: nat, c: char)
    requires i <= m <= j <= |s|
    ensures Count(s, i, j, c) == Count(s, i, m, c) + Count(s, m, j, c)
    decreases j
  {
    if m < j {
      CountSplit(s, i, m, j - 1, c);
    }
  }

  lemma {:induction false} CountAtMost(s: string, i: nat, j: nat, c: char)
    requires i <= j <= |s|
    ensures Count(s, i, j, c) <= j - i
    decreases j
  {
    if i < j {
      CountAtMost(s, i, j - 1, c);
    }
  }

  lemma CountFirst(s: string, i: nat, j: nat, c: char)
    requires i < j <= |s|
    ensures Count(s, i, j, c) == (if s[i] == c then 1 else 0) + Count(s, i + 1, j, c)
  {
    CountSplit(s, i, i + 1, j, c);
  }

  /** Shrinking a window keeps it feasible. */
  lemma SubWindow(s: string, k: int, i: nat, j: nat, i': nat, j': nat)
    requires Feasible(s, k, i, j) && i <= i' <= j' <= j
    ensures Feasible(s, k, i', j')
  {
    var c :| Uniform(s, k, i, j, c);
    CountSplit(s, i, i', j, c);
    CountSplit(s, i', j', j, c);
    CountAtMost(s, i, i', c);
    CountAtMost(s, j', j, c);
    assert Uniform(s, k, i', j', c);
  }

  /** Some window seen so far, no longer than `len`, holds at least `m` copies of one letter. */
  ghost predicate Seen(s: string, r: nat, len: nat, m: nat) {
    r <= |s| && exists i: nat, j: nat, c :: i <= j <= r && j - i <= len && IsUpper(c) && CountsAtLeast(s, i, j, c, m)
  }

  ghost predicate CountsAtLeast(s: string, i: nat, j: nat, c: char, m: nat) {
    i <= j <= |s| && Count(s, i, j, c) >= m
  }

  /** A stale maximum still justifies the window length: the window it came from can be widened. */
  lemma SeenGivesWindow(s: string, k: int, r: nat, len: nat, m: nat)
    requires Seen(s, r, len, m) && len - m <= k && len <= r
    ensures exists i: nat, j: nat :: j <= r && Feasible(s, k, i, j) && j - i == len
  {
    var i: nat, j: nat, c :| i <= j <= r && j - i <= len && IsUpper(c) && CountsAtLeast(s, i, j, c, m);
    var j' := if i + len <= r then i + len else r;
    var i' := j' - len;
    CountSplit(s, i', i, j', c);
    CountSplit(s, i, j, j', c);
    assert Uniform(s, k, i', j', c);
    assert Feasible(s, k, i', j');
  }

  // The table of letter counts.

  function Letter(x: nat): char
    requires x < 26
  {
    ('A' as int + x) as char
  }

  /** `mp` counts the letters of s[l..r], none more often than `maxCount`. */
  ghost predicate Table(s: string, mp: seq<int>, l: nat, r: nat, maxCount: int) {
    && l <= r <= |s| && |mp| == 26
    && forall x :: 0 <= x < 26 ==> mp[x] == Count(s, l, r, Letter(x)) <= maxCount
  }

  ghost predicate NoneLonger(s: string, k: int, r: nat, res: int) {
    forall i: nat, j: nat :: j <= r && Feasible(s, k, i, j) ==> j - i <= res
  }

  /** The window s[l..r] has the best length so far, and `maxCount` was reached by some window. */
  ghost predicate Invariant(s: string, k: int, mp: seq<int>, l: nat, r: nat, maxCount: nat, res: nat) {
    && Table(s, mp, l, r, maxCount)
    && r - l == res && res - maxCount <= k
    && Seen(s, r, res, maxCount)
    && NoneLonger(s, k, r, res)
  }

  lemma AddRight(s: string, mp: seq<int>, l: nat, r: nat, maxCount: nat)
    requires AllUpper(s) && r < |s| && Table(s, mp, l, r, maxCount)
    ensures var idx := s[r] as int - 'A' as int;
            0 <= idx < 26 && 0 <= mp[idx] <= maxCount &&
            Table(s, mp[idx := mp[idx] + 1], l, r + 1, if mp[idx] + 1 > maxCount then mp[idx] + 1 else maxCount)
  {
  }

  lemma DropLeft(s: string, mp: seq<int>, l: nat, r: nat, maxCount: nat)
    requires AllUpper(s) && l < r && Table(s, mp, l, r, maxCount)
    ensures var idx := s[l] as int - 'A' as int;
            0 <= idx < 26 && Table(s, mp[idx := mp[idx] - 1], l + 1, r, maxCount)
  {
    forall x | 0 <= x < 26
      ensures Count(s, l, r, Letter(x)) == (if s[l] == Letter(x) then 1 else 0) + Count(s, l + 1, r, Letter(x))
    {
      CountFirst(s, l, r, Letter(x));
    }
  }

  lemma SeenAfter(s: string, mp: seq<int>, l: nat, r: nat, len: nat, before: nat, now: nat, x: nat)
    requires Seen(s, r, len, before) && r < |s| && x < 26
    requires Table(s, mp, l, r + 1, now) && len == r - l
    requires now == before || now == mp[x]
    ensures Seen(s, r + 1, len + 1, now)
  {
    if now == before {
      var i: nat, j: nat, c :| i <= j <= r && j - i <= len && IsUpper(c) && CountsAtLeast(s, i, j, c, before);
      assert j <= r + 1 && j - i <= len + 1;
    } else {
      assert IsUpper(Letter(x)) && CountsAtLeast(s, l, r + 1, Letter(x), now);
    }
  }

  /** The window grows: no feasible window can be longer. */
  lemma NoneLongerAfterGrowing(s: string, k: int, l: nat, r: nat)
    requires l <= r < |s| && NoneLonger(s, k, r, r - l)
    ensures NoneLonger(s, k, r + 1, r + 1 - l)
  {
    forall i: nat, j: nat | j <= r + 1 && Feasible(s, k, i, j)
      ensures j - i <= r + 1 - l
    {
      if j == r + 1 && i <= r {
        SubWindow(s, k, i, j, i, r);
      }
    }
  }

  lemma TableBounds(s: string, mp: seq<int>, l: nat, r: nat, maxCount: int, c: char)
    requires Table(s, mp, l, r, maxCount) && IsUpper(c)
    ensures Count(s, l, r, c) <= maxCount
  {
    assert Letter(c as int - 'A' as int) == c;
  }

  /** The window slides: its true counts are bounded by the stale maximum, so the longer window is infeasible. */
  lemma NoneLongerAfterSliding(s: string, k: int, mp: seq<int>, l: nat, r: nat, maxCount: nat)
    requires l <= r < |s| && NoneLonger(s, k, r, r - l)
    requires Table(s, mp, l, r + 1, maxCount) && r + 1 - l - maxCount > k
    ensures NoneLonger(s, k, r + 1, r - l)
  {
    forall i: nat, j: nat | j <= r + 1 && Feasible(s, k, i, j)
      ensures j - i <= r - l
    {
      if j == r + 1 && i <= l {
        SubWindow(s, k, i, j, l, r + 1);
        var c :| Uniform(s, k, l, r + 1, c);
        TableBounds(s, mp, l, r + 1, maxCount, c);
        assert false;
      }
    }
  }

  /** A window slides only after a maximum that an earlier, not longer window reached. */
  lemma SeenWithoutGrowth(s: string, r: nat, len: nat, m: nat)
    requires Seen(s, r, len, m) && r < |s|
    ensures Seen(s, r + 1, len, m)
  {
    var i: nat, j: nat, c :| i <= j <= r && j - i <= len && IsUpper(c) && CountsAtLeast(s, i, j, c, m);
    assert j <= r + 1;
  }

  method LongestReplacement(s: string, k: int) returns (res: nat)
    requires AllUpper(s) && k >= 0
    ensures IsLongest(s, k, res)
  {
    hide *;
    var mp := new int[26](_ => 0);
    var maxCount: nat, l: nat := 0, 0;
    res := 0;
    Start(s, k, mp[..]);
    for r := 0 to |s|
      invariant Invariant(s, k, mp[..], l, r, maxCount, res)
    {
      ghost var before := maxCount;
      ghost var mp0 := mp[..];
      Unpack(s, k, mp0, l, r, maxCount, res);
      AddRight(s, mp0, l, r, maxCount);
      var idx := s[r] as int - 'A' as int;
      ghost var mp1 := mp0[idx := mp0[idx] + 1];
      mp[idx] := mp[idx] + 1;
      assert mp[..] == mp1;
      if mp[idx] > maxCount { maxCount := mp[idx]; }
      if r - l + 1 - maxCount > k {
        NoneLongerAfterSliding(s, k, mp1, l, r, maxCount);
        SeenWithoutGrowth(s, r, res, maxCount);
        DropLeft(s, mp1, l, r + 1, maxCount);
        var x := s[l] as int - 'A' as int;
        ghost var mp2 := mp1[x := mp1[x] - 1];
        mp[x] := mp[x] - 1;
        assert mp[..] == mp2;
        l := l + 1;
      } else {
        NoneLongerAfterGrowing(s, k, l, r);
        SeenAfter(s, mp1, l, r, res, before, maxCount, idx);
      }
      if r - l + 1 > res { res := r - l + 1; }
      Pack(s, k, mp[..], l, r + 1, maxCount, res);
    }
    Finish(s, k, mp[..], l, maxCount, res);
  }

  lemma Start(s: string, k: int, mp: seq<int>)
    requires |mp| == 26 && (forall x :: 0 <= x < 26 ==> mp[x] == 0) && k >= 0
    ensures Invariant(s, k, mp, 0, 0, 0, 0)
  {
    assert IsUpper('A') && CountsAtLeast(s, 0, 0, 'A', 0);
  }

  lemma Unpack(s: string, k: int, mp: seq<int>, l: nat, r: nat, maxCount: nat, res: nat)
    requires Invariant(s, k, mp, l, r, maxCount, res)
    ensures |mp| == 26 && l <= r <= |s|
    ensures Table(s, mp, l, r, maxCount) && r - l == res && res - maxCount <= k
    ensures Seen(s, r, res, maxCount) && NoneLonger(s, k, r, res)
  {
  }

  lemma Pack(s: string, k: int, mp: seq<int>, l: nat, r: nat, maxCount: nat, res: nat)
    requires Table(s, mp, l, r, maxCount) && r - l == res && res - maxCount <= k
    requires Seen(s, r, res, maxCount) && NoneLonger(s, k, r, res)
    ensures Invariant(s, k, mp, l, r, maxCount, res)
  {
  }

  lemma Finish(s: string, k: int, mp: seq<int>, l: nat, maxCount: nat, res: nat)
    requires Invariant(s, k, mp, l, |s|, maxCount, res)
    ensures IsLongest(s, k, res)
  {
    SeenGivesWindow(s, k, |s|, res, maxCount);
    forall i: nat, j: nat | Feasible(s, k, i, j)
      ensures j - i <= res
    {
      assert j <= |s|;
    }
  }
}
