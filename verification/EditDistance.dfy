// Edit distance: the table of `minDistance` holds the length of a shortest
// insert/delete/replace script.
module EditDistance {

  datatype Edit = Insert(pos: nat, c: char) | Delete(pos: nat) | Replace(pos: nat, c: char)

  predicate Applicable(e: Edit, w: string) {
    if e.Insert? then e.pos <= |w| else e.pos < |w|
  }

  function Apply(e: Edit, w: string): string
    requires Applicable(e, w)
  {
    match e
    case Insert(p, c) => w[..p] + [c] + w[p..]
    case Delete(p) => w[..p] + w[p + 1..]
    case Replace(p, c) => w[..p] + [c] + w[p + 1..]
  }

  /** Carrying out `script` edit by edit rewrites `from` into `to`. */
  predicate Rewrites(script: seq<Edit>, from: string, to: string) {
    if script == [] then from == to
    else Applicable(script[0], from) && Rewrites(script[1..], Apply(script[0], from), to)
  }

  /** `d` is the length of a shortest script from `from` to `to`. */
  ghost predicate IsDistance(from: string, to: string, d: nat) {
    && (exists script :: Rewrites(script, from, to) && |script| == d)
    && (forall script :: Rewrites(script, from, to) ==> d <= |script|)
  }

  // The recurrence the table follows, on whole words.

  function Min(x: int, y: int): (r: int)
    ensures r <= x && r <= y && (r == x || r == y)
  {
    if x < y then x else y
  }

  function Init(w: string): string
    requires w != ""
  {
    w[..|w| - 1]
  }

  function Last(w: string): char
    requires w != ""
  {
    w[|w| - 1]
  }

  function Lev(a: string, b: string): nat
    decreases |a| + |b|
  {
    if a == "" then |b|
    else if b == "" then |a|
    else if Last(a) == Last(b) then Lev(Init(a), Init(b))
    else 1 + Min(Lev(Init(a), b), Min(Lev(a, Init(b)), Lev(Init(a), Init(b))))
  }

  /** Removing the last character of one word moves the distance by at most one. */
  lemma {:induction false} LevIsLipschitz(a: string, b: string)
    ensures a != "" ==> -1 <= Lev(a, b) - Lev(Init(a), b) <= 1
    ensures b != "" ==> -1 <= Lev(a, b) - Lev(a, Init(b)) <= 1
    decreases |a| + |b|
  {
    if a != "" && b != "" {
      LevIsLipschitz(Init(a), b);
      LevIsLipschitz(a, Init(b));
    }
  }

  lemma {:induction false} ReplacingLastCostsOne(a: string, c: char, b: string)
    requires a != ""
    ensures Lev(a, b) <= 1 + Lev(Init(a) + [c], b)
    decreases |b|
  {
    var a' := Init(a) + [c];
    assert Init(a') == Init(a);
    LevIsLipschitz(a, b);
    if b != "" {
      ReplacingLastCostsOne(a, c, Init(b));
    }
  }

  lemma EditAtEndCostsOne(e: Edit, a: string, b: string)
    requires Applicable(e, a)
    requires e.pos == |a| - if e.Insert? then 0 else 1
    ensures Lev(a, b) <= 1 + Lev(Apply(e, a), b)
  {
    match e
    case Insert(_, c) =>
      assert Init(a + [c]) == a == a[..e.pos] && Apply(e, a) == a + [c];
      LevIsLipschitz(a + [c], b);
    case Delete(_) =>
      assert Apply(e, a) == Init(a);
      LevIsLipschitz(a, b);
    case Replace(_, c) =>
      assert Apply(e, a) == Init(a) + [c];
      ReplacingLastCostsOne(a, c, b);
  }

  lemma EditBeforeLast(e: Edit, a: string)
    requires Applicable(e, a) && e.pos < |a| - if e.Insert? then 0 else 1
    ensures Applicable(e, Init(a)) && Apply(e, a) != ""
    ensures Init(Apply(e, a)) == Apply(e, Init(a)) && Last(Apply(e, a)) == Last(a)
  {
  }

  /** One edit anywhere in the first word lowers the distance by at most one. */
  lemma {:induction false} OneEditGainsAtMostOne(e: Edit, a: string, b: string)
    requires Applicable(e, a)
    ensures Lev(a, b) <= 1 + Lev(Apply(e, a), b)
    decreases |a| + |b|
  {
    if e.pos == |a| - if e.Insert? then 0 else 1 {
      EditAtEndCostsOne(e, a, b);
    } else {
      EditBeforeLast(e, a);
      if b != "" {
        OneEditGainsAtMostOne(e, Init(a), b);
        OneEditGainsAtMostOne(e, a, Init(b));
        OneEditGainsAtMostOne(e, Init(a), Init(b));
      }
      hide Apply;
    }
  }

  /** The edit that undoes `e`. */
  function Inverse(e: Edit, w: string): Edit
    requires Applicable(e, w)
  {
    match e
    case Insert(p, _) => Delete(p)
    case Delete(p) => Insert(p, w[p])
    case Replace(p, _) => Replace(p, w[p])
  }

  lemma InverseUndoes(e: Edit, w: string)
    requires Applicable(e, w)
    ensures Applicable(Inverse(e, w), Apply(e, w)) && Apply(Inverse(e, w), Apply(e, w)) == w
  {
  }

  /** One edit anywhere in the first word moves the distance by at most one. */
  lemma OneEditCostsOne(e: Edit, a: string, b: string)
    requires Applicable(e, a)
    ensures -1 <= Lev(Apply(e, a), b) - Lev(a, b) <= 1
  {
    InverseUndoes(e, a);
    hide Apply, Lev;
    OneEditGainsAtMostOne(e, a, b);
    OneEditGainsAtMostOne(Inverse(e, a), Apply(e, a), b);
  }

  lemma {:induction false} NoScriptIsShorter(script: seq<Edit>, a: string, b: string)
    requires Rewrites(script, a, b)
    ensures Lev(a, b) <= |script|
    decreases |script|
  {
    if script == [] {
      LevOfEqualWords(a);
    } else {
      NoScriptIsShorter(script[1..], Apply(script[0], a), b);
      OneEditCostsOne(script[0], a, b);
    }
  }

  lemma {:induction false} LevOfEqualWords(a: string)
    ensures Lev(a, a) == 0
    decreases |a|
  {
    if a != "" {
      LevOfEqualWords(Init(a));
    }
  }

  lemma SliceWithTail(a: string, tail: string, p: nat)
    requires p <= |a|
    ensures (a + tail)[..p] == a[..p] && (a + tail)[p..] == a[p..] + tail
  {
  }

  lemma ApplyWithTail(e: Edit, a: string, tail: string)
    requires Applicable(e, a)
    ensures Applicable(e, a + tail) && Apply(e, a + tail) == Apply(e, a) + tail
  {
    var p := if e.Insert? then e.pos else e.pos + 1;
    SliceWithTail(a, tail, e.pos);
    SliceWithTail(a, tail, p);
    var left := if e.Delete? then a[..e.pos] else a[..e.pos] + [e.c];
    assert Apply(e, a + tail) == left + (a[p..] + tail);
    assert Apply(e, a) == left + a[p..];
    assert left + (a[p..] + tail) == left + a[p..] + tail;
  }

  /** A script also works when the same tail follows both words. */
  lemma {:induction false} RewritesWithTail(script: seq<Edit>, a: string, b: string, tail: string)
    requires Rewrites(script, a, b)
    ensures Rewrites(script, a + tail, b + tail)
    decreases |script|
  {
    if script != [] {
      var e := script[0];
      ApplyWithTail(e, a, tail);
      RewritesWithTail(script[1..], Apply(e, a), b, tail);
    }
  }

  lemma {:induction false} RewritesThen(script: seq<Edit>, a: string, b: string, e: Edit)
    requires Rewrites(script, a, b) && Applicable(e, b)
    ensures Rewrites(script + [e], a, Apply(e, b))
    decreases |script|
  {
    if script == [] {
      assert [e][1..] == [];
    } else {
      RewritesThen(script[1..], Apply(script[0], a), b, e);
      assert (script + [e])[1..] == script[1..] + [e];
    }
  }

  lemma {:induction false} ShortestScript(a: string, b: string) returns (script: seq<Edit>)
    ensures Rewrites(script, a, b) && |script| == Lev(a, b)
    decreases |a| + |b|
  {
    if a == "" && b == "" {
      script := [];
    } else if b == "" || (a != "" && Last(a) != Last(b) && Lev(a, b) == 1 + Lev(Init(a), b)) {
      var rest := ShortestScript(Init(a), b);
      script := DeleteLast(rest, a, b);
    } else if a == "" || (Last(a) != Last(b) && Lev(a, b) == 1 + Lev(a, Init(b))) {
      var rest := ShortestScript(a, Init(b));
      script := InsertLast(rest, a, b);
    } else if Last(a) == Last(b) {
      script := ShortestScript(Init(a), Init(b));
      KeepLast(script, a, b);
    } else {
      var rest := ShortestScript(Init(a), Init(b));
      script := ReplaceLast(rest, a, b);
    }
  }

  lemma DeleteLast(rest: seq<Edit>, a: string, b: string) returns (script: seq<Edit>)
    requires a != "" && Rewrites(rest, Init(a), b)
    ensures Rewrites(script, a, b) && |script| == |rest| + 1
  {
    script := [Delete(|a| - 1)] + rest;
    assert Apply(script[0], a) == Init(a) && script[1..] == rest;
  }

  lemma InsertLast(rest: seq<Edit>, a: string, b: string) returns (script: seq<Edit>)
    requires b != "" && Rewrites(rest, a, Init(b))
    ensures Rewrites(script, a, b) && |script| == |rest| + 1
  {
    var e := Insert(|b| - 1, Last(b));
    RewritesThen(rest, a, Init(b), e);
    assert Apply(e, Init(b)) == b;
    script := rest + [e];
  }

  lemma InitAndLast(w: string)
    requires w != ""
    ensures w == Init(w) + [Last(w)]
  {
  }

  lemma KeepLast(script: seq<Edit>, a: string, b: string)
    requires a != "" && b != "" && Last(a) == Last(b) && Rewrites(script, Init(a), Init(b))
    ensures Rewrites(script, a, b)
  {
    hide *;
    RewritesWithTail(script, Init(a), Init(b), [Last(a)]);
    InitAndLast(a);
    InitAndLast(b);
  }

  lemma ReplaceLast(rest: seq<Edit>, a: string, b: string) returns (script: seq<Edit>)
    requires a != "" && b != "" && Rewrites(rest, Init(a), Init(b))
    ensures Rewrites(script, a, b) && |script| == |rest| + 1
  {
    hide *;
    RewritesWithTail(rest, Init(a), Init(b), [Last(a)]);
    InitAndLast(a);
    InitAndLast(b);
    ReplaceLastCharacter(Init(b), Last(a), Last(b));
    var e := Replace(|Init(b)|, Last(b));
    RewritesThen(rest, a, Init(b) + [Last(a)], e);
    script := rest + [e];
  }

  lemma ReplaceLastCharacter(u: string, x: char, y: char)
    ensures Applicable(Replace(|u|, y), u + [x]) && Apply(Replace(|u|, y), u + [x]) == u + [y]
  {
    assert (u + [x])[..|u|] == u && (u + [x])[|u| + 1..] == [];
  }

  /** The recurrence computes the distance defined by scripts. */
  lemma LevIsDistance(a: string, b: string)
    ensures IsDistance(a, b, Lev(a, b))
  {
    var script := ShortestScript(a, b);
    forall script | Rewrites(script, a, b)
      ensures Lev(a, b) <= |script|
    {
      NoScriptIsShorter(script, a, b);
    }
  }

  /** The distance between prefixes: what a cell of the table holds. */
  function LevAt(a: string, b: string, i: nat, j: nat): nat
    requires i <= |a| && j <= |b|
  {
    Lev(a[..i], b[..j])
  }

  lemma LevAtRecurrence(a: string, b: string, i: nat, j: nat)
    requires i <= |a| && j <= |b|
    ensures i == 0 ==> LevAt(a, b, i, j) == j
    ensures j == 0 ==> LevAt(a, b, i, j) == i
    ensures i > 0 && j > 0 ==>
              LevAt(a, b, i, j) ==
              if a[i - 1] == b[j - 1] then LevAt(a, b, i - 1, j - 1)
              else 1 + Min(LevAt(a, b, i - 1, j), Min(LevAt(a, b, i, j - 1), LevAt(a, b, i - 1, j - 1)))
  {
    if i > 0 && j > 0 {
      assert Init(a[..i]) == a[..i - 1] && Init(b[..j]) == b[..j - 1];
    }
  }

  method MinDistance(word1: string, word2: string) returns (d: nat)
    ensures IsDistance(word1, word2, d)
  {
    hide *;
    var m, n := |word1|, |word2|;
    var dp := new nat[m + 1, n + 1]((_, _) => 0);
    for i := 0 to m + 1
      invariant forall x :: 0 <= x < i ==> dp[x, 0] == LevAt(word1, word2, x, 0)
    {
      LevAtRecurrence(word1, word2, i, 0);
      dp[i, 0] := i;
    }
    for j := 0 to n + 1
      invariant forall x :: 0 <= x <= m ==> dp[x, 0] == LevAt(word1, word2, x, 0)
      invariant forall y :: 0 <= y < j ==> dp[0, y] == LevAt(word1, word2, 0, y)
    {
      LevAtRecurrence(word1, word2, 0, j);
      dp[0, j] := j;
    }
    for i := 1 to m + 1
      invariant forall x, y :: 0 <= x < i && 0 <= y <= n ==> dp[x, y] == LevAt(word1, word2, x, y)
      invariant forall x :: i <= x <= m ==> dp[x, 0] == LevAt(word1, word2, x, 0)
    {
      for j := 1 to n + 1
        invariant forall x, y :: 0 <= x < i && 0 <= y <= n ==> dp[x, y] == LevAt(word1, word2, x, y)
        invariant forall x :: i <= x <= m ==> dp[x, 0] == LevAt(word1, word2, x, 0)
        invariant forall y :: 0 <= y < j ==> dp[i, y] == LevAt(word1, word2, i, y)
      {
        LevAtRecurrence(word1, word2, i, j);
        if word1[i - 1] == word2[j - 1] {
          dp[i, j] := dp[i - 1, j - 1];
        } else {
          var minVal := dp[i - 1, j] + 1;
          if dp[i, j - 1] + 1 < minVal { minVal := dp[i, j - 1] + 1; }
          if dp[i - 1, j - 1] + 1 < minVal { minVal := dp[i - 1, j - 1] + 1; }
          dp[i, j] := minVal;
        }
      }
    }
    d := dp[m, n];
    LevAtIsDistance(word1, word2);
  }

  lemma LevAtIsDistance(a: string, b: string)
    ensures IsDistance(a, b, LevAt(a, b, |a|, |b|))
  {
    assert a[..|a|] == a && b[..|b|] == b;
    LevIsDistance(a, b);
  }
}
