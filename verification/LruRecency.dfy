// What a whole run of Get and Put leaves in the cache, told by recency of use alone.
module LruRecency {
  import opened Sets
  import opened LruCache

  datatype Op = Get(key: int) | Put(key: int, value: int)

  /** The cache contents after a run, by the specification the class is proved against. */
  function Run(cap: int, ops: seq<Op>): seq<Entry>
    decreases |ops|
  {
    if ops == [] then []
    else
      var c := Run(cap, ops[..|ops| - 1]);
      match ops[|ops| - 1]
      case Get(key) => AfterGet(c, key)
      case Put(key, value) => AfterPut(c, cap, key, value)
  }

  ghost predicate Answered(cap: int, ops: seq<Op>, answers: seq<int>, n: nat)
    requires n <= |ops|
  {
    |answers| == n
    && forall x :: 0 <= x < n && ops[x].Get? ==> answers[x] == Lookup(Run(cap, ops[..x]), ops[x].key)
  }

  lemma RunStep(cap: int, ops: seq<Op>, i: nat)
    requires i < |ops|
    ensures ops[i].Get? ==> Run(cap, ops[..i + 1]) == AfterGet(Run(cap, ops[..i]), ops[i].key)
    ensures ops[i].Put? ==> Run(cap, ops[..i + 1]) == AfterPut(Run(cap, ops[..i]), cap, ops[i].key, ops[i].value)
    ensures Run(cap, ops[..0]) == []
  {
    assert ops[..i + 1][..i] == ops[..i];
  }

  lemma AnsweredStep(cap: int, ops: seq<Op>, answers: seq<int>, n: nat, r: int)
    requires n < |ops| && Answered(cap, ops, answers, n)
    requires ops[n].Get? ==> r == Lookup(Run(cap, ops[..n]), ops[n].key)
    ensures Answered(cap, ops, answers + [r], n + 1)
  {
    hide Run, Lookup;
  }

  /** One operation on a cache object; a Put answers nothing, recorded as 0. */
  method Perform(cache: Cache, op: Op) returns (r: int)
    requires cache.Valid()
    modifies cache, cache.l
    ensures cache.Valid()
    ensures cache.Contents() == if op.Get? then AfterGet(old(cache.Contents()), op.key)
                                else AfterPut(old(cache.Contents()), cache.cap, op.key, op.value)
    ensures op.Get? ==> r == Lookup(old(cache.Contents()), op.key)
    ensures forall e :: e in cache.l ==> e in old(cache.l) || fresh(e)
  {
    hide *;
    match op
    case Get(key) =>
      r := cache.Get(key);
    case Put(key, value) =>
      cache.Put(key, value);
      r := 0;
  }

  /** Carrying out a run on a new cache object leaves exactly `Run`, and every Get answers by `Lookup`. */
  method Replay(capacity: int, ops: seq<Op>) returns (cache: Cache, answers: seq<int>)
    requires capacity >= 1
    ensures cache.Valid() && cache.cap == capacity && cache.Contents() == Run(capacity, ops)
    ensures Answered(capacity, ops, answers, |ops|)
  {
    cache := new Cache(capacity);
    answers := [];
    assert ops[..0] == [] && Run(capacity, []) == [];
    hide Run, Cache.Valid, Cache.Contents, Lookup;
    for i := 0 to |ops|
      invariant fresh(cache) && (forall e :: e in cache.l ==> fresh(e))
      invariant cache.Valid() && cache.cap == capacity && cache.Contents() == Run(capacity, ops[..i])
      invariant Answered(capacity, ops, answers, i)
    {
      RunStep(capacity, ops, i);
      var r := Perform(cache, ops[i]);
      AnsweredStep(capacity, ops, answers, i, r);
      answers := answers + [r];
    }
    assert ops[..|ops|] == ops;
  }

  // Uses of keys over a run.

  /** Every Put is a use, and every Get of a key that was used recently enough. */
  function Uses(cap: int, ops: seq<Op>): seq<int>
    decreases |ops|
  {
    if ops == [] then []
    else
      var before, op := ops[..|ops| - 1], ops[|ops| - 1];
      Uses(cap, before) + if op.Put? || Recent(cap, Uses(cap, before), op.key) then [op.key] else []
  }

  /** The keys used after the last use of `k`. */
  function UsedSince(t: seq<int>, k: int): set<int>
    decreases |t|
  {
    if t == [] || t[|t| - 1] == k then {}
    else UsedSince(t[..|t| - 1], k) + {t[|t| - 1]}
  }

  function LastPut(ops: seq<Op>, k: int): int
    decreases |ops|
  {
    if ops == [] then -1
    else if ops[|ops| - 1].Put? && ops[|ops| - 1].key == k then ops[|ops| - 1].value
    else LastPut(ops[..|ops| - 1], k)
  }

  /** A key is still cached when fewer than `cap` other keys were used since. */
  predicate Recent(cap: int, t: seq<int>, k: int) {
    k in t && |UsedSince(t, k)| < cap
  }

  /** The entries stand in order of last use, and exactly the recently used keys are there. */
  ghost predicate ByRecency(cap: int, c: seq<Entry>, t: seq<int>) {
    && |c| <= cap
    && (forall i :: 0 <= i < |c| ==> c[i].0 in t && |UsedSince(t, c[i].0)| == i)
    && (forall k :: Recent(cap, t, k) ==> HasKey(c, k))
  }

  // One use of a key.

  lemma UseOf(t: seq<int>, k: int, x: int)
    ensures UsedSince(t + [k], x) == if x == k then {} else UsedSince(t, x) + {k}
    ensures x in t + [k] <==> x in t || x == k
  {
    assert (t + [k])[..|t|] == t;
  }

  /** Of two used keys, one was used after the last use of the other. */
  lemma {:induction false} Comparable(t: seq<int>, x: int, y: int)
    requires x in t && y in t && x != y
    ensures x in UsedSince(t, y) <==> y !in UsedSince(t, x)
    ensures x in UsedSince(t, y) ==> UsedSince(t, x) + {x} <= UsedSince(t, y)
    decreases |t|
  {
    var before, last := t[..|t| - 1], t[|t| - 1];
    assert t == before + [last];
    UseOf(before, last, x);
    UseOf(before, last, y);
    if last != x && last != y {
      Comparable(before, x, y);
    } else {
      NotUsedSinceItself(before, x);
      NotUsedSinceItself(before, y);
      NotUsedSinceItself(t, x);
      NotUsedSinceItself(t, y);
    }
  }

  lemma {:induction false} NotUsedSinceItself(t: seq<int>, x: int)
    ensures x !in UsedSince(t, x)
    decreases |t|
  {
    if t != [] && t[|t| - 1] != x {
      NotUsedSinceItself(t[..|t| - 1], x);
    }
  }

  /** The more keys were used since, the longer ago the last use. */
  lemma OlderHasMore(t: seq<int>, x: int, y: int)
    requires x in t && y in t && x != y
    ensures x in UsedSince(t, y) <==> |UsedSince(t, x)| < |UsedSince(t, y)|
  {
    Comparable(t, x, y);
    NotUsedSinceItself(t, x);
    NotUsedSinceItself(t, y);
    if x in UsedSince(t, y) {
      SubsetSize(UsedSince(t, x) + {x}, UsedSince(t, y));
    } else {
      Comparable(t, y, x);
      SubsetSize(UsedSince(t, y) + {y}, UsedSince(t, x));
    }
  }

  /** Using `k` again leaves the count of every key that is older, and raises that of every key that is newer. */
  lemma CountAfterUse(t: seq<int>, k: int, x: int)
    requires x in t && x != k
    ensures |UsedSince(t + [k], x)| == |UsedSince(t, x)| + if k in UsedSince(t, x) then 0 else 1
  {
    UseOf(t, k, x);
    if k in UsedSince(t, x) {
      assert UsedSince(t, x) + {k} == UsedSince(t, x);
    }
  }

  lemma {:induction false} UsedSinceIsUsed(t: seq<int>, k: int, x: int)
    requires k in UsedSince(t, x)
    ensures k in t
    decreases |t|
  {
    if k != t[|t| - 1] {
      UsedSinceIsUsed(t[..|t| - 1], k, x);
    }
  }

  /** Using a cached key: entries before it are newer and move down, entries behind it stay. */
  lemma ShiftPresent(cap: int, c: seq<Entry>, t: seq<int>, k: int, i: nat)
    requires ByRecency(cap, c, t) && Position(c, k) < |c| && i < |c| && c[i].0 != k
    ensures |UsedSince(t + [k], c[i].0)| == if i < Position(c, k) then i + 1 else i
  {
    hide UsedSince;
    var p, x := Position(c, k), c[i].0;
    assert c[p].0 == k;
    Comparable(t, x, k);
    OlderHasMore(t, x, k);
    CountAfterUse(t, k, x);
  }

  lemma NotCachedNotRecent(cap: int, c: seq<Entry>, t: seq<int>, k: int)
    requires ByRecency(cap, c, t) && Position(c, k) == |c|
    ensures !Recent(cap, t, k)
  {
    assert !HasKey(c, k);
  }

  lemma CachedIffRecent(cap: int, c: seq<Entry>, t: seq<int>, k: int)
    requires ByRecency(cap, c, t)
    ensures Position(c, k) < |c| <==> Recent(cap, t, k)
  {
    hide UsedSince;
    if Position(c, k) < |c| {
      assert c[Position(c, k)].0 == k;
    } else {
      NotCachedNotRecent(cap, c, t, k);
    }
  }

  /** Using a key that is not cached: every entry moves down. */
  lemma ShiftAbsent(cap: int, c: seq<Entry>, t: seq<int>, k: int, i: nat)
    requires ByRecency(cap, c, t) && Position(c, k) == |c| && i < |c|
    ensures c[i].0 != k && |UsedSince(t + [k], c[i].0)| == i + 1
  {
    hide UsedSince;
    var x := c[i].0;
    if k in UsedSince(t, x) {
      UsedSinceIsUsed(t, k, x);
      OlderHasMore(t, k, x);
      NotCachedNotRecent(cap, c, t, k);
      assert false;
    }
    CountAfterUse(t, k, x);
  }

  lemma PresentAt(c: seq<Entry>, cap: int, k: int, v: int, i: nat)
    requires Position(c, k) < |c| && 0 < i < |AfterPut(c, cap, k, v)|
    ensures |AfterPut(c, cap, k, v)| == |c|
    ensures AfterPut(c, cap, k, v)[i] == c[if i <= Position(c, k) then i - 1 else i]
  {
    var p := Position(c, k);
    hide Position;
    IndexWithout(c, (k, v), p, i);
  }

  lemma IndexWithout(c: seq<Entry>, e: Entry, p: nat, i: nat)
    requires p < |c| && 0 < i < |c|
    ensures ([e] + (c[..p] + c[p + 1..]))[i] == c[if i <= p then i - 1 else i]
  {
  }

  lemma CountsAfterPut(cap: int, c: seq<Entry>, t: seq<int>, k: int, v: int, i: nat)
    requires cap >= 1 && ByRecency(cap, c, t) && i < |AfterPut(c, cap, k, v)|
    ensures AfterPut(c, cap, k, v)[i].0 in t + [k]
    ensures |UsedSince(t + [k], AfterPut(c, cap, k, v)[i].0)| == i
  {
    UseOf(t, k, k);
    hide UsedSince;
    var c' := AfterPut(c, cap, k, v);
    if i > 0 {
      if Position(c, k) < |c| {
        var j := if i <= Position(c, k) then i - 1 else i;
        PresentAt(c, cap, k, v, i);
        OtherKey(cap, c, t, k, j);
        ShiftPresent(cap, c, t, k, j);
      } else {
        assert c'[i] == c[i - 1];
        ShiftAbsent(cap, c, t, k, i - 1);
      }
    }
  }

  lemma OtherKey(cap: int, c: seq<Entry>, t: seq<int>, k: int, j: nat)
    requires ByRecency(cap, c, t) && Position(c, k) < |c| && j < |c| && j != Position(c, k)
    ensures c[j].0 != k
  {
  }

  /** Every entry survives a Put, in a new place, except the last of a full cache when the key is new. */
  lemma PutKeepsKeys(c: seq<Entry>, cap: int, k: int, v: int, j: nat)
    requires j < |c| && (Position(c, k) < |c| || |c| != cap || j < cap - 1)
    ensures HasKey(AfterPut(c, cap, k, v), c[j].0) && HasKey(AfterPut(c, cap, k, v), k)
  {
    var c', p := AfterPut(c, cap, k, v), Position(c, k);
    assert c'[0].0 == k;
    hide Position;
    if p == |c| {
      assert c'[j + 1] == c[j];
    } else if j != p {
      var i := if j < p then j + 1 else j;
      IndexWithout(c, (k, v), p, i);
      assert c'[i] == c[j];
    }
  }

  lemma RecentAfterPut(cap: int, c: seq<Entry>, t: seq<int>, k: int, v: int, x: int)
    requires cap >= 1 && ByRecency(cap, c, t) && Recent(cap, t + [k], x)
    ensures HasKey(AfterPut(c, cap, k, v), x)
  {
    UseOf(t, k, x);
    hide UsedSince;
    if x == k {
      assert AfterPut(c, cap, k, v)[0].0 == k;
    } else {
      hide AfterPut;
      CountAfterUse(t, k, x);
      assert Recent(cap, t, x);
      var j :| 0 <= j < |c| && c[j].0 == x;
      if Position(c, k) == |c| {
        ShiftAbsent(cap, c, t, k, j);
      }
      PutKeepsKeys(c, cap, k, v, j);
    }
  }

  /** Using a key keeps the entries in order of recency; what falls out is the least recently used entry. */
  lemma UseKeepsRecency(cap: int, c: seq<Entry>, t: seq<int>, k: int, v: int)
    requires cap >= 1 && ByRecency(cap, c, t)
    ensures ByRecency(cap, AfterPut(c, cap, k, v), t + [k])
  {
    var c' := AfterPut(c, cap, k, v);
    forall i | 0 <= i < |c'|
      ensures c'[i].0 in t + [k] && |UsedSince(t + [k], c'[i].0)| == i
    {
      CountsAfterPut(cap, c, t, k, v, i);
    }
    forall x | Recent(cap, t + [k], x)
      ensures HasKey(c', x)
    {
      RecentAfterPut(cap, c, t, k, v, x);
    }
  }

  lemma GetIsPutOfSameValue(c: seq<Entry>, cap: int, k: int)
    requires Position(c, k) < |c|
    ensures AfterGet(c, k) == AfterPut(c, cap, k, c[Position(c, k)].1)
  {
  }

  /** After every run the cache is the recency order of its uses. */
  lemma {:induction false} RunIsByRecency(cap: int, ops: seq<Op>)
    requires cap >= 1
    ensures ByRecency(cap, Run(cap, ops), Uses(cap, ops))
    decreases |ops|
  {
    if ops != [] {
      var before, op := ops[..|ops| - 1], ops[|ops| - 1];
      RunIsByRecency(cap, before);
      var c, t := Run(cap, before), Uses(cap, before);
      CachedIffRecent(cap, c, t, op.key);
      hide ByRecency, AfterGet, AfterPut, Recent;
      if op.Put? {
        UseKeepsRecency(cap, c, t, op.key, op.value);
      } else if Position(c, op.key) < |c| {
        GetIsPutOfSameValue(c, cap, op.key);
        UseKeepsRecency(cap, c, t, op.key, c[Position(c, op.key)].1);
      } else {
        GetMiss(c, op.key);
        assert t + [] == t;
      }
    }
  }

  lemma GetMiss(c: seq<Entry>, k: int)
    requires Position(c, k) == |c|
    ensures AfterGet(c, k) == c
  {
  }

  lemma RunHasDistinctKeys(cap: int, ops: seq<Op>)
    requires cap >= 1
    ensures DistinctKeys(Run(cap, ops))
  {
    RunIsByRecency(cap, ops);
    hide Run, Uses, UsedSince;
  }

  /** Cached values are the last ones put. */
  lemma {:induction false} ValueIsLastPut(cap: int, ops: seq<Op>, e: Entry)
    requires cap >= 1 && e in Run(cap, ops)
    ensures e.1 == LastPut(ops, e.0)
    decreases |ops|
  {
    var before, op := ops[..|ops| - 1], ops[|ops| - 1];
    var c := Run(cap, before);
    RunHasDistinctKeys(cap, before);
    hide AfterPut, AfterGet, DistinctKeys;
    if op.Put? {
      PutEntries(c, cap, op.key, op.value, e);
    } else {
      GetEntries(c, op.key, e);
    }
    if e in c {
      ValueIsLastPut(cap, before, e);
    }
  }

  lemma PutEntries(c: seq<Entry>, cap: int, k: int, v: int, e: Entry)
    requires DistinctKeys(c) && e in AfterPut(c, cap, k, v)
    ensures e == (k, v) || (e in c && e.0 != k)
  {
  }

  lemma GetEntries(c: seq<Entry>, k: int, e: Entry)
    requires e in AfterGet(c, k)
    ensures e in c
  {
  }

  /** The answer to a Get after any run: the last value put, if fewer than `cap` other keys were used since, else -1. */
  lemma AnswerByRecency(cap: int, ops: seq<Op>, k: int)
    requires cap >= 1
    ensures Lookup(Run(cap, ops), k) == if Recent(cap, Uses(cap, ops), k) then LastPut(ops, k) else -1
  {
    var c, t := Run(cap, ops), Uses(cap, ops);
    RunIsByRecency(cap, ops);
    var p := Position(c, k);
    if p < |c| {
      ValueIsLastPut(cap, ops, c[p]);
    }
    hide Run, Uses, LastPut, UsedSince;
    if Recent(cap, t, k) {
      var j :| 0 <= j < |c| && c[j].0 == k;
    }
  }

  /** A Put that evicts drops the key whose last use is oldest: every other cached key was used since. */
  lemma EvictedIsLeastRecent(cap: int, ops: seq<Op>, k: int, v: int)
    requires cap >= 1 && |Run(cap, ops)| == cap && !HasKey(Run(cap, ops), k)
    ensures var c, t := Run(cap, ops), Uses(cap, ops);
            var gone := c[cap - 1].0;
            && !HasKey(Run(cap, ops + [Put(k, v)]), gone)
            && forall i :: 0 <= i < cap - 1 ==>
                 HasKey(Run(cap, ops + [Put(k, v)]), c[i].0) && c[i].0 in UsedSince(t, gone)
  {
    var c, t := Run(cap, ops), Uses(cap, ops);
    RunIsByRecency(cap, ops);
    assert (ops + [Put(k, v)])[..|ops|] == ops;
    assert Position(c, k) == |c|;
    var c' := Run(cap, ops + [Put(k, v)]);
    assert c' == [(k, v)] + c[..cap - 1];
    hide Run, Uses, UsedSince;
    forall i | 0 <= i < cap - 1
      ensures HasKey(c', c[i].0) && c[i].0 in UsedSince(t, c[cap - 1].0) && c[i].0 != c[cap - 1].0
    {
      assert c'[i + 1] == c[i];
      OlderHasMore(t, c[i].0, c[cap - 1].0);
    }
  }
}
