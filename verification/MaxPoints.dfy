// Most points on one line: directions are keyed by dividing both differences
// by a signed gcd built on the truncating remainder.
module MaxPoints {
  import opened Sets

  type Point = (int, int)

  // Truncating integer arithmetic, as in Go.

  function Abs(a: int): (r: nat)
    ensures r >= a && r >= -a && (r == a || r == -a)
  {
    if a < 0 then -a else a
  }

  /** Quotient rounded toward zero. */
  function Quo(a: int, b: int): int
    requires b != 0
  {
    if (a < 0) == (b < 0) then Abs(a) / Abs(b) else -(Abs(a) / Abs(b))
  }

  /** Remainder with the sign of the dividend. */
  function Rem(a: int, b: int): int
    requires b != 0
  {
    if a < 0 then -(Abs(a) % Abs(b)) else Abs(a) % Abs(b)
  }

  lemma QuoRem(a: int, b: int)
    requires b != 0
    ensures a == b * Quo(a, b) + Rem(a, b) && Abs(Rem(a, b)) < Abs(b)
  {
  }

  function Gcd(a: int, b: int): int
    decreases Abs(b)
  {
    if b == 0 then a else Gcd(b, Rem(a, b))
  }

  lemma ProductAtLeast(x: int, d: nat)
    requires x >= 1
    ensures x * d >= d
  {
  }

  lemma NonZeroProduct(x: int, y: int)
    requires x != 0 && y != 0
    ensures x * y != 0
  {
  }

  lemma DivisionIsUnique(n: nat, d: nat, q: nat, r: nat)
    requires r < d && n == q * d + r
    ensures n / d == q && n % d == r
  {
    SameDivision(d, n / d, n % d, q, r);
  }

  lemma SameDivision(d: nat, q: int, r: nat, q': int, r': nat)
    requires r < d && r' < d && q * d + r == q' * d + r'
    ensures q == q' && r == r'
  {
    assert (q - q') * d == r' - r && (q' - q) * d == r - r';
    if q > q' {
      ProductAtLeast(q - q', d);
      assert false;
    } else if q < q' {
      ProductAtLeast(q' - q, d);
      assert false;
    }
  }

  lemma AbsOfProduct(x: int, y: int)
    ensures Abs(x * y) == Abs(x) * Abs(y)
  {
  }

  lemma SignOfProduct(x: int, y: int)
    ensures x > 0 ==> (x * y < 0 <==> y < 0)
    ensures x < 0 ==> (x * y < 0 <==> y > 0)
  {
  }

  lemma RemainderScales(m: nat, n: nat, d: nat)
    requires m > 0 && d > 0
    ensures m * d > 0 && (m * n) % (m * d) == m * (n % d)
  {
    var q, r := n / d, n % d;
    ProductAtLeast(d - r, m);
    assert (d - r) * m == m * d - m * r;
    ScaledDivision(m, n, d, q, r);
    DivisionIsUnique(m * n, m * d, q, m * r);
  }

  lemma ScaledDivision(m: nat, n: nat, d: nat, q: nat, r: nat)
    requires n == d * q + r
    ensures m * n == q * (m * d) + m * r
  {
    assert m * n == m * (d * q) + m * r;
    assert m * (d * q) == q * (m * d);
  }

  lemma SignedScaling(k: int, a: int, r: int, R: int, s: int, t: int)
    requires k != 0 && (a == 0 ==> r == 0) && R == Abs(k) * r
    requires s == if a < 0 then -r else r
    requires t == if k * a < 0 then -R else R
    ensures t == k * s
  {
    SignOfProduct(k, a);
    assert k * (-r) == -(k * r) == (-k) * r;
  }

  lemma RemFromAbs(x: int, y: int, R: int)
    requires y != 0 && Abs(y) > 0 && Abs(x) % Abs(y) == R
    ensures Rem(x, y) == if x < 0 then -R else R
    ensures x == 0 ==> R == 0
  {
  }

  lemma AbsRemainderScales(k: int, a: int, b: int)
    requires k != 0 && b != 0
    ensures k * b != 0
    ensures Abs(k * a) % Abs(k * b) == Abs(k) * (Abs(a) % Abs(b))
  {
    hide Abs;
    NonZeroAbs(k);
    NonZeroAbs(b);
    NonZeroProduct(k, b);
    NonZeroAbs(k * b);
    AbsOfProduct(k, a);
    AbsOfProduct(k, b);
    RemainderScales(Abs(k), Abs(a), Abs(b));
  }

  lemma NonZeroAbs(a: int)
    requires a != 0
    ensures Abs(a) > 0
  {
  }

  lemma RemScales(k: int, a: int, b: int)
    requires k != 0 && b != 0
    ensures k * b != 0 && Rem(k * a, k * b) == k * Rem(a, b)
  {
    hide Abs, Rem;
    AbsRemainderScales(k, a, b);
    NonZeroAbs(b);
    NonZeroAbs(k * b);
    var r, R := Abs(a) % Abs(b), Abs(k * a) % Abs(k * b);
    RemFromAbs(a, b, r);
    RemFromAbs(k * a, k * b, R);
    SignedScaling(k, a, r, R, Rem(a, b), Rem(k * a, k * b));
  }

  /** The signed gcd scales with its arguments, sign included. */
  lemma {:induction false} GcdScales(k: int, a: int, b: int)
    requires k != 0
    ensures Gcd(k * a, k * b) == k * Gcd(a, b)
    decreases Abs(b)
  {
    if b != 0 {
      RemScales(k, a, b);
      GcdScales(k, b, Rem(a, b));
    }
  }

  lemma {:induction false} GcdDivides(a: int, b: int) returns (u: int, v: int)
    requires a != 0 || b != 0
    ensures Gcd(a, b) != 0 && a == u * Gcd(a, b) && b == v * Gcd(a, b)
    decreases Abs(b)
  {
    if b == 0 {
      u, v := 1, 0;
    } else {
      var q, r := Quo(a, b), Rem(a, b);
      QuoRem(a, b);
      var u', v' := GcdDivides(b, r);
      Combine(u', v', q, Gcd(b, r));
      u, v := u' * q + v', u';
    }
  }

  lemma Combine(u: int, v: int, q: int, g: int)
    ensures (u * g) * q + v * g == (u * q + v) * g
  {
  }

  lemma ExactQuo(u: int, g: int)
    requires g != 0
    ensures Quo(u * g, g) == u
  {
    AbsOfProduct(u, g);
    SignOfProduct(g, u);
    DivisionIsUnique(Abs(u * g), Abs(g), Abs(u), 0);
  }

  /** The map key of a non-zero difference vector: (dy, dx) divided by the signed gcd. */
  function Key(dx: int, dy: int): (int, int)
  {
    var g := Gcd(dx, dy);
    if g == 0 then (0, 0) else (Quo(dy, g), Quo(dx, g))
  }

  /** The key is the vector divided exactly by the gcd. */
  lemma KeyTimesGcd(dx: int, dy: int)
    requires dx != 0 || dy != 0
    ensures Gcd(dx, dy) != 0
    ensures Key(dx, dy).1 * Gcd(dx, dy) == dx && Key(dx, dy).0 * Gcd(dx, dy) == dy
  {
    var u, v := GcdDivides(dx, dy);
    ExactQuo(u, Gcd(dx, dy));
    ExactQuo(v, Gcd(dx, dy));
  }

  predicate Parallel(dx: int, dy: int, ex: int, ey: int) {
    dx * ey == dy * ex
  }

  lemma CommonMultiple(dx: int, dy: int, ex: int, ey: int) returns (k: int, l: int)
    requires (dx != 0 || dy != 0) && (ex != 0 || ey != 0) && Parallel(dx, dy, ex, ey)
    ensures k != 0 && l != 0 && k * dx == l * ex && k * dy == l * ey
  {
    if dx != 0 {
      if ex == 0 { NonZeroProduct(dx, ey); }
      k, l := ex, dx;
    } else {
      if ey == 0 { NonZeroProduct(dy, ex); }
      k, l := ey, dy;
    }
  }

  lemma CancelFactor(x: int, y: int, g: int)
    requires g != 0 && x * g == y * g
    ensures x == y
  {
    assert (x - y) * g == 0;
    if x != y {
      NonZeroProduct(x - y, g);
      assert false;
    }
  }

  /** Two non-zero vectors, opposite ones included, have one key iff they are parallel. */
  lemma KeyPerDirection(dx: int, dy: int, ex: int, ey: int)
    requires (dx != 0 || dy != 0) && (ex != 0 || ey != 0)
    ensures Key(dx, dy) == Key(ex, ey) <==> Parallel(dx, dy, ex, ey)
  {
    var g, h, K, L := Gcd(dx, dy), Gcd(ex, ey), Key(dx, dy), Key(ex, ey);
    KeyTimesGcd(dx, dy);
    KeyTimesGcd(ex, ey);
    if K == L {
      SameRatio(K.1, K.0, g, h);
    }
    if Parallel(dx, dy, ex, ey) {
      var k, l := CommonMultiple(dx, dy, ex, ey);
      GcdScales(k, dx, dy);
      GcdScales(l, ex, ey);
      assert k * g == l * h;
      assert k * g != 0;
      Regroup(K.1, L.1, g, h, k, l);
      Regroup(K.0, L.0, g, h, k, l);
    }
  }

  lemma SameRatio(u: int, v: int, g: int, h: int)
    ensures (u * g) * (v * h) == (v * g) * (u * h)
  {
  }

  lemma Regroup(x: int, y: int, g: int, h: int, k: int, l: int)
    requires k * g == l * h != 0 && k * (x * g) == l * (y * h)
    ensures x == y
  {
    assert x * (k * g) == y * (k * g) by {
      assert x * (k * g) == k * (x * g);
      assert y * (l * h) == l * (y * h);
    }
    CancelFactor(x, y, k * g);
  }

  // Lines through points.

  ghost predicate OnLine(a: real, b: real, c: real, p: Point) {
    a * p.0 as real + b * p.1 as real == c
  }

  ghost predicate AllOnLine(a: real, b: real, c: real, points: seq<Point>, S: set<nat>) {
    (a != 0.0 || b != 0.0) && forall i :: i in S ==> i < |points| && OnLine(a, b, c, points[i])
  }

  ghost predicate Collinear(points: seq<Point>, S: set<nat>) {
    exists a, b, c :: AllOnLine(a, b, c, points, S)
  }

  /** `r` is the size of a largest set of positions whose points share a line. */
  ghost predicate IsLargestOnLine(points: seq<Point>, r: int) {
    && (exists S :: Collinear(points, S) && |S| == r)
    && (forall S :: Collinear(points, S) ==> |S| <= r)
  }

  lemma RealOfProduct(x: int, y: int)
    ensures (x * y) as real == x as real * y as real
  {
  }

  /** Both vectors are orthogonal to one non-zero real vector, so they are parallel. */
  lemma OrthogonalAreParallel(a: real, b: real, ux: real, uy: real, wx: real, wy: real)
    requires a != 0.0 || b != 0.0
    requires a * ux + b * uy == 0.0 && a * wx + b * wy == 0.0
    ensures ux * wy == uy * wx
  {
    if a != 0.0 {
      assert a * (ux * wy - uy * wx) == 0.0 by {
        assert a * (ux * wy - uy * wx) == (a * ux) * wy - (a * wx) * uy;
        assert (b * uy) * wy == (b * wy) * uy;
      }
    } else {
      assert b * uy == 0.0 && b * wy == 0.0;
    }
  }

  lemma OneLineMeansParallel(a: real, b: real, c: real, p: Point, q: Point, r: Point)
    requires a != 0.0 || b != 0.0
    requires OnLine(a, b, c, p) && OnLine(a, b, c, q) && OnLine(a, b, c, r)
    ensures Parallel(q.0 - p.0, q.1 - p.1, r.0 - p.0, r.1 - p.1)
  {
    var ux, uy, wx, wy := q.0 - p.0, q.1 - p.1, r.0 - p.0, r.1 - p.1;
    OrthogonalAreParallel(a, b, ux as real, uy as real, wx as real, wy as real);
    RealOfProduct(ux, wy);
    RealOfProduct(uy, wx);
  }

  /** The line through `p` with direction (dx, dy) passes through every point parallel to it. */
  lemma LineThrough(p: Point, q: Point, dx: int, dy: int)
    requires Parallel(dx, dy, q.0 - p.0, q.1 - p.1)
    ensures OnLine(dy as real, -dx as real, (dy * p.0 - dx * p.1) as real, q)
  {
    RealOfProduct(dy, q.0);
    RealOfProduct(-dx, q.1);
    assert dy * q.0 + (-dx) * q.1 == dy * p.0 - dx * p.1;
  }

  // What one pass of the inner loop counts.

  /** Positions after `i`, below `j`, holding the same point. */
  ghost function Duplicates(points: seq<Point>, i: nat, j: nat): set<nat>
    requires i < j <= |points|
  {
    set m: nat | i < m < j && points[m] == points[i]
  }

  /** Positions after `i`, below `j`, in direction `key` from point `i`. */
  ghost function Bucket(points: seq<Point>, i: nat, j: nat, key: (int, int)): set<nat>
    requires i < j <= |points|
  {
    set m: nat | i < m < j && points[m] != points[i] &&
                 Key(points[m].0 - points[i].0, points[m].1 - points[i].1) == key
  }

  lemma DuplicatesStep(points: seq<Point>, i: nat, j: nat)
    requires i < j < |points|
    ensures Duplicates(points, i, j + 1) ==
            Duplicates(points, i, j) + if points[j] == points[i] then {j} else {}
    ensures j !in Duplicates(points, i, j)
  {
  }

  lemma BucketStep(points: seq<Point>, i: nat, j: nat, key: (int, int))
    requires i < j < |points|
    ensures Bucket(points, i, j + 1, key) ==
            Bucket(points, i, j, key) +
              if points[j] != points[i] && Key(points[j].0 - points[i].0, points[j].1 - points[i].1) == key
              then {j} else {}
    ensures j !in Bucket(points, i, j, key)
  {
    hide Key;
  }

  /** Point `i` with its duplicates and one of its buckets. */
  ghost function Star(points: seq<Point>, i: nat, key: (int, int)): set<nat>
    requires i < |points|
  {
    {i} + Duplicates(points, i, |points|) + Bucket(points, i, |points|, key)
  }

  lemma StarSize(points: seq<Point>, i: nat, key: (int, int))
    requires i < |points|
    ensures |Star(points, i, key)| == 1 + |Duplicates(points, i, |points|)| + |Bucket(points, i, |points|, key)|
  {
    var D, B := Duplicates(points, i, |points|), Bucket(points, i, |points|, key);
    assert {i} !! D && ({i} + D) !! B;
  }

  lemma StarIsCollinear(points: seq<Point>, i: nat, key: (int, int))
    requires i < |points|
    ensures Collinear(points, Star(points, i, key))
  {
    hide Key, OnLine;
    var p, B := points[i], Bucket(points, i, |points|, key);
    var dx, dy := 1, 0;
    if m :| m in B {
      dx, dy := points[m].0 - p.0, points[m].1 - p.1;
    }
    forall m | m in Star(points, i, key)
      ensures OnLine(dy as real, -dx as real, (dy * p.0 - dx * p.1) as real, points[m])
    {
      var ex, ey := points[m].0 - p.0, points[m].1 - p.1;
      if m in B {
        KeyPerDirection(dx, dy, ex, ey);
      }
      LineThrough(p, points[m], dx, dy);
    }
    assert AllOnLine(dy as real, -dx as real, (dy * p.0 - dx * p.1) as real, points, Star(points, i, key));
  }

  /** A collinear set with least position `i` lies in one star of `i`. */
  lemma CollinearInStar(points: seq<Point>, S: set<nat>, i: nat) returns (key: (int, int))
    requires Collinear(points, S) && i in S && forall m :: m in S ==> i <= m
    ensures i < |points| && S <= Star(points, i, key)
  {
    hide Key, OnLine;
    var a, b, c :| AllOnLine(a, b, c, points, S);
    key := (0, 0);
    var p := points[i];
    if k :| k in S && points[k] != p {
      key := Key(points[k].0 - p.0, points[k].1 - p.1);
      forall m | m in S && points[m] != p
        ensures Key(points[m].0 - p.0, points[m].1 - p.1) == key
      {
        OneLineMeansParallel(a, b, c, p, points[m], points[k]);
        KeyPerDirection(points[m].0 - p.0, points[m].1 - p.1, points[k].0 - p.0, points[k].1 - p.1);
      }
    }
  }

  lemma {:induction false} LeastPosition(S: set<nat>) returns (i: nat)
    requires S != {}
    ensures i in S && forall m :: m in S ==> i <= m
  {
    i :| i in S;
    var rest := S - {i};
    assert forall m :: m in S ==> m == i || m in rest;
    if rest != {} {
      var k := LeastPosition(rest);
      i := if k < i then k else i;
    }
  }

  /** `best` covers every collinear set whose least position is below `i`, and some set attains it. */
  ghost predicate BestBelow(points: seq<Point>, i: nat, best: nat) {
    && (exists S :: Collinear(points, S) && |S| == best)
    && (forall S, m :: Collinear(points, S) && m in S && m < i && (forall x :: x in S ==> m <= x) ==> |S| <= best)
  }

  /** `localMax` is the largest count in the table, and 0 for an empty one. */
  ghost predicate IsMaxOf(slopes: map<(int, int), nat>, localMax: nat) {
    && (forall key :: key in slopes ==> slopes[key] <= localMax)
    && (localMax > 0 ==> exists key :: key in slopes && slopes[key] == localMax)
  }

  /** The counts the inner loop has after comparing point `i` with all later ones. */
  ghost predicate Counted(points: seq<Point>, i: nat, j: nat, slopes: map<(int, int), nat>, duplicates: nat,
                          localMax: nat)
    requires i < j <= |points|
  {
    && duplicates == |Duplicates(points, i, j)|
    && (forall key :: |Bucket(points, i, j, key)| == if key in slopes then slopes[key] else 0)
    && IsMaxOf(slopes, localMax)
  }

  lemma BestStep(points: seq<Point>, i: nat, best: nat, slopes: map<(int, int), nat>, duplicates: nat, localMax: nat)
    requires i < |points| && BestBelow(points, i, best)
    requires Counted(points, i, |points|, slopes, duplicates, localMax)
    ensures BestBelow(points, i + 1, if localMax + duplicates + 1 > best then localMax + duplicates + 1 else best)
  {
    hide Collinear, Star, Bucket, Duplicates;
    var n := localMax + duplicates + 1;
    var key := (0, 0);
    if localMax > 0 {
      key :| key in slopes && slopes[key] == localMax;
    }
    assert |Bucket(points, i, |points|, key)| == localMax by {
      assert key in slopes ==> slopes[key] <= localMax;
    }
    StarIsCollinear(points, i, key);
    StarSize(points, i, key);
    forall S | Collinear(points, S) && i in S && forall x :: x in S ==> i <= x
      ensures |S| <= n
    {
      var k := CollinearInStar(points, S, i);
      StarSize(points, i, k);
      SubsetSize(S, Star(points, i, k));
      assert |Bucket(points, i, |points|, k)| <= localMax;
    }
  }

  lemma BestIsLargest(points: seq<Point>, best: nat)
    requires points != [] && BestBelow(points, |points|, best)
    ensures IsLargestOnLine(points, best)
  {
    forall S | Collinear(points, S)
      ensures |S| <= best
    {
      if S != {} {
        var m := LeastPosition(S);
        assert m < |points|;
      }
    }
  }

  lemma SubsetIsCollinear(points: seq<Point>, S: set<nat>, T: set<nat>)
    requires Collinear(points, T) && S <= T
    ensures Collinear(points, S)
  {
    var a, b, c :| AllOnLine(a, b, c, points, T);
    assert AllOnLine(a, b, c, points, S);
  }

  /** Up to two points always share a line. */
  lemma FewPointsOnLine(points: seq<Point>, all: set<nat>)
    requires |points| <= 2
    requires all == if |points| == 0 then {} else if |points| == 1 then {0} else {0, 1}
    ensures Collinear(points, all)
  {
    hide OnLine, Key;
    if |points| == 0 {
      assert AllOnLine(1.0, 0.0, 0.0, points, all);
    } else {
      var last := points[|points| - 1];
      var key := Key(last.0 - points[0].0, last.1 - points[0].1);
      StarIsCollinear(points, 0, key);
      assert all <= Star(points, 0, key);
      hide *;
      SubsetIsCollinear(points, all, Star(points, 0, key));
    }
  }

  /** The early return. */
  lemma FewPoints(points: seq<Point>)
    requires |points| <= 2
    ensures IsLargestOnLine(points, |points|)
  {
    hide OnLine;
    var all: set<nat> := if |points| == 0 then {} else if |points| == 1 then {0} else {0, 1};
    FewPointsOnLine(points, all);
    forall S | Collinear(points, S)
      ensures |S| <= |points|
    {
      SubsetSize(S, all);
    }
  }

  lemma DuplicateCounted(points: seq<Point>, i: nat, j: nat, slopes: map<(int, int), nat>, duplicates: nat,
                         localMax: nat)
    requires i < j < |points| && points[j] == points[i]
    requires Counted(points, i, j, slopes, duplicates, localMax)
    ensures Counted(points, i, j + 1, slopes, duplicates + 1, localMax)
  {
    hide Key;
    DuplicatesStep(points, i, j);
    forall key
      ensures Bucket(points, i, j + 1, key) == Bucket(points, i, j, key)
    {
      BucketStep(points, i, j, key);
    }
  }

  lemma MaxOfTable(slopes: map<(int, int), nat>, localMax: nat, slope: (int, int), count: nat)
    requires IsMaxOf(slopes, localMax)
    requires count == (if slope in slopes then slopes[slope] else 0) + 1
    ensures IsMaxOf(slopes[slope := count], if count > localMax then count else localMax)
  {
    var slopes' := slopes[slope := count];
    if count > localMax {
      assert slopes'[slope] == count;
    } else {
      var key :| key in slopes && slopes[key] == localMax;
      assert slopes'[key] == localMax;
    }
  }

  lemma BucketCounted(points: seq<Point>, i: nat, j: nat, slopes: map<(int, int), nat>, slope: (int, int),
                      key: (int, int))
    requires i < j < |points| && points[j] != points[i]
    requires slope == Key(points[j].0 - points[i].0, points[j].1 - points[i].1)
    requires |Bucket(points, i, j, key)| == if key in slopes then slopes[key] else 0
    ensures |Bucket(points, i, j + 1, key)| ==
            (if key in slopes then slopes[key] else 0) + if key == slope then 1 else 0
  {
    hide Key;
    BucketStep(points, i, j, key);
    hide Bucket;
  }

  lemma SlopeCounted(points: seq<Point>, i: nat, j: nat, slopes: map<(int, int), nat>, duplicates: nat, localMax: nat,
                     slope: (int, int), count: nat)
    requires i < j < |points| && points[j] != points[i]
    requires Counted(points, i, j, slopes, duplicates, localMax)
    requires slope == Key(points[j].0 - points[i].0, points[j].1 - points[i].1)
    requires count == (if slope in slopes then slopes[slope] else 0) + 1
    ensures Counted(points, i, j + 1, slopes[slope := count], duplicates, if count > localMax then count else localMax)
  {
    hide Key;
    DuplicatesStep(points, i, j);
    hide Duplicates, IsMaxOf;
    var slopes' := slopes[slope := count];
    forall key
      ensures |Bucket(points, i, j + 1, key)| == if key in slopes' then slopes'[key] else 0
    {
      BucketCounted(points, i, j, slopes, slope, key);
    }
    hide Bucket;
    MaxOfTable(slopes, localMax, slope, count);
  }

  lemma NothingCounted(points: seq<Point>, i: nat)
    requires i < |points|
    ensures Counted(points, i, i + 1, map[], 0, 0)
  {
    var j := i + 1;
    forall key
      ensures |Bucket(points, i, j, key)| == 0
    {
      assert Bucket(points, i, j, key) == {};
    }
    assert Duplicates(points, i, i + 1) == {};
  }

  /** The inner loop: compare point `i` with every later point. */
  method CountFrom(points: seq<Point>, i: nat)
      returns (ghost table: map<(int, int), nat>, duplicates: nat, localMax: nat)
    requires i < |points|
    ensures Counted(points, i, |points|, table, duplicates, localMax)
  {
    hide *;
    var slopes: map<(int, int), nat> := map[];
    duplicates, localMax := 0, 0;
    NothingCounted(points, i);
    for j := i + 1 to |points|
      invariant Counted(points, i, j, slopes, duplicates, localMax)
    {
      var dx, dy := points[j].0 - points[i].0, points[j].1 - points[i].1;
      if dx == 0 && dy == 0 {
        DuplicateCounted(points, i, j, slopes, duplicates, localMax);
        duplicates := duplicates + 1;
        continue;
      }
      KeyTimesGcd(dx, dy);
      KeyIsQuotients(dx, dy);
      var g := Gcd(dx, dy);
      var slope := (Quo(dy, g), Quo(dx, g));
      var count := (if slope in slopes then slopes[slope] else 0) + 1;
      SlopeCounted(points, i, j, slopes, duplicates, localMax, slope, count);
      slopes := slopes[slope := count];
      if slopes[slope] > localMax {
        localMax := slopes[slope];
      }
    }
    table := slopes;
  }

  lemma KeyIsQuotients(dx: int, dy: int)
    requires Gcd(dx, dy) != 0
    ensures Key(dx, dy) == (Quo(dy, Gcd(dx, dy)), Quo(dx, Gcd(dx, dy)))
  {
  }

  method MaxOnLine(points: seq<Point>) returns (maxPts: nat)
    ensures IsLargestOnLine(points, maxPts)
  {
    hide *;
    if |points| <= 2 {
      FewPoints(points);
      return |points|;
    }
    maxPts := 1;
    BestAtStart(points);
    for i := 0 to |points|
      invariant BestBelow(points, i, maxPts)
    {
      ghost var slopes;
      var duplicates, localMax;
      slopes, duplicates, localMax := CountFrom(points, i);
      BestStep(points, i, maxPts, slopes, duplicates, localMax);
      if localMax + duplicates + 1 > maxPts {
        maxPts := localMax + duplicates + 1;
      }
    }
    BestIsLargest(points, maxPts);
  }

  lemma BestAtStart(points: seq<Point>)
    requires points != []
    ensures BestBelow(points, 0, 1)
  {
    StarIsCollinear(points, 0, (0, 0));
    var a, b, c :| AllOnLine(a, b, c, points, Star(points, 0, (0, 0)));
    assert AllOnLine(a, b, c, points, {0});
    assert Collinear(points, {0});
  }
}
