// Regular-expression matching with '.' and '*': the table of `isMatch` decides
// membership in the language of the pattern.
module RegexMatch {

  /** One piece of a pattern: a single character, or a character followed by '*'. */
  datatype Token = One(c: char) | Star(c: char)

  predicate CharMatches(pattern: char, x: char) {
    pattern == '.' || pattern == x
  }

  /** The language of a token: one matching character, or any number of them. */
  predicate InToken(t: Token, s: string) {
    && (t.One? ==> |s| == 1)
    && forall k :: 0 <= k < |s| ==> CharMatches(t.c, s[k])
  }

  /** The language of a token sequence is the concatenation of its tokens' languages. */
  ghost predicate InLanguage(ts: seq<Token>, s: string)
    decreases |ts|
  {
    if ts == [] then s == ""
    else exists n :: 0 <= n <= |s| && InLanguage(ts[..|ts| - 1], s[..n]) && InToken(ts[|ts| - 1], s[n..])
  }

  /** The pattern text of a token sequence. */
  function Render(ts: seq<Token>): string
    decreases |ts|
  {
    if ts == [] then ""
    else Render(ts[..|ts| - 1]) + if ts[|ts| - 1].One? then [ts[|ts| - 1].c] else [ts[|ts| - 1].c, '*']
  }

  /** No '*' stands first or directly behind another '*'. */
  predicate WellFormed(p: string) {
    forall k :: 0 <= k < |p| && p[k] == '*' ==> 0 < k && p[k - 1] != '*'
  }

  predicate PlainTokens(ts: seq<Token>) {
    forall k :: 0 <= k < |ts| ==> ts[k].c != '*'
  }

  function Tokens(p: string): (ts: seq<Token>)
    requires WellFormed(p)
    decreases |p|
  {
    if p == "" then []
    else if p[|p| - 1] == '*' then Tokens(p[..|p| - 2]) + [Star(p[|p| - 2])]
    else Tokens(p[..|p| - 1]) + [One(p[|p| - 1])]
  }

  /** Every well-formed pattern is the text of a sequence of plain tokens. */
  lemma {:induction false} TokensRoundTrip(p: string)
    requires WellFormed(p)
    ensures PlainTokens(Tokens(p)) && Render(Tokens(p)) == p
    decreases |p|
  {
    if p != "" {
      var n := if p[|p| - 1] == '*' then |p| - 2 else |p| - 1;
      TokensRoundTrip(p[..n]);
      var before, last := Tokens(p[..n]), if p[|p| - 1] == '*' then Star(p[n]) else One(p[n]);
      assert Tokens(p) == before + [last];
      assert p == p[..n] + p[n..] && p[n..] == if last.Star? then [last.c, '*'] else [last.c];
      hide Tokens, WellFormed;
      assert (before + [last])[..|before|] == before;
    }
  }

  lemma WellFormedExtension(p: string, c: char)
    requires WellFormed(p) && c != '*'
    ensures WellFormed(p + [c]) && WellFormed(p + [c, '*'])
  {
  }

  lemma TokensOfOne(p: string, c: char)
    requires WellFormed(p) && c != '*' && WellFormed(p + [c])
    ensures Tokens(p + [c]) == Tokens(p) + [One(c)]
  {
    hide WellFormed;
    assert (p + [c])[..|p|] == p && (p + [c])[|p|] == c;
  }

  lemma TokensOfStar(p: string, c: char)
    requires WellFormed(p) && c != '*' && WellFormed(p + [c, '*'])
    ensures Tokens(p + [c, '*']) == Tokens(p) + [Star(c)]
  {
    hide WellFormed;
    var q := p + [c, '*'];
    assert q[..|p|] == p && q[|p|] == c && q[|p| + 1] == '*';
  }

  lemma RenderLast(ts: seq<Token>)
    requires ts != [] && PlainTokens(ts)
    ensures var rest, t := ts[..|ts| - 1], ts[|ts| - 1];
            && ts == rest + [t] && PlainTokens(rest) && t.c != '*'
            && Render(ts) == Render(rest) + if t.One? then [t.c] else [t.c, '*']
  {
  }

  /** ... and of no other one. */
  lemma {:induction false} RenderRoundTrip(ts: seq<Token>)
    requires PlainTokens(ts)
    ensures WellFormed(Render(ts)) && Tokens(Render(ts)) == ts
    decreases |ts|
  {
    if ts != [] {
      hide *;
      RenderLast(ts);
      RenderRoundTrip(ts[..|ts| - 1]);
      var p, t := Render(ts[..|ts| - 1]), ts[|ts| - 1];
      WellFormedExtension(p, t.c);
      TokensOfOne(p, t.c);
      TokensOfStar(p, t.c);
    }
  }

  // How membership changes with the last character of the text.

  /** A text is in the language of `ts + [t]` iff some split puts its parts in the two languages. */
  lemma Split(ts: seq<Token>, t: Token, s: string)
    ensures InLanguage(ts + [t], s) <==>
            exists n :: 0 <= n <= |s| && InLanguage(ts, s[..n]) && InToken(t, s[n..])
  {
    var all := ts + [t];
    assert all[..|all| - 1] == ts && all[|all| - 1] == t;
  }

  lemma JoinAt(ts: seq<Token>, t: Token, s: string, n: nat)
    requires n <= |s| && InLanguage(ts, s[..n]) && InToken(t, s[n..])
    ensures InLanguage(ts + [t], s)
  {
    hide InLanguage, InToken;
    Split(ts, t, s);
  }

  lemma OneAtEnd(ts: seq<Token>, c: char, s: string)
    ensures InLanguage(ts + [One(c)], s) <==>
            s != "" && CharMatches(c, s[|s| - 1]) && InLanguage(ts, s[..|s| - 1])
  {
    hide InLanguage;
    Split(ts, One(c), s);
    if s != "" && CharMatches(c, s[|s| - 1]) && InLanguage(ts, s[..|s| - 1]) {
      assert InToken(One(c), s[|s| - 1..]);
    }
  }

  lemma StarAtEnd(ts: seq<Token>, c: char, s: string)
    ensures InLanguage(ts + [Star(c)], s) <==>
            || InLanguage(ts, s)
            || (s != "" && CharMatches(c, s[|s| - 1]) && InLanguage(ts + [Star(c)], s[..|s| - 1]))
  {
    hide InLanguage;
    if InLanguage(ts + [Star(c)], s) {
      StarShrinks(ts, c, s);
    }
    if InLanguage(ts, s) {
      Split(ts, Star(c), s);
      assert s[..|s|] == s && InToken(Star(c), s[|s|..]);
    }
    if s != "" && CharMatches(c, s[|s| - 1]) && InLanguage(ts + [Star(c)], s[..|s| - 1]) {
      StarGrows(ts, c, s);
    }
  }

  lemma ShorterTail(c: char, tail: string)
    requires InToken(Star(c), tail) && tail != ""
    ensures InToken(Star(c), tail[..|tail| - 1]) && CharMatches(c, tail[|tail| - 1])
  {
  }

  lemma StarShrinks(ts: seq<Token>, c: char, s: string)
    requires InLanguage(ts + [Star(c)], s)
    ensures InLanguage(ts, s) || (s != "" && CharMatches(c, s[|s| - 1]) && InLanguage(ts + [Star(c)], s[..|s| - 1]))
  {
    hide InLanguage, InToken, CharMatches;
    Split(ts, Star(c), s);
    var n :| 0 <= n <= |s| && InLanguage(ts, s[..n]) && InToken(Star(c), s[n..]);
    if n == |s| {
      assert s[..n] == s;
    } else {
      var s' := s[..|s| - 1];
      ShorterTail(c, s[n..]);
      assert s[n..][|s| - 1 - n] == s[|s| - 1];
      assert s'[..n] == s[..n] && s'[n..] == s[n..][..|s| - 1 - n];
      JoinAt(ts, Star(c), s', n);
    }
  }

  lemma LongerTail(c: char, tail: string, x: char)
    requires InToken(Star(c), tail) && CharMatches(c, x)
    ensures InToken(Star(c), tail + [x])
  {
  }

  lemma OneLonger(s: string, n: nat)
    requires n < |s|
    ensures s[..n] == s[..|s| - 1][..n] && s[n..] == s[..|s| - 1][n..] + [s[|s| - 1]]
  {
  }

  lemma StarGrows(ts: seq<Token>, c: char, s: string)
    requires s != "" && CharMatches(c, s[|s| - 1]) && InLanguage(ts + [Star(c)], s[..|s| - 1])
    ensures InLanguage(ts + [Star(c)], s)
  {
    hide InLanguage, InToken, CharMatches;
    var s', x := s[..|s| - 1], s[|s| - 1];
    Split(ts, Star(c), s');
    var n :| 0 <= n <= |s'| && InLanguage(ts, s'[..n]) && InToken(Star(c), s'[n..]);
    LongerTail(c, s'[n..], x);
    OneLonger(s, n);
    JoinAt(ts, Star(c), s, n);
  }

  /** What cell (i, j) of the table means. */
  ghost predicate Matches(s: string, p: string, i: nat, j: nat)
    requires i <= |s| && j <= |p| && WellFormed(p)
  {
    InLanguage(Tokens(p[..j]), s[..i])
  }

  /** The recurrence between cells of the table. */
  lemma MatchesCell(s: string, p: string, i: nat, j: nat)
    requires i <= |s| && j <= |p| && WellFormed(p)
    ensures j == 0 ==> (Matches(s, p, i, j) <==> i == 0)
    ensures j > 0 && p[j - 1] != '*' ==>
              (Matches(s, p, i, j) <==> i > 0 && CharMatches(p[j - 1], s[i - 1]) && Matches(s, p, i - 1, j - 1))
    ensures j > 0 && p[j - 1] == '*' ==>
              (Matches(s, p, i, j) <==>
               Matches(s, p, i, j - 2) || (i > 0 && CharMatches(p[j - 2], s[i - 1]) && Matches(s, p, i - 1, j)))
  {
    assert InLanguage([], s[..i]) <==> i == 0;
    hide InLanguage;
    assert i > 0 ==> s[..i][..i - 1] == s[..i - 1];
    if j > 0 {
      if p[j - 1] == '*' {
        assert p[..j][..j - 2] == p[..j - 2];
        StarAtEnd(Tokens(p[..j - 2]), p[j - 2], s[..i]);
      } else {
        assert p[..j][..j - 1] == p[..j - 1];
        OneAtEnd(Tokens(p[..j - 1]), p[j - 1], s[..i]);
      }
    }
  }

  /** The table as the loops fill it: a '*' of the pattern is compared with the text first. */
  function Cell(s: string, p: string, i: nat, j: nat): bool
    requires i <= |s| && j <= |p| && WellFormed(p)
    decreases i, j
  {
    if j == 0 then i == 0
    else if i == 0 then p[j - 1] == '*' && Cell(s, p, 0, j - 2)
    else if p[j - 1] == s[i - 1] || p[j - 1] == '.' then Cell(s, p, i - 1, j - 1)
    else p[j - 1] == '*' && (Cell(s, p, i, j - 2) || (CharMatches(p[j - 2], s[i - 1]) && Cell(s, p, i - 1, j)))
  }

  /** A text and a pattern that do not both contain '*' are judged by the language. */
  lemma {:induction false} CellIsMatches(s: string, p: string, i: nat, j: nat)
    requires i <= |s| && j <= |p| && WellFormed(p)
    requires '*' !in s || '*' !in p
    ensures Cell(s, p, i, j) <==> Matches(s, p, i, j)
    decreases i, j
  {
    MatchesCell(s, p, i, j);
    if j > 0 {
      if p[j - 1] == '*' {
        CellIsMatches(s, p, i, j - 2);
        if i > 0 {
          CellIsMatches(s, p, i - 1, j);
        }
      } else if i > 0 {
        CellIsMatches(s, p, i - 1, j - 1);
      }
    }
  }

  /** The answer is the language's. */
  ghost predicate Correct(s: string, p: string)
    requires WellFormed(p)
  {
    Cell(s, p, |s|, |p|) <==> InLanguage(Tokens(p), s)
  }

  lemma TableIsCorrect(s: string, p: string)
    requires WellFormed(p)
    requires '*' !in s || '*' !in p
    ensures Correct(s, p)
  {
    CellIsMatches(s, p, |s|, |p|);
    assert s[..|s|] == s && p[..|p|] == p;
  }

  /** The answer a '*' of the text gets from ".*" or "..*" is never revised by later characters. */
  lemma {:induction false} AfterLastStar(s: string, p: string, i: nat, m: nat)
    requires 1 <= i <= m <= |s| && s[i - 1] == '*'
    requires forall k :: i <= k < |s| ==> s[k] != '*'
    requires WellFormed(p) && (p == ".*" || (p == "..*" && i == 2))
    ensures Cell(s, p, m, |p|) == (p == ".*" && i == 2)
    decreases m
  {
    assert Cell(s, p, 0, 1) == false;
    assert i > 1 ==> Cell(s, p, i - 1, 1) == Cell(s, p, i - 2, 0) == (i == 2);
    if m > i {
      AfterLastStar(s, p, i, m - 1);
      assert Cell(s, p, m, 1) == Cell(s, p, m - 1, 0) == false;
    } else if p == "..*" {
      assert Cell(s, p, 1, 2) == Cell(s, p, 0, 1);
    }
  }

  lemma SmallTokenLists()
    ensures [] + [Star('.')] == [Star('.')] && [] + [One('.')] == [One('.')]
    ensures [One('.')] + [Star('.')] == [One('.'), Star('.')]
  {
  }

  lemma AnyTextMatches(s: string)
    ensures InLanguage([Star('.')], s)
  {
    assert InLanguage([], "") && s[..0] == "";
    hide InLanguage;
    JoinAt([], Star('.'), s, 0);
    SmallTokenLists();
  }

  lemma AnyCharacterMatches(s: string)
    requires |s| == 1
    ensures InLanguage([One('.')], s)
  {
    assert InLanguage([], "") && s[..0] == "";
    hide InLanguage;
    JoinAt([], One('.'), s, 0);
    SmallTokenLists();
  }

  lemma AnyNonEmptyTextMatches(s: string)
    requires s != ""
    ensures InLanguage([One('.'), Star('.')], s)
  {
    hide InLanguage;
    AnyCharacterMatches(s[..1]);
    JoinAt([One('.')], Star('.'), s, 1);
    SmallTokenLists();
  }

  lemma DotPatterns()
    ensures WellFormed(".*") && Tokens(".*") == [Star('.')]
    ensures WellFormed("..*") && Tokens("..*") == [One('.'), Star('.')]
  {
    assert ".*"[..0] == "" && Tokens("") == [];
    assert "..*"[..1] == "." && "."[..0] == "";
    assert Tokens(".") == [] + [One('.')];
  }

  /** A text with a '*' is misjudged by ".*", or, if its last '*' is the second character, by "..*". */
  lemma StarIsMisjudged(s: string, i: nat)
    requires 1 <= i <= |s| && s[i - 1] == '*' && forall k :: i <= k < |s| ==> s[k] != '*'
    ensures WellFormed(".*") && WellFormed("..*")
    ensures !Correct(s, if i == 2 then "..*" else ".*")
  {
    AnyTextMatches(s);
    AnyNonEmptyTextMatches(s);
    DotPatterns();
    AfterLastStar(s, if i == 2 then "..*" else ".*", i, |s|);
  }

  lemma {:induction false} LastStar(s: string, n: nat) returns (i: nat)
    requires n <= |s| && '*' in s[..n] && forall k :: n <= k < |s| ==> s[k] != '*'
    ensures 1 <= i <= |s| && s[i - 1] == '*' && forall k :: i <= k < |s| ==> s[k] != '*'
  {
    if s[n - 1] == '*' {
      i := n;
    } else {
      i := LastStar(s, n - 1);
    }
  }

  /** Exactly the texts without '*' are judged correctly by every pattern. */
  lemma CorrectTexts(s: string)
    ensures (forall p :: WellFormed(p) ==> Correct(s, p)) <==> '*' !in s
  {
    hide Correct;
    if '*' !in s {
      forall p | WellFormed(p)
        ensures Correct(s, p)
      {
        TableIsCorrect(s, p);
      }
    } else {
      assert s[..|s|] == s;
      var i := LastStar(s, |s|);
      StarIsMisjudged(s, i);
    }
  }

  // Patterns with a '*' : each misjudges some text.

  predicate NoStar(s: string) { '*' !in s }

  /** A shortest text of the language, without '*'. */
  function Least(ts: seq<Token>): string
    decreases |ts|
  {
    if ts == [] then ""
    else
      var last := ts[|ts| - 1];
      Least(ts[..|ts| - 1]) + if last.Star? then "" else if last.c == '.' then "a" else [last.c]
  }

  lemma {:induction false} LeastIsShortest(ts: seq<Token>, s: string)
    requires PlainTokens(ts)
    ensures InLanguage(ts, Least(ts)) && NoStar(Least(ts))
    ensures InLanguage(ts, s) ==> |Least(ts)| <= |s|
    decreases |ts|, |s|
  {
    hide InLanguage;
    if ts == [] {
      EmptyLanguage(s);
      EmptyLanguage("");
    } else {
      var rest, t := ts[..|ts| - 1], ts[|ts| - 1];
      assert ts == rest + [t];
      LeastIsShortest(rest, s);
      var least := Least(rest);
      if t.One? {
        assert Least(ts)[..|least|] == least;
        OneAtEnd(rest, t.c, Least(ts));
        OneAtEnd(rest, t.c, s);
        if s != "" {
          LeastIsShortest(rest, s[..|s| - 1]);
        }
      } else {
        assert Least(ts) == least;
        StarAtEnd(rest, t.c, least);
        StarAtEnd(rest, t.c, s);
        if s != "" {
          LeastIsShortest(ts, s[..|s| - 1]);
        }
      }
    }
  }

  lemma EmptyLanguage(s: string)
    ensures InLanguage([], s) <==> s == ""
  {
  }

  /** A language with a text that ends in '*' has one whose other characters are few and no '*'. */
  lemma {:induction false} ShortTextWithStar(ts: seq<Token>, z: string) returns (v: string)
    requires PlainTokens(ts) && InLanguage(ts, z + "*")
    ensures NoStar(v) && |v| <= |Least(ts)| && InLanguage(ts, v + "*")
    decreases |ts|
  {
    hide InLanguage;
    assert (z + "*")[..|z|] == z && (z + "*")[|z|] == '*';
    if ts == [] {
      v := "";
      EmptyLanguage(z + "*");
    } else {
      var rest, t := ts[..|ts| - 1], ts[|ts| - 1];
      assert ts == rest + [t];
      v := Least(rest);
      LeastIsShortest(rest, "");
      assert (v + "*")[..|v|] == v && (v + "*")[|v|] == '*';
      if t.One? {
        OneAtEnd(rest, t.c, z + "*");
        OneAtEnd(rest, t.c, v + "*");
      } else {
        StarAtEnd(rest, t.c, z + "*");
        StarAtEnd(rest, t.c, v);
        StarAtEnd(rest, t.c, v + "*");
        if InLanguage(rest, z + "*") {
          v := ShortTextWithStar(rest, z);
          StarAtEnd(rest, t.c, v + "*");
        }
      }
    }
  }

  /** A cell depends on the two prefixes only. */
  lemma {:induction false} CellOfPrefix(s: string, p: string, m: nat, n: nat, i: nat, j: nat)
    requires i <= m <= |s| && j <= n <= |p| && WellFormed(p) && WellFormed(p[..n])
    ensures Cell(s[..m], p[..n], i, j) == Cell(s, p, i, j)
    decreases i, j
  {
    if j > 0 {
      if p[j - 1] == '*' {
        CellOfPrefix(s, p, m, n, i, j - 2);
      }
      if i > 0 {
        CellOfPrefix(s, p, m, n, i - 1, j - 1);
        CellOfPrefix(s, p, m, n, i - 1, j);
      }
    }
  }

  lemma PrefixWellFormed(p: string, n: nat)
    requires WellFormed(p) && n <= |p|
    ensures WellFormed(p[..n])
  {
  }

  /** In columns before the last star, cells of a text's part without '*' mean membership. */
  lemma CellOfPlainPart(s: string, p: string, i: nat, j: nat)
    requires i <= |s| && j <= |p| && WellFormed(p) && WellFormed(p[..j]) && NoStar(s[..i])
    ensures Cell(s, p, i, j) <==> InLanguage(Tokens(p[..j]), s[..i])
  {
    hide InLanguage, Cell, Tokens;
    CellOfPrefix(s, p, i, j, i, j);
    CellIsMatches(s[..i], p[..j], i, j);
    assert s[..i][..i] == s[..i] && p[..j][..j] == p[..j];
  }

  /** Two steps along the diagonal where the '*' of the text meets a '*' of the pattern. */
  lemma StarMeetsStar(s: string, p: string)
    requires WellFormed(p) && p != "" && p[|p| - 1] == '*' && s != "" && s[|s| - 1] == '*'
    ensures |p| >= 2
    ensures Cell(s, p, |s|, |p|) <==>
            |s| >= 2 && CharMatches(p[|p| - 2], s[|s| - 2]) && Cell(s, p, |s| - 2, |p| - 2)
  {
    assert Cell(s, p, |s|, |p|) == Cell(s, p, |s| - 1, |p| - 1);
  }

  lemma LastToken(p: string)
    requires WellFormed(p) && p != "" && p[|p| - 1] == '*'
    ensures |p| >= 2 && WellFormed(p[..|p| - 2])
    ensures var ts := Tokens(p[..|p| - 2]);
            && PlainTokens(ts) && PlainTokens(Tokens(p)) && Least(Tokens(p)) == Least(ts)
            && Tokens(p) == ts + [Star(p[|p| - 2])]
  {
    var q := p[..|p| - 2];
    PrefixWellFormed(p, |q|);
    TokensRoundTrip(p);
    TokensRoundTrip(q);
    assert Tokens(p)[..|Tokens(p)| - 1] == Tokens(q);
  }

  /** What is left of such a short text is too short for the rest of the pattern. */
  lemma TooShortForRest(p: string, v: string)
    requires WellFormed(p) && p != "" && p[|p| - 1] == '*'
    requires v != "" && NoStar(v) && |v| <= |Least(Tokens(p))|
    ensures |p| >= 2 && !Cell(v + "*", p, |v| - 1, |p| - 2)
  {
    LastToken(p);
    var shorter := v[..|v| - 1];
    assert NoStar(shorter);
    hide *;
    LeastIsShortest(Tokens(p[..|p| - 2]), shorter);
    assert (v + "*")[..|v| - 1] == shorter;
    CellOfPlainPart(v + "*", p, |v| - 1, |p| - 2);
  }

  /** A short text with a '*' only at its end is denied. */
  lemma ShortTextIsDenied(p: string, v: string)
    requires WellFormed(p) && p != "" && p[|p| - 1] == '*'
    requires NoStar(v) && |v| <= |Least(Tokens(p))|
    ensures !Cell(v + "*", p, |v| + 1, |p|)
  {
    hide *;
    StarMeetsStar(v + "*", p);
    if v != "" {
      TooShortForRest(p, v);
    }
  }

  /** The pattern's own last token, written out behind a text of the rest, is accepted. */
  lemma WrittenOutIsAccepted(p: string, x: char)
    requires WellFormed(p) && p != "" && p[|p| - 1] == '*' && |p| >= 2 && CharMatches(p[|p| - 2], x)
    ensures var s := Least(Tokens(p)) + [x, '*'];
            Cell(s, p, |s|, |p|)
  {
    var q, t := p[..|p| - 2], Least(Tokens(p));
    var s := t + [x, '*'];
    assert s[..|t|] == t;
    LastToken(p);
    hide Tokens, Least, Cell, InLanguage, WellFormed, PlainTokens;
    StarMeetsStar(s, p);
    LeastIsShortest(Tokens(q), "");
    CellOfPlainPart(s, p, |t|, |q|);
  }

  /** A pattern that ends in '*' denies some text it should accept, or accepts one it should deny. */
  lemma LastStarMisjudges(p: string) returns (s: string)
    requires WellFormed(p) && p != "" && p[|p| - 1] == '*'
    ensures !Correct(s, p)
  {
    LastToken(p);
    hide InLanguage, Cell, Tokens, Least;
    var x := if p[|p| - 2] == '.' then 'a' else p[|p| - 2];
    WrittenOutIsAccepted(p, x);
    var z := Least(Tokens(p)) + [x];
    s := Least(Tokens(p)) + [x, '*'];
    assert s == z + "*";
    if InLanguage(Tokens(p), s) {
      var v := ShortTextWithStar(Tokens(p), z);
      ShortTextIsDenied(p, v);
      s := v + "*";
    }
  }

  /** One more plain character in the pattern, and one for it in the text, changes nothing. */
  lemma MisjudgedLonger(s: string, p: string, c: char)
    requires WellFormed(p) && WellFormed(p + [c]) && c != '*' && !Correct(s, p)
    ensures !Correct(s + [if c == '.' then 'a' else c], p + [c])
  {
    var s', p' := s + [if c == '.' then 'a' else c], p + [c];
    assert s'[..|s|] == s && p'[..|p|] == p;
    TokensOfOne(p, c);
    OneAtEnd(Tokens(p), c, s');
    assert Cell(s', p', |s'|, |p'|) == Cell(s', p', |s|, |p|);
    hide InLanguage, Tokens;
    CellOfPrefix(s', p', |s|, |p|, |s|, |p|);
  }

  lemma {:induction false} PatternWithStarMisjudges(p: string) returns (s: string)
    requires WellFormed(p) && '*' in p
    ensures !Correct(s, p)
    decreases |p|
  {
    var n := |p| - 1;
    if p[n] == '*' {
      s := LastStarMisjudges(p);
    } else {
      PrefixWellFormed(p, n);
      assert p == p[..n] + [p[n]];
      s := PatternWithStarMisjudges(p[..n]);
      MisjudgedLonger(s, p[..n], p[n]);
      s := s + [if p[n] == '.' then 'a' else p[n]];
    }
  }

  /** Exactly the patterns without '*' judge every text correctly. */
  lemma CorrectPatterns(p: string)
    requires WellFormed(p)
    ensures (forall s :: Correct(s, p)) <==> '*' !in p
  {
    hide Correct;
    if '*' !in p {
      forall s
        ensures Correct(s, p)
      {
        TableIsCorrect(s, p);
      }
    } else {
      var s := PatternWithStarMisjudges(p);
    }
  }

  /** One cell of the table from earlier ones; a '*' always has a character before it. */
  lemma CellFromEarlier(s: string, p: string, i: nat, j: nat)
    requires i <= |s| && 1 <= j <= |p| && WellFormed(p)
    ensures p[j - 1] == '*' ==> j >= 2
    ensures i == 0 ==> (Cell(s, p, i, j) <==> p[j - 1] == '*' && Cell(s, p, 0, j - 2))
    ensures i > 0 && (p[j - 1] == s[i - 1] || p[j - 1] == '.') ==> Cell(s, p, i, j) == Cell(s, p, i - 1, j - 1)
    ensures i > 0 && p[j - 1] != s[i - 1] && p[j - 1] != '.' ==>
              (Cell(s, p, i, j) <==>
               && p[j - 1] == '*'
               && (Cell(s, p, i, j - 2) || ((p[j - 2] == '.' || p[j - 2] == s[i - 1]) && Cell(s, p, i - 1, j))))
  {
  }

  lemma FirstColumn(s: string, p: string, i: nat)
    requires i <= |s| && WellFormed(p)
    ensures Cell(s, p, i, 0) == (i == 0)
  {
  }

  method IsMatch(s: string, p: string) returns (r: bool)
    requires WellFormed(p)
    ensures r == Cell(s, p, |s|, |p|)
    ensures '*' !in s || '*' !in p ==> (r <==> InLanguage(Tokens(p), s))
  {
    hide *;
    var m, n := |s|, |p|;
    var dp := new bool[m + 1, n + 1]((_, _) => false);
    dp[0, 0] := true;
    FirstColumn(s, p, 0);
    for j := 1 to n + 1
      invariant forall y :: 0 <= y < j ==> dp[0, y] == Cell(s, p, 0, y)
      invariant forall y :: j <= y <= n ==> !dp[0, y]
      invariant forall x, y :: 1 <= x <= m && 0 <= y <= n ==> !dp[x, y]
    {
      CellFromEarlier(s, p, 0, j);
      if p[j - 1] == '*' && dp[0, j - 2] {
        dp[0, j] := true;
      }
    }
    for i := 1 to m + 1
      invariant forall x, y :: 0 <= x < i && 0 <= y <= n ==> dp[x, y] == Cell(s, p, x, y)
      invariant forall x, y :: i <= x <= m && 0 <= y <= n ==> !dp[x, y]
    {
      FirstColumn(s, p, i);
      for j := 1 to n + 1
        invariant forall x, y :: 0 <= x < i && 0 <= y <= n ==> dp[x, y] == Cell(s, p, x, y)
        invariant forall y :: 0 <= y < j ==> dp[i, y] == Cell(s, p, i, y)
        invariant forall y :: j <= y <= n ==> !dp[i, y]
        invariant forall x, y :: i < x <= m && 0 <= y <= n ==> !dp[x, y]
      {
        CellFromEarlier(s, p, i, j);
        if p[j - 1] == s[i - 1] || p[j - 1] == '.' {
          dp[i, j] := dp[i - 1, j - 1];
        } else if p[j - 1] == '*' {
          dp[i, j] := dp[i, j - 2];
          if p[j - 2] == s[i - 1] || p[j - 2] == '.' {
            dp[i, j] := dp[i, j] || dp[i - 1, j];
          }
        }
      }
    }
    r := dp[m, n];
    if '*' !in s || '*' !in p {
      CorrectMeans(s, p);
      TableIsCorrect(s, p);
    }
  }

  lemma CorrectMeans(s: string, p: string)
    requires WellFormed(p)
    ensures Correct(s, p) <==> (Cell(s, p, |s|, |p|) <==> InLanguage(Tokens(p), s))
  {
  }
}
