// Text helpers of the problem form: trimming, splitting into lines, identifiers.
module ProblemText {

  /** White space in the sense of Unicode. */
  predicate IsSpace(c: char) {
    var x := c as int;
    || 9 <= x <= 13 || x == 32 || x == 0x85 || x == 0xA0 || x == 0x1680 || 0x2000 <= x <= 0x200A
    || x == 0x2028 || x == 0x2029 || x == 0x202F || x == 0x205F || x == 0x3000
  }

  function TrimLeft(s: string): string {
    if s != "" && IsSpace(s[0]) then TrimLeft(s[1..]) else s
  }

  function TrimRight(s: string): string {
    if s != "" && IsSpace(s[|s| - 1]) then TrimRight(s[..|s| - 1]) else s
  }

  function TrimSpace(s: string): string {
    TrimRight(TrimLeft(s))
  }

  function TrimNewlines(s: string): string {
    if s != "" && s[|s| - 1] == '\n' then TrimNewlines(s[..|s| - 1]) else s
  }

  /** The characters with the Unicode property White_Space. */
  lemma SpacesAre(c: char)
    ensures IsSpace(c) <==>
            c in {'\t', '\n', '\U{B}', '\U{C}', '\r', ' ', '\U{85}', '\U{A0}', '\U{1680}', '\U{2000}', '\U{2001}',
                  '\U{2002}', '\U{2003}', '\U{2004}', '\U{2005}', '\U{2006}', '\U{2007}', '\U{2008}', '\U{2009}',
                  '\U{200A}', '\U{2028}', '\U{2029}', '\U{202F}', '\U{205F}', '\U{3000}'}
  {
  }

  predicate AllSpace(s: string) {
    forall i :: 0 <= i < |s| ==> IsSpace(s[i])
  }

  predicate NoSpaceAtEnds(t: string) {
    t == "" || (!IsSpace(t[0]) && !IsSpace(t[|t| - 1]))
  }

  /** `t` is what remains of `s` between white space, and has none left at its ends. */
  ghost predicate Stripped(s: string, t: string) {
    NoSpaceAtEnds(t) && exists a, b :: s == a + t + b && AllSpace(a) && AllSpace(b)
  }

  lemma {:induction false} TrimLeftOf(a: string, t: string)
    requires AllSpace(a)
    ensures TrimLeft(a + t) == TrimLeft(t)
    decreases |a|
  {
    if a == "" {
      assert a + t == t;
    } else {
      TrimLeftOf(a[1..], t);
      assert (a + t)[1..] == a[1..] + t && (a + t)[0] == a[0];
    }
  }

  lemma {:induction false} TrimRightOf(t: string, b: string)
    requires AllSpace(b)
    ensures TrimRight(t + b) == TrimRight(t)
    decreases |b|
  {
    var n := |b| - 1;
    if b == "" {
      assert t + b == t;
    } else {
      TrimRightOf(t, b[..n]);
      assert (t + b)[..|t| + n] == t + b[..n] && (t + b)[|t| + n] == b[n];
    }
  }

  lemma {:induction false} TrimLeftDrops(s: string) returns (a: string)
    ensures s == a + TrimLeft(s) && AllSpace(a)
    ensures TrimLeft(s) != "" ==> !IsSpace(TrimLeft(s)[0])
    decreases |s|
  {
    if s != "" && IsSpace(s[0]) {
      a := TrimLeftDrops(s[1..]);
      assert s == [s[0]] + s[1..];
      a := [s[0]] + a;
    } else {
      a := "";
    }
  }

  lemma {:induction false} TrimRightDrops(s: string) returns (b: string)
    ensures s == TrimRight(s) + b && AllSpace(b)
    ensures TrimRight(s) != "" ==> !IsSpace(TrimRight(s)[|TrimRight(s)| - 1])
    decreases |s|
  {
    if s != "" && IsSpace(s[|s| - 1]) {
      b := TrimRightDrops(s[..|s| - 1]);
      assert s == s[..|s| - 1] + [s[|s| - 1]];
      b := b + [s[|s| - 1]];
    } else {
      b := "";
    }
  }

  /** Trimming gives exactly the text between the white space at both ends. */
  lemma TrimSpaceIff(s: string, t: string)
    ensures t == TrimSpace(s) <==> Stripped(s, t)
  {
    var a := TrimLeftDrops(s);
    var b := TrimRightDrops(TrimLeft(s));
    hide TrimLeft, TrimRight;
    if t == TrimSpace(s) {
      assert s == a + t + b;
      assert t != "" ==> TrimLeft(s)[0] == t[0];
    }
    if Stripped(s, t) {
      StrippedIsTrimmed(s, t);
    }
  }

  lemma StrippedIsTrimmed(s: string, t: string)
    requires Stripped(s, t)
    ensures t == TrimSpace(s)
  {
    var a, b :| s == a + t + b && AllSpace(a) && AllSpace(b);
    assert s == a + (t + b);
    TrimLeftOf(a, t + b);
    if t == "" {
      assert t + b == b + "";
      TrimLeftOf(b, "");
    } else {
      assert (t + b)[0] == t[0];
      assert TrimLeft(t + b) == t + b;
      TrimRightOf(t, b);
    }
  }

  /** Trimmed text has no white space at either end, so trimming again changes nothing. */
  lemma TrimSpaceIdempotent(s: string)
    ensures TrimSpace(TrimSpace(s)) == TrimSpace(s)
  {
    var t := TrimSpace(s);
    TrimSpaceIff(s, t);
    assert t == "" + t + "";
    TrimSpaceIff(t, t);
  }

  predicate AllNewlines(s: string) {
    forall i :: 0 <= i < |s| ==> s[i] == '\n'
  }

  /** Only newlines follow `t`, and it does not end in one. */
  ghost predicate NewlinesDropped(s: string, t: string) {
    (t == "" || t[|t| - 1] != '\n') && exists b :: s == t + b && AllNewlines(b)
  }

  lemma {:induction false} TrimNewlinesOf(t: string, b: string)
    requires AllNewlines(b)
    ensures TrimNewlines(t + b) == TrimNewlines(t)
    decreases |b|
  {
    var n := |b| - 1;
    if b == "" {
      assert t + b == t;
    } else {
      TrimNewlinesOf(t, b[..n]);
      assert (t + b)[..|t| + n] == t + b[..n] && (t + b)[|t| + n] == b[n];
    }
  }

  lemma {:induction false} TrimNewlinesDrops(s: string) returns (b: string)
    ensures s == TrimNewlines(s) + b && AllNewlines(b)
    ensures TrimNewlines(s) != "" ==> TrimNewlines(s)[|TrimNewlines(s)| - 1] != '\n'
    decreases |s|
  {
    if s != "" && s[|s| - 1] == '\n' {
      b := TrimNewlinesDrops(s[..|s| - 1]);
      assert s == s[..|s| - 1] + [s[|s| - 1]];
      b := b + [s[|s| - 1]];
    } else {
      b := "";
    }
  }

  /** Trimming newlines gives exactly the text before the newlines at the end. */
  lemma TrimNewlinesIff(s: string, t: string)
    ensures t == TrimNewlines(s) <==> NewlinesDropped(s, t)
  {
    var b := TrimNewlinesDrops(s);
    if NewlinesDropped(s, t) {
      var b' :| s == t + b' && AllNewlines(b');
      TrimNewlinesOf(t, b');
    }
  }

  lemma TrimNewlinesIdempotent(s: string)
    ensures TrimNewlines(TrimNewlines(s)) == TrimNewlines(s)
  {
    var t := TrimNewlines(s);
    TrimNewlinesIff(s, t);
    assert t == t + "" && AllNewlines("");
    TrimNewlinesIff(t, t);
  }

  /** The text cut at every newline. */
  function Lines(s: string): (r: seq<string>)
    ensures r != []
  {
    if s == "" then [""]
    else
      var rest := Lines(s[1..]);
      if s[0] == '\n' then [""] + rest else [[s[0]] + rest[0]] + rest[1..]
  }

  function Join(lines: seq<string>): string {
    if lines == [] then "" else if |lines| == 1 then lines[0] else lines[0] + "\n" + Join(lines[1..])
  }

  /** Lines hold no newline, and joining them gives back the text. */
  lemma {:induction false} LinesRoundTrip(s: string)
    ensures Join(Lines(s)) == s
    ensures forall i :: 0 <= i < |Lines(s)| ==> '\n' !in Lines(s)[i]
    decreases |s|
  {
    if s != "" {
      LinesRoundTrip(s[1..]);
      var rest := Lines(s[1..]);
      assert s == [s[0]] + s[1..];
      if s[0] == '\n' {
        assert Lines(s)[1..] == rest;
      } else {
        assert Lines(s)[1..] == rest[1..];
      }
    }
  }

  predicate IsLetter(c: char) { 'A' <= c <= 'Z' || 'a' <= c <= 'z' || c == '_' }

  /** A letter or underscore followed by letters, digits and underscores. */
  predicate IsIdentifier(s: string) {
    s != "" && IsLetter(s[0]) && forall i :: 1 <= i < |s| ==> IsLetter(s[i]) || '0' <= s[i] <= '9'
  }

  /** Identifiers, character by character: a letter A-Z or a-z or an underscore, then also digits. */
  lemma IdentifiersAre(s: string, c: char)
    ensures !IsIdentifier("")
    ensures IsIdentifier([c]) <==> 65 <= c as int <= 90 || 97 <= c as int <= 122 || c as int == 95
    ensures s != "" ==> (IsIdentifier(s + [c]) <==> IsIdentifier(s) && (IsIdentifier([c]) || 48 <= c as int <= 57))
  {
    var t := s + [c];
    assert t[|s|] == c && forall i :: 0 <= i < |s| ==> t[i] == s[i];
  }

  /** Length in bytes of the UTF-8 encoding. */
  function ByteLength(s: string): nat {
    if s == "" then 0
    else
      var x := s[0] as int;
      (if x < 0x80 then 1 else if x < 0x800 then 2 else if x < 0x10000 then 3 else 4) + ByteLength(s[1..])
  }

  /** The UTF-8 encoding of one character. */
  function Utf8(c: char): seq<int> {
    var x := c as int;
    if x < 0x80 then [x]
    else if x < 0x800 then [0xC0 + x / 64, 0x80 + x % 64]
    else if x < 0x10000 then [0xE0 + x / 64 / 64, 0x80 + x / 64 % 64, 0x80 + x % 64]
    else [0xF0 + x / 64 / 64 / 64, 0x80 + x / 64 / 64 % 64, 0x80 + x / 64 % 64, 0x80 + x % 64]
  }

  /** The character read from one encoding: the leading byte tells how many follow. */
  function FromUtf8(b: seq<int>): int
    requires b != []
  {
    if b[0] < 0x80 then b[0]
    else if b[0] < 0xE0 && |b| == 2 then 64 * (b[0] - 0xC0) + (b[1] - 0x80)
    else if b[0] < 0xF0 && |b| == 3 then 64 * (64 * (b[0] - 0xE0) + (b[1] - 0x80)) + (b[2] - 0x80)
    else if |b| == 4 then 64 * (64 * (64 * (b[0] - 0xF0) + (b[1] - 0x80)) + (b[2] - 0x80)) + (b[3] - 0x80)
    else -1
  }

  lemma Utf8RoundTrip(c: char)
    ensures FromUtf8(Utf8(c)) == c as int
    ensures forall i :: 0 <= i < |Utf8(c)| ==> 0 <= Utf8(c)[i] < 256
  {
    var x := c as int;
    var y, z, b := x / 64, x / 64 / 64, Utf8(c);
    assert x == 64 * y + x % 64 && y == 64 * z + y % 64 && z == 64 * (z / 64) + z % 64;
    assert x >= 0x80 ==> b[|b| - 1] - 0x80 == x % 64;
    assert x >= 0x800 ==> b[|b| - 2] - 0x80 == y % 64;
  }

  function Encoded(s: string): seq<int> {
    if s == "" then [] else Utf8(s[0]) + Encoded(s[1..])
  }

  /** The byte length is that of the encoding. */
  lemma {:induction false} ByteLengthOfEncoding(s: string)
    ensures ByteLength(s) == |Encoded(s)|
  {
    if s != "" {
      ByteLengthOfEncoding(s[1..]);
    }
  }
}
