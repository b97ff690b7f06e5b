// Escaping text for a Go string literal by two replacement passes.
module GoEscape {
  import opened Options

  /** Every occurrence of `c` replaced by `text`. */
  function ReplaceAll(s: string, c: char, text: string): string {
    if s == "" then "" else (if s[0] == c then text else [s[0]]) + ReplaceAll(s[1..], c, text)
  }

  /** Backslashes first, then double quotes. */
  function GoEsc(s: string): string {
    ReplaceAll(ReplaceAll(s, '\\', "\\\\"), '"', "\\\"")
  }

  /** Characters the Go compiler refuses inside an interpreted string literal: a line break by the grammar,
      and U+0000 and U+FEFF inside any file. */
  predicate Refused(c: char) {
    c == '\n' || c as int == 0 || c as int == 0xFEFF
  }

  /** The text a Go compiler reads between the double quotes of an interpreted string literal; none if the
      literal ends early, holds a refused character, or an escape other than \\ and \" . */
  function Unescape(t: string): Option<string> {
    if t == "" then Some("")
    else if t[0] == '"' || Refused(t[0]) then None
    else if t[0] == '\\' then
      if |t| >= 2 && (t[1] == '\\' || t[1] == '"') then Cons(t[1], Unescape(t[2..])) else None
    else Cons(t[0], Unescape(t[1..]))
  }

  function Cons(c: char, rest: Option<string>): Option<string> {
    match rest
    case None => None
    case Some(s) => Some([c] + s)
  }

  function EscapeChar(c: char): string {
    if c == '\\' then "\\\\" else if c == '"' then "\\\"" else [c]
  }

  lemma {:induction false} ReplaceConcat(a: string, b: string, c: char, text: string)
    ensures ReplaceAll(a + b, c, text) == ReplaceAll(a, c, text) + ReplaceAll(b, c, text)
  {
    if a == "" {
      assert a + b == b;
    } else {
      ReplaceConcat(a[1..], b, c, text);
      assert (a + b)[1..] == a[1..] + b;
    }
  }

  /** Done in this order, the second pass never touches what the first one wrote: each character is escaped
      on its own. */
  lemma GoEscHead(s: string)
    requires s != ""
    ensures GoEsc(s) == EscapeChar(s[0]) + GoEsc(s[1..])
  {
    var first := if s[0] == '\\' then "\\\\" else [s[0]];
    ReplaceConcat(first, ReplaceAll(s[1..], '\\', "\\\\"), '"', "\\\"");
    assert first[1..] == if s[0] == '\\' then "\\" else "";
    assert "\\"[1..] == "";
  }

  /** The emitted literal denotes the original text, except that a refused character makes it no literal at all. */
  lemma {:induction false} GoEscRoundTrip(s: string)
    ensures Unescape(GoEsc(s)) == if exists c :: c in s && Refused(c) then None else Some(s)
  {
    if s != "" {
      GoEscHead(s);
      GoEscRoundTrip(s[1..]);
      var rest := GoEsc(s[1..]);
      hide GoEsc;
      var t := EscapeChar(s[0]) + rest;
      assert s == [s[0]] + s[1..];
      if s[0] == '\\' || s[0] == '"' {
        assert t[0] == '\\' && t[1] == s[0] && t[2..] == rest;
      } else {
        assert t[0] == s[0] && t[1..] == rest;
      }
    }
  }
}
