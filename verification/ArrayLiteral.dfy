// Cutting an array literal out of source text by counting brackets outside quotes.
module ArrayLiteral {
  import opened Options

  // Searching for a substring.

  predicate OccursAt(s: string, sub: string, i: int) {
    0 <= i && i + |sub| <= |s| && s[i..i + |sub|] == sub
  }

  /** `r` is the first place of `sub` at or after `from`, or -1 if there is none. */
  ghost predicate IsFirst(s: string, sub: string, from: int, r: int) {
    && (r == -1 || (from <= r && OccursAt(s, sub, r)))
    && forall i :: from <= i && OccursAt(s, sub, i) ==> 0 <= r <= i
  }

  /** A negative starting place counts as 0. */
  method IndexOf(s: string, sub: string, from: int) returns (r: int)
    ensures IsFirst(s, sub, from, r)
  {
    var i := if from < 0 then 0 else from;
    while i + |sub| <= |s|
      invariant 0 <= i && from <= i
      invariant forall x :: from <= x < i ==> !OccursAt(s, sub, x)
      decreases |s| - i
    {
      if s[i..i + |sub|] == sub { return i; }
      i := i + 1;
    }
    return -1;
  }

  lemma FirstIsUnique(s: string, sub: string, from: int, r: int, r': int)
    requires IsFirst(s, sub, from, r) && IsFirst(s, sub, from, r')
    ensures r == r'
  {
  }

  // Bracket depth outside quotes.

  predicate IsQuote(c: char) { c == '\'' || c == '"' || c == '`' }

  /** The quote character that is open before position `i`, the text starting at `open`. */
  function QuoteAt(src: string, open: nat, i: nat): Option<char>
    requires open <= i <= |src|
    decreases i
  {
    if i == open then None
    else
      var c, q := src[i - 1], QuoteAt(src, open, i - 1);
      match q
      case Some(x) => if c == x && i >= 2 && src[i - 2] != '\\' then None else q
      case None => if IsQuote(c) then Some(c) else None
  }

  /** Opening minus closing brackets outside quotes in src[open..i]. */
  function Depth(src: string, open: nat, i: nat): int
    requires open <= i <= |src|
    decreases i
  {
    if i == open then 0
    else
      var c := src[i - 1];
      Depth(src, open, i - 1) +
        if QuoteAt(src, open, i - 1).Some? then 0 else if c == '[' then 1 else if c == ']' then -1 else 0
  }

  /** `end` is the first place after `open` where the depth is back to zero. */
  ghost predicate ClosesAt(src: string, open: nat, end: nat) {
    && open < end <= |src| && Depth(src, open, end) == 0
    && forall i :: open < i < end ==> Depth(src, open, i) != 0
  }

  /** The answer for a given opening bracket: the text up to where it closes, if it does. */
  ghost predicate IsLiteral(src: string, open: nat, r: Option<string>) {
    match r
    case Some(text) => exists end: nat :: ClosesAt(src, open, end) && text == src[open..end]
    case None => forall end: nat :: !ClosesAt(src, open, end)
  }

  /** The scanning loop from an opening bracket. */
  method ScanFrom(src: string, open: nat) returns (r: Option<string>)
    requires open < |src| && src[open] == '['
    ensures IsLiteral(src, open, r)
  {
    var depth := 0;
    var quote: Option<char> := None;
    for i := open to |src|
      invariant depth == Depth(src, open, i) && quote == QuoteAt(src, open, i)
      invariant i > open ==> depth > 0
      invariant forall x :: open < x <= i ==> Depth(src, open, x) != 0
    {
      var c := src[i];
      if quote.Some? {
        if c == quote.value && src[i - 1] != '\\' { quote := None; }
        continue;
      }
      if IsQuote(c) { quote := Some(c); continue; }
      if c == '[' {
        depth := depth + 1;
      } else if c == ']' {
        depth := depth - 1;
        if depth == 0 {
          assert ClosesAt(src, open, i + 1);
          return Some(src[open..i + 1]);
        }
      }
    }
    return None;
  }

  /** Where the scan starts: the first '[' after the first '=' after the first "const name"; -1 if one is missing.
      A missing '=' sends the search for '[' back to the start of the text. */
  ghost predicate IsOpening(src: string, name: string, open: int) {
    exists start :: IsFirst(src, "const " + name, 0, start) && OpensAfter(src, start, open)
  }

  ghost predicate OpensAfter(src: string, start: int, open: int) {
    if start < 0 then open == -1
    else exists assign :: IsFirst(src, "=", start, assign) && IsFirst(src, "[", assign, open)
  }

  /** `r` is the text from the opening bracket to where it closes; None without a bracket or if it stays open. */
  ghost predicate IsExtracted(src: string, name: string, r: Option<string>) {
    exists open :: open < |src| && IsOpening(src, name, open) && if open < 0 then r == None else IsLiteral(src, open, r)
  }

  method ExtractArrayLiteral(src: string, name: string) returns (r: Option<string>)
    ensures IsExtracted(src, name, r)
  {
    var start := IndexOf(src, "const " + name, 0);
    if start < 0 {
      assert |src| > -1 && IsOpening(src, name, -1);
      return None;
    }
    var assign := IndexOf(src, "=", start);
    var open := IndexOf(src, "[", assign);
    assert OpensAfter(src, start, open);
    assert IsOpening(src, name, open);
    if open < 0 { return None; }
    assert src[open..open + 1][0] == src[open];
    r := ScanFrom(src, open);
  }

  lemma OccurrenceStarts(s: string, sub: string, i: int)
    requires sub != ""
    ensures OccursAt(s, sub, i) ==> i < |s| && s[i] == sub[0]
  {
    if OccursAt(s, sub, i) {
      assert s[i..i + |sub|][0] == s[i];
    }
  }

  lemma NoOccurrence(s: string, sub: string, from: int)
    requires sub != "" && forall i :: from <= i && 0 <= i < |s| ==> s[i] != sub[0]
    ensures IsFirst(s, sub, from, -1)
  {
    forall i | from <= i
      ensures !OccursAt(s, sub, i)
    {
      OccurrenceStarts(s, sub, i);
    }
  }

  /** Without the declaration nothing is found. */
  lemma UndeclaredIsNone(src: string, name: string, r: Option<string>)
    requires IsExtracted(src, name, r) && forall i :: !OccursAt(src, "const " + name, i)
    ensures r == None
  {
    var open :| open < |src| && IsOpening(src, name, open) && if open < 0 then r == None else IsLiteral(src, open, r);
    var start :| IsFirst(src, "const " + name, 0, start) && OpensAfter(src, start, open);
  }

  /** Nor without any bracket. */
  lemma NoBracketIsNone(src: string, name: string, r: Option<string>)
    requires IsExtracted(src, name, r) && '[' !in src
    ensures r == None
  {
    var open :| open < |src| && IsOpening(src, name, open) && if open < 0 then r == None else IsLiteral(src, open, r);
    var start :| IsFirst(src, "const " + name, 0, start) && OpensAfter(src, start, open);
    if start >= 0 {
      var assign :| IsFirst(src, "=", start, assign) && IsFirst(src, "[", assign, open);
      NoOccurrence(src, "[", assign);
      FirstIsUnique(src, "[", assign, open, -1);
    }
  }

  // Printed literals.

  /** Parts of a literal: a plain character, a quoted string, a nested array. */
  datatype Piece = Raw(c: char) | Str(q: char, body: string) | Arr(items: seq<Piece>)

  function Print(p: Piece): string
    decreases p, 1
  {
    match p
    case Raw(c) => [c]
    case Str(q, body) => [q] + body + [q]
    case Arr(items) => "[" + PrintAll(items) + "]"
  }

  function PrintAll(ps: seq<Piece>): string
    decreases ps, 0
  {
    if ps == [] then "" else Print(ps[0]) + PrintAll(ps[1..])
  }

  /** Inside a string its own quote stands only behind a backslash. */
  predicate OwnQuotesEscaped(q: char, body: string) {
    forall k :: 0 <= k < |body| && body[k] == q ==> k > 0 && body[k - 1] == '\\'
  }

  predicate EndsInBackslash(body: string) {
    body != "" && body[|body| - 1] == '\\'
  }

  predicate QuotesEscaped(q: char, body: string) {
    OwnQuotesEscaped(q, body) && !EndsInBackslash(body)
  }

  predicate Printable(p: Piece)
    decreases p, 1
  {
    match p
    case Raw(c) => c != '\'' && c != '"' && c != '`' && c != '[' && c != ']'
    case Str(q, body) => (q == '\'' || q == '"' || q == '`') && QuotesEscaped(q, body)
    case Arr(items) => AllPrintable(items)
  }

  predicate AllPrintable(ps: seq<Piece>)
    decreases ps, 0
  {
    ps == [] || (Printable(ps[0]) && AllPrintable(ps[1..]))
  }

  predicate TextAt(src: string, i: nat, text: string) {
    i + |text| <= |src| && forall k :: 0 <= k < |text| ==> text[k] == src[i + k]
  }

  lemma TextParts(src: string, i: nat, a: string, b: string)
    requires TextAt(src, i, a + b)
    ensures TextAt(src, i, a) && TextAt(src, i + |a|, b)
  {
    forall k | 0 <= k < |a|
      ensures a[k] == src[i + k]
    {
      assert (a + b)[k] == a[k];
    }
    forall k | 0 <= k < |b|
      ensures b[k] == src[i + |a| + k]
    {
      assert (a + b)[|a| + k] == b[k];
    }
  }

  /** From `i` to `end` the scan starts and ends outside quotes at depth `d` and never goes below it. */
  ghost predicate Balanced(src: string, open: nat, i: nat, end: nat, d: int) {
    && open <= i <= end <= |src|
    && QuoteAt(src, open, i) == None && QuoteAt(src, open, end) == None
    && Depth(src, open, i) == d == Depth(src, open, end)
    && AtLeast(src, open, i, end, d)
  }

  ghost predicate AtLeast(src: string, open: nat, i: nat, end: nat, d: int) {
    open <= i <= end <= |src| && forall x :: i <= x <= end ==> Depth(src, open, x) >= d
  }

  lemma BalancedThen(src: string, open: nat, i: nat, j: nat, end: nat, d: int)
    requires Balanced(src, open, i, j, d) && Balanced(src, open, j, end, d)
    ensures Balanced(src, open, i, end, d)
  {
    hide QuoteAt, Depth;
  }

  lemma RawIsBalanced(src: string, open: nat, i: nat)
    requires open <= i < |src| && QuoteAt(src, open, i) == None
    requires !IsQuote(src[i]) && src[i] != '[' && src[i] != ']'
    ensures Balanced(src, open, i, i + 1, Depth(src, open, i))
  {
  }

  /** Inside a string the quote stays open and the depth stays put. */
  lemma {:induction false} StaysQuoted(src: string, open: nat, i: nat, q: char, body: string, k: nat)
    requires open <= i < |src| && src[i] == q && IsQuote(q) && QuoteAt(src, open, i) == None
    requires OwnQuotesEscaped(q, body) && TextAt(src, i + 1, body) && k <= |body|
    ensures QuoteAt(src, open, i + 1 + k) == Some(q)
    ensures Depth(src, open, i + 1 + k) == Depth(src, open, i)
    ensures AtLeast(src, open, i, i + 1 + k, Depth(src, open, i))
  {
    if k > 0 {
      StaysQuoted(src, open, i, q, body, k - 1);
      assert body[k - 1] == src[i + k];
      assert k > 1 ==> body[k - 2] == src[i + k - 1];
      QuotedStep(src, open, i + k, q);
    } else {
      QuoteOpens(src, open, i);
    }
  }

  lemma QuoteOpens(src: string, open: nat, i: nat)
    requires open <= i < |src| && IsQuote(src[i]) && QuoteAt(src, open, i) == None
    ensures QuoteAt(src, open, i + 1) == Some(src[i]) && Depth(src, open, i + 1) == Depth(src, open, i)
  {
  }

  lemma QuotedStep(src: string, open: nat, i: nat, q: char)
    requires open < i < |src| && QuoteAt(src, open, i) == Some(q)
    ensures Depth(src, open, i + 1) == Depth(src, open, i)
    ensures QuoteAt(src, open, i + 1) == if src[i] == q && src[i - 1] != '\\' then None else Some(q)
  {
  }

  lemma StringIsBalanced(src: string, open: nat, i: nat, q: char, body: string)
    requires open <= i <= |src| && QuoteAt(src, open, i) == None
    requires IsQuote(q) && QuotesEscaped(q, body) && TextAt(src, i, [q] + body + [q])
    ensures Balanced(src, open, i, i + |body| + 2, Depth(src, open, i))
  {
    TextParts(src, i, [q] + body, [q]);
    TextParts(src, i, [q], body);
    var last := i + 1 + |body|;
    assert [q][0] == q;
    assert src[i] == q && src[last] == q;
    StaysQuoted(src, open, i, q, body, |body|);
    assert body != "" ==> body[|body| - 1] == src[last - 1];
    QuotedStep(src, open, last, q);
  }

  /** The scanner keeps the quote open over exactly the string's body and closes it at its end. */
  ghost predicate ReadAsOneString(src: string, open: nat, i: nat, q: char, n: nat)
    requires open <= i && i + n + 2 <= |src|
  {
    && (forall k :: i + 1 <= k <= i + 1 + n ==> QuoteAt(src, open, k) == Some(q))
    && QuoteAt(src, open, i + n + 2) == None
  }

  /** A quoted string is read as one string exactly when its quotes are escaped and it does not end in a backslash;
      a body that ends in an escaped backslash is misread. */
  lemma ReadCorrectlyIff(src: string, open: nat, i: nat, q: char, body: string)
    requires open <= i <= |src| && QuoteAt(src, open, i) == None
    requires q == '\'' || q == '"' || q == '`'
    requires TextAt(src, i, [q] + body + [q])
    ensures ReadAsOneString(src, open, i, q, |body|) <==> QuotesEscaped(q, body)
  {
    TextParts(src, i, [q] + body, [q]);
    TextParts(src, i, [q], body);
    var last := i + 1 + |body|;
    assert [q][0] == q && src[i] == q && src[last] == q;
    if QuotesEscaped(q, body) {
      forall k | i + 1 <= k <= last
        ensures QuoteAt(src, open, k) == Some(q)
      {
        StaysQuoted(src, open, i, q, body, k - i - 1);
      }
      QuotedStep(src, open, last, q);
      assert body != "" ==> body[|body| - 1] == src[last - 1];
    }
    if ReadAsOneString(src, open, i, q, |body|) {
      QuotedStep(src, open, last, q);
      assert body != "" ==> body[|body| - 1] == src[last - 1];
      forall k | 0 <= k < |body| && body[k] == q
        ensures k > 0 && body[k - 1] == '\\'
      {
        QuotedStep(src, open, i + 1 + k, q);
        assert k > 0 ==> body[k - 1] == src[i + k];
      }
    }
  }

  /** A bracket opens one level, at which its contents are balanced, and its partner closes it. */
  lemma BracketsBalance(src: string, open: nat, i: nat, end: nat)
    requires open <= i < end < |src| && QuoteAt(src, open, i) == None && src[i] == '[' && src[end] == ']'
    requires Balanced(src, open, i + 1, end, Depth(src, open, i) + 1)
    ensures Balanced(src, open, i, end + 1, Depth(src, open, i))
    ensures AtLeast(src, open, i + 1, end, Depth(src, open, i) + 1)
  {
    assert QuoteAt(src, open, end + 1) == None && Depth(src, open, end + 1) == Depth(src, open, i);
  }

  lemma OpensLevel(src: string, open: nat, i: nat)
    requires open <= i < |src| && QuoteAt(src, open, i) == None && src[i] == '['
    ensures QuoteAt(src, open, i + 1) == None && Depth(src, open, i + 1) == Depth(src, open, i) + 1
  {
  }

  /** Scanning a printed piece returns to the same depth outside quotes. */
  lemma {:induction false} PieceIsBalanced(src: string, open: nat, i: nat, p: Piece)
    requires Printable(p) && TextAt(src, i, Print(p))
    requires open <= i <= |src| && QuoteAt(src, open, i) == None
    ensures Balanced(src, open, i, i + |Print(p)|, Depth(src, open, i))
    ensures p.Arr? ==> AtLeast(src, open, i + 1, i + |Print(p)| - 1, Depth(src, open, i) + 1)
    decreases p, 1
  {
    hide QuoteAt, Depth, Balanced, AtLeast;
    match p
    case Raw(c) =>
      assert [c][0] == c;
      RawIsBalanced(src, open, i);
    case Str(q, body) =>
      StringIsBalanced(src, open, i, q, body);
    case Arr(items) =>
      TextParts(src, i, "[" + PrintAll(items), "]");
      TextParts(src, i, "[", PrintAll(items));
      assert "["[0] == '[' && "]"[0] == ']';
      OpensLevel(src, open, i);
      PiecesAreBalanced(src, open, i + 1, items);
      BracketsBalance(src, open, i, i + 1 + |PrintAll(items)|);
  }

  lemma {:induction false} PiecesAreBalanced(src: string, open: nat, i: nat, ps: seq<Piece>)
    requires AllPrintable(ps) && TextAt(src, i, PrintAll(ps))
    requires open <= i <= |src| && QuoteAt(src, open, i) == None
    ensures Balanced(src, open, i, i + |PrintAll(ps)|, Depth(src, open, i))
    decreases ps, 0
  {
    if ps == [] {
      NothingIsBalanced(src, open, i);
    } else {
      TextParts(src, i, Print(ps[0]), PrintAll(ps[1..]));
      PieceIsBalanced(src, open, i, ps[0]);
      var j := i + |Print(ps[0])|;
      PiecesAreBalanced(src, open, j, ps[1..]);
      BalancedThen(src, open, i, j, j + |PrintAll(ps[1..])|, Depth(src, open, i));
    }
  }

  lemma NothingIsBalanced(src: string, open: nat, i: nat)
    requires open <= i <= |src| && QuoteAt(src, open, i) == None
    ensures Balanced(src, open, i, i, Depth(src, open, i))
  {
  }

  /** A printed array closes exactly where it ends. */
  lemma PrintedArrayCloses(src: string, open: nat, items: seq<Piece>)
    requires AllPrintable(items) && TextAt(src, open, Print(Arr(items)))
    ensures ClosesAt(src, open, open + |Print(Arr(items))|)
  {
    PieceIsBalanced(src, open, open, Arr(items));
  }

  lemma PrintedArrayIsExtracted(src: string, open: nat, items: seq<Piece>, r: Option<string>)
    requires AllPrintable(items) && TextAt(src, open, Print(Arr(items))) && IsLiteral(src, open, r)
    ensures r == Some(Print(Arr(items)))
  {
    hide Print, IsLiteral, ClosesAt;
    var lit := Print(Arr(items));
    PrintedArrayCloses(src, open, items);
    LiteralIs(src, open, open + |lit|, r);
    assert src[open..open + |lit|] == lit;
  }

  lemma ClosesOnce(src: string, open: nat, end: nat, end': nat)
    requires ClosesAt(src, open, end) && ClosesAt(src, open, end')
    ensures end == end'
  {
  }

  /** The declaration as written: anything, "const name", anything without '=' such as a type, '=',
      anything without '[', the literal, anything. */
  function Declaration(before: string, name: string, annotation: string, gap: string, items: seq<Piece>,
                       rest: string): string
  {
    before + "const " + name + annotation + "=" + gap + Print(Arr(items)) + rest
  }

  /** Printing a literal after its declaration and extracting it gives back exactly the printed text. */
  lemma RoundTrip(before: string, name: string, annotation: string, gap: string, items: seq<Piece>, rest: string,
                  r: Option<string>)
    requires AllPrintable(items)
    requires '=' !in name && '=' !in annotation && '[' !in gap
    requires IsFirst(Declaration(before, name, annotation, gap, items, rest), "const " + name, 0, |before|)
    requires IsExtracted(Declaration(before, name, annotation, gap, items, rest), name, r)
    ensures r == Some(Print(Arr(items)))
  {
    hide Declaration, Print, IsFirst, IsLiteral, TextAt, AllPrintable;
    DeclarationOpens(before, name, annotation, gap, items, rest, r);
    var at := |before| + 6 + |name| + |annotation| + 1 + |gap|;
    PrintedArrayIsExtracted(Declaration(before, name, annotation, gap, items, rest), at, items, r);
  }

  /** The scan starts at the literal's own bracket. */
  lemma DeclarationOpens(before: string, name: string, annotation: string, gap: string, items: seq<Piece>, rest: string,
                         r: Option<string>)
    requires '=' !in name && '=' !in annotation && '[' !in gap
    requires IsFirst(Declaration(before, name, annotation, gap, items, rest), "const " + name, 0, |before|)
    requires IsExtracted(Declaration(before, name, annotation, gap, items, rest), name, r)
    ensures var src, at := Declaration(before, name, annotation, gap, items, rest),
                           |before| + 6 + |name| + |annotation| + 1 + |gap|;
            TextAt(src, at, Print(Arr(items))) && IsLiteral(src, at, r)
  {
    hide Declaration, Print, IsFirst, OccursAt, IsOpening, IsLiteral, TextAt, ClosesAt;
    var src := Declaration(before, name, annotation, gap, items, rest);
    var head := before + "const " + name + annotation;
    var at := |head| + 1 + |gap|;
    DeclarationParts(before, name, annotation, gap, items, rest);
    EqualsSign(src, before, name, annotation, |head|);
    PrintedStartsWithBracket(src, at, items);
    OpeningBracket(src, |head|, at, gap);
    var open :| open < |src| && IsOpening(src, name, open) && if open < 0 then r == None else IsLiteral(src, open, r);
    OpeningIs(src, name, open, |before|, |head|, at);
  }

  lemma PrintedStartsWithBracket(src: string, at: nat, items: seq<Piece>)
    requires TextAt(src, at, Print(Arr(items)))
    ensures at < |src| && src[at] == '['
  {
    TextParts(src, at, "[" + PrintAll(items), "]");
    TextParts(src, at, "[", PrintAll(items));
    assert "["[0] == src[at];
  }

  lemma OpeningIs(src: string, name: string, open: int, start: nat, assign: int, at: int)
    requires IsFirst(src, "const " + name, 0, start)
    requires IsFirst(src, "=", start, assign) && IsFirst(src, "[", assign, at)
    requires IsOpening(src, name, open)
    ensures open == at
  {
    hide IsFirst;
    var start' :| IsFirst(src, "const " + name, 0, start') && OpensAfter(src, start', open);
    FirstIsUnique(src, "const " + name, 0, start, start');
    var assign' :| IsFirst(src, "=", start, assign') && IsFirst(src, "[", assign', open);
    FirstIsUnique(src, "=", start, assign, assign');
    FirstIsUnique(src, "[", assign, open, at);
  }

  lemma LiteralIs(src: string, open: nat, end: nat, r: Option<string>)
    requires ClosesAt(src, open, end) && IsLiteral(src, open, r)
    ensures r == Some(src[open..end])
  {
    if r.Some? {
      var end': nat :| ClosesAt(src, open, end') && r.value == src[open..end'];
      ClosesOnce(src, open, end, end');
    }
  }

  // A string that ends in a backslash.

  /** In an array of one string that ends in a backslash, the quote is still open behind the closing bracket. */
  lemma StaysOpenPastEnd(src: string, open: nat, q: char, body: string)
    requires IsQuote(q) && OwnQuotesEscaped(q, body) && EndsInBackslash(body)
    requires TextAt(src, open, ['[', q] + body + [q, ']'])
    ensures var end := open + |body| + 4;
            QuoteAt(src, open, end) == Some(q) && Depth(src, open, end) == 1 && AtLeast(src, open, open + 1, end, 1)
  {
    TextParts(src, open, ['[', q] + body, [q, ']']);
    TextParts(src, open, ['[', q], body);
    var last := open + 2 + |body|;
    assert ['[', q][0] == '[' == src[open] && ['[', q][1] == q == src[open + 1];
    assert [q, ']'][0] == q == src[last] && [q, ']'][1] == ']' == src[last + 1];
    assert body[|body| - 1] == src[last - 1];
    OpensLevel(src, open, open);
    StaysQuoted(src, open, open + 1, q, body, |body|);
    QuotedStep(src, open, last, q);
    hide QuoteAt, Depth;
    QuotedBracket(src, open, last + 1, q);
  }

  lemma QuotedBracket(src: string, open: nat, i: nat, q: char)
    requires open < i < |src| && QuoteAt(src, open, i) == Some(q) && IsQuote(q) && src[i] == ']'
    ensures QuoteAt(src, open, i + 1) == Some(q) && Depth(src, open, i + 1) == Depth(src, open, i)
  {
  }

  /** Without the quote character in the rest of the text, an open quote is never closed. */
  lemma {:induction false} NeverCloses(src: string, open: nat, i: nat, q: char, x: nat)
    requires open < i <= x <= |src| && QuoteAt(src, open, i) == Some(q) && q !in src[i..]
    ensures QuoteAt(src, open, x) == Some(q) && Depth(src, open, x) == Depth(src, open, i)
  {
    if x > i {
      NeverCloses(src, open, i, q, x - 1);
      assert src[i..][x - 1 - i] == src[x - 1];
    }
  }

  lemma UnclosedIsNone(src: string, open: nat, end: nat, q: char, r: Option<string>)
    requires open < end <= |src| && QuoteAt(src, open, end) == Some(q) && Depth(src, open, end) == 1
    requires AtLeast(src, open, open + 1, end, 1) && q !in src[end..] && IsLiteral(src, open, r)
    ensures r == None
  {
    if r.Some? {
      var x: nat :| ClosesAt(src, open, x) && r.value == src[open..x];
      if x >= end {
        NeverCloses(src, open, end, q, x);
      }
    }
  }

  lemma NotCutThere(src: string, open: nat, end: nat, r: Option<string>)
    requires open < end <= |src| && Depth(src, open, end) != 0 && IsLiteral(src, open, r)
    ensures r != Some(src[open..end])
  {
    if r.Some? {
      var x: nat :| ClosesAt(src, open, x) && r.value == src[open..x];
      assert |r.value| == x - open;
    }
  }

  /** In an array of one string whose own quote stands only behind backslashes, what is scanned from its bracket is
      the printed array iff the string does not end in a backslash; if it does, and the quote does not occur again,
      nothing is found. */
  lemma LoneStringLiteralIff(src: string, open: nat, q: char, body: string, r: Option<string>)
    requires q == '\'' || q == '"' || q == '`'
    requires OwnQuotesEscaped(q, body)
    requires TextAt(src, open, Print(Arr([Str(q, body)]))) && IsLiteral(src, open, r)
    ensures open + |body| + 4 <= |src|
    ensures r == Some(Print(Arr([Str(q, body)]))) <==> !EndsInBackslash(body)
    ensures EndsInBackslash(body) && q !in src[open + |body| + 4..] ==> r == None
  {
    var items, lit := [Str(q, body)], ['[', q] + body + [q, ']'];
    LoneStringPrinted(q, body);
    hide Print, PrintAll, QuoteAt, Depth, OwnQuotesEscaped;
    if EndsInBackslash(body) {
      StaysOpenPastEnd(src, open, q, body);
      NotCutThere(src, open, open + |body| + 4, r);
      assert src[open..open + |lit|] == lit;
      if q !in src[open + |body| + 4..] {
        hide IsLiteral, AtLeast;
        UnclosedIsNone(src, open, open + |body| + 4, q, r);
      }
    } else {
      assert AllPrintable(items);
      hide IsLiteral, AtLeast;
      PrintedArrayIsExtracted(src, open, items, r);
    }
  }

  lemma LoneStringPrinted(q: char, body: string)
    ensures Print(Arr([Str(q, body)])) == ['[', q] + body + [q, ']']
  {
    assert [Str(q, body)][1..] == [];
    assert PrintAll([Str(q, body)]) == [q] + body + [q];
    assert "[" == ['['] && "]" == [']'];
  }

  /** The same of the whole function, for such an array behind its declaration. */
  lemma LoneStringExtractedIff(before: string, name: string, annotation: string, gap: string, q: char, body: string,
                               rest: string, r: Option<string>)
    requires q == '\'' || q == '"' || q == '`'
    requires OwnQuotesEscaped(q, body)
    requires '=' !in name && '=' !in annotation && '[' !in gap
    requires IsFirst(Declaration(before, name, annotation, gap, [Str(q, body)], rest), "const " + name, 0, |before|)
    requires IsExtracted(Declaration(before, name, annotation, gap, [Str(q, body)], rest), name, r)
    ensures r == Some(Print(Arr([Str(q, body)]))) <==> !EndsInBackslash(body)
    ensures EndsInBackslash(body) && q !in rest ==> r == None
  {
    hide IsLiteral, IsFirst, Declaration, OwnQuotesEscaped, Print;
    var items := [Str(q, body)];
    var src := Declaration(before, name, annotation, gap, items, rest);
    var at := |before| + 6 + |name| + |annotation| + 1 + |gap|;
    DeclarationOpens(before, name, annotation, gap, items, rest, r);
    LoneStringPrinted(q, body);
    LoneStringLiteralIff(src, at, q, body, r);
    DeclarationEnds(before, name, annotation, gap, items, rest);
  }

  /** A text on which the function fails: the string holds one escaped backslash. */
  lemma EscapedBackslashIsMisread(r: Option<string>)
    requires IsExtracted("const k = ['\\\\'];", "k", r)
    ensures r == None
  {
    var q, body := '\'', "\\\\";
    assert Declaration("", "k", " ", " ", [Str(q, body)], ";") == "const k = ['\\\\'];" by {
      LoneStringPrinted(q, body);
    }
    assert "const k = ['\\\\'];"[0..7] == "const " + "k";
    assert OccursAt("const k = ['\\\\'];", "const " + "k", 0);
    LoneStringExtractedIff("", "k", " ", " ", q, body, ";", r);
  }

  /** Where no '=' follows the declaration, an array at the start of the text is taken. */
  lemma MissingEqualsStartsOver(r: Option<string>)
    requires IsExtracted("[1];const k", "k", r)
    ensures r == Some("[1]")
  {
    var src := "[1];const k";
    FirstPlaces(src);
    PrintedOne(src);
    var open :| open < |src| && IsOpening(src, "k", open) && if open < 0 then r == None else IsLiteral(src, open, r);
    hide *;
    OpeningIs(src, "k", open, 4, -1, 0);
    PrintedArrayIsExtracted(src, 0, [Raw('1')], r);
  }

  lemma PrintedOne(src: string)
    requires src == "[1];const k"
    ensures Print(Arr([Raw('1')])) == "[1]" && AllPrintable([Raw('1')]) && TextAt(src, 0, "[1]")
  {
    assert [Raw('1')][1..] == [];
  }

  lemma FirstPlaces(src: string)
    requires src == "[1];const k"
    ensures IsFirst(src, "const " + "k", 0, 4) && IsFirst(src, "=", 4, -1) && IsFirst(src, "[", -1, 0)
  {
    assert src[4..11] == "const " + "k" && OccursAt(src, "const " + "k", 4);
    assert src[0..1] == "[" && OccursAt(src, "[", 0);
    forall i | 0 <= i && OccursAt(src, "const " + "k", i)
      ensures 4 <= i
    {
      OccurrenceStarts(src, "const " + "k", i);
    }
    NoOccurrence(src, "=", 4);
  }

  lemma DeclarationParts(before: string, name: string, annotation: string, gap: string, items: seq<Piece>, rest: string)
    ensures var src := Declaration(before, name, annotation, gap, items, rest);
            var head := before + "const " + name + annotation;
            && TextAt(src, 0, head) && TextAt(src, |head|, "=") && TextAt(src, |head| + 1, gap)
            && TextAt(src, |head| + 1 + |gap|, Print(Arr(items)))
            && TextAt(src, |before|, "const ") && TextAt(src, |before| + 6, name)
            && TextAt(src, |before| + 6 + |name|, annotation)
  {
  }

  lemma DeclarationEnds(before: string, name: string, annotation: string, gap: string, items: seq<Piece>, rest: string)
    ensures var end := |before| + 6 + |name| + |annotation| + 1 + |gap| + |Print(Arr(items))|;
            var src := Declaration(before, name, annotation, gap, items, rest);
            end <= |src| && src[end..] == rest
  {
    hide Print;
  }

  lemma FirstChar(src: string, c: char, from: nat, at: nat)
    requires from <= at < |src| && src[at] == c && forall i :: from <= i < at ==> src[i] != c
    ensures IsFirst(src, [c], from, at)
  {
    assert src[at..at + 1] == [c];
    forall i | from <= i && OccursAt(src, [c], i)
      ensures at <= i
    {
      assert src[i..i + 1][0] == src[i];
    }
  }

  lemma EqualsSign(src: string, before: string, name: string, annotation: string, at: nat)
    requires '=' !in name && '=' !in annotation && at == |before| + 6 + |name| + |annotation|
    requires TextAt(src, |before|, "const ") && TextAt(src, |before| + 6, name)
    requires TextAt(src, |before| + 6 + |name|, annotation) && TextAt(src, at, "=")
    ensures IsFirst(src, "=", |before|, at)
  {
    forall i | |before| <= i < at
      ensures src[i] != '='
    {
      if i < |before| + 6 {
        assert "const "[i - |before|] == src[i];
      } else if i < |before| + 6 + |name| {
        assert name[i - |before| - 6] == src[i];
      } else {
        assert annotation[i - |before| - 6 - |name|] == src[i];
      }
    }
    assert "="[0] == src[at];
    FirstChar(src, '=', |before|, at);
  }

  lemma OpeningBracket(src: string, assign: nat, at: nat, gap: string)
    requires '[' !in gap && at == assign + 1 + |gap| < |src|
    requires TextAt(src, assign, "=") && TextAt(src, assign + 1, gap) && src[at] == '['
    ensures IsFirst(src, "[", assign, at)
  {
    forall i | assign <= i < at
      ensures src[i] != '['
    {
      if i == assign {
        assert "="[0] == src[i];
      } else {
        assert gap[i - assign - 1] == src[i];
      }
    }
    FirstChar(src, '[', assign, at);
  }
}
