// The problem tables: what saving and deleting a problem leaves in them.
module ProblemTables {
  import opened Sequences
  import opened ProblemText
  import opened ProblemForm

  /** A table row that belongs to a problem. */
  datatype Owned<T> = Owned(owner: nat, row: T)

  /** The rows of one problem, in the order they were inserted. */
  function Of<T>(table: seq<Owned<T>>, id: nat): seq<T>
    decreases |table|
  {
    if table == [] then []
    else
      var last := table[|table| - 1];
      Of(table[..|table| - 1], id) + if last.owner == id then [last.row] else []
  }

  /** The table after DELETE ... WHERE problem_id = id. */
  function Without<T>(table: seq<Owned<T>>, id: nat): seq<Owned<T>>
    decreases |table|
  {
    if table == [] then []
    else
      var last := table[|table| - 1];
      Without(table[..|table| - 1], id) + if last.owner == id then [] else [last]
  }

  function Tag<T>(id: nat, rows: seq<T>): (r: seq<Owned<T>>)
    ensures |r| == |rows|
  {
    seq(|rows|, i requires 0 <= i < |rows| => Owned(id, rows[i]))
  }

  lemma {:induction false} OfConcat<T>(x: seq<Owned<T>>, y: seq<Owned<T>>, id: nat)
    ensures Of(x + y, id) == Of(x, id) + Of(y, id)
    decreases |y|
  {
    if y == [] {
      assert x + y == x;
    } else {
      OfConcat(x, y[..|y| - 1], id);
      assert (x + y)[..|x + y| - 1] == x + y[..|y| - 1];
    }
  }

  lemma {:induction false} OfWithout<T>(table: seq<Owned<T>>, id: nat, other: nat)
    ensures Of(Without(table, id), other) == if other == id then [] else Of(table, other)
    decreases |table|
  {
    if table != [] {
      var before, last := table[..|table| - 1], table[|table| - 1];
      OfWithout(before, id, other);
      var rest := Without(before, id);
      if last.owner == id {
        assert rest + [] == rest;
      } else {
        OfConcat(rest, [last], other);
        OfOne(last, other);
      }
    }
  }

  lemma OfOne<T>(o: Owned<T>, id: nat)
    ensures Of([o], id) == if o.owner == id then [o.row] else []
  {
    assert [o][..0] == [];
  }

  lemma {:induction false} OfTag<T>(id: nat, rows: seq<T>, other: nat)
    ensures Of(Tag(id, rows), other) == if other == id then rows else []
    decreases |rows|
  {
    if rows != [] {
      OfTag(id, rows[..|rows| - 1], other);
      assert Tag(id, rows)[..|rows| - 1] == Tag(id, rows[..|rows| - 1]);
      assert rows == rows[..|rows| - 1] + [rows[|rows| - 1]];
    }
  }

  /** Replacing the rows of one problem leaves those of the others alone. */
  lemma OfReplaced<T>(table: seq<Owned<T>>, id: nat, rows: seq<T>, other: nat)
    ensures Of(Without(table, id) + Tag(id, rows), other) == if other == id then rows else Of(table, other)
  {
    OfConcat(Without(table, id), Tag(id, rows), other);
    OfWithout(table, id, other);
    OfTag(id, rows, other);
  }

  datatype Head = Head(title: string, difficulty: string, topic: string, xp: int, statement: string,
                       isPrivate: bool, course: string, ioMode: string)
  datatype ConstraintRow = ConstraintRow(text: string, index: int)
  datatype CaseRow = CaseRow(input: string, expected: string, hidden: bool, index: int)
  datatype ExampleRow = ExampleRow(input: string, output: string, explanation: string, index: int)
  datatype Signature = Signature(entryPoint: string, params: seq<Param>, returnType: string, compare: string,
                                 kind: string)
  datatype Starters = Starters(javascript: string, python: string, java: string, cpp: string, go: string)

  datatype Tables = Tables(
    problems: map<nat, Head>,
    constraints: seq<Owned<ConstraintRow>>,
    examples: seq<Owned<ExampleRow>>,
    cases: seq<Owned<CaseRow>>,
    signatures: map<nat, Signature>,
    starters: map<nat, Starters>,
    sectionQuestions: seq<nat>,
    attemptQuestions: seq<nat>)

  // What a save writes.

  function XpFor(difficulty: string): int {
    if difficulty == "Hard" then 150 else if difficulty == "Medium" then 50 else 20
  }

  function HeadOf(p: Problem, ioMode: string): Head {
    Head(p.title, p.difficulty, p.topic, XpFor(p.difficulty), p.statement, p.isPrivate, p.course, ioMode)
  }

  /** Constraints keep their position in the form; blank ones are skipped. */
  function ConstraintRows(cs: seq<string>, n: nat): seq<ConstraintRow>
    requires n <= |cs|
  {
    if n == 0 then []
    else
      var c := TrimSpace(cs[n - 1]);
      ConstraintRows(cs, n - 1) + if c == "" then [] else [ConstraintRow(c, n - 1)]
  }

  function CaseRows(cs: seq<Case>, n: nat): seq<CaseRow>
    requires n <= |cs|
  {
    if n == 0 then []
    else
      var c := cs[n - 1];
      CaseRows(cs, n - 1) + [CaseRow(TrimNewlines(c.input), TrimSpace(c.expected), c.hidden, n - 1)]
  }

  function At(explanations: seq<string>, i: nat): string {
    if i < |explanations| then explanations[i] else ""
  }

  /** The examples written while going through the first `n` cases. */
  function ExampleRows(cs: seq<Case>, explanations: seq<string>, n: nat): seq<ExampleRow>
    requires n <= |cs|
  {
    if n == 0 then []
    else
      var c, before := cs[n - 1], ExampleRows(cs, explanations, n - 1);
      before + if c.hidden then []
               else [ExampleRow(TrimNewlines(c.input), TrimSpace(c.expected), At(explanations, |before|), |before|)]
  }

  function VisibleCount(cs: seq<Case>, n: nat): nat
    requires n <= |cs|
  {
    if n == 0 then 0 else VisibleCount(cs, n - 1) + if cs[n - 1].hidden then 0 else 1
  }

  lemma {:induction false} CountsGrow(p: Problem, i: nat, n: nat)
    requires i <= n
    ensures n <= |p.cases| ==> VisibleCount(p.cases, i) <= VisibleCount(p.cases, n)
    ensures n <= |p.constraints| ==> |ConstraintRows(p.constraints, i)| <= |ConstraintRows(p.constraints, n)|
    decreases n
  {
    hide TrimSpace;
    if i < n {
      CountsGrow(p, i, n - 1);
    }
  }

  // ORDER BY order_index.

  function ExampleIndex(r: ExampleRow): int { r.index }

  function CaseIndex(r: CaseRow): int { r.index }

  function ConstraintIndex(r: ConstraintRow): int { r.index }

  /** Reading in index order rearranges the rows so that their indices do not descend. */
  lemma ReadInIndexOrder(examples: seq<ExampleRow>, cases: seq<CaseRow>, constraints: seq<ConstraintRow>)
    ensures var r := SortBy(ExampleIndex, examples);
            multiset(r) == multiset(examples) && forall i, j :: 0 <= i < j < |r| ==> r[i].index <= r[j].index
    ensures var r := SortBy(CaseIndex, cases);
            multiset(r) == multiset(cases) && forall i, j :: 0 <= i < j < |r| ==> r[i].index <= r[j].index
    ensures var r := SortBy(ConstraintIndex, constraints);
            multiset(r) == multiset(constraints) && forall i, j :: 0 <= i < j < |r| ==> r[i].index <= r[j].index
  {
    SortByOrders(ExampleIndex, examples);
    SortByOrders(CaseIndex, cases);
    SortByOrders(ConstraintIndex, constraints);
    hide SortBy;
    assert forall r: ExampleRow :: ExampleIndex(r) == r.index;
    assert forall r: CaseRow :: CaseIndex(r) == r.index;
    assert forall r: ConstraintRow :: ConstraintIndex(r) == r.index;
  }

  function ExplanationsOf(rows: seq<ExampleRow>): seq<string> {
    seq(|rows|, i requires 0 <= i < |rows| => rows[i].explanation)
  }

  function Explanations(t: Tables, id: nat): seq<string> {
    ExplanationsOf(SortBy(ExampleIndex, Of(t.examples, id)))
  }

  /** An existing signature keeps its kind. */
  function SignatureOf(t: Tables, id: nat, p: Problem): Signature {
    Signature(p.entryPoint, p.params, p.returnType, p.compare,
              if id in t.signatures then t.signatures[id].kind else "function")
  }

  /** The tables after problem `id` was saved from the form `p`. */
  function Stored(t: Tables, id: nat, head: Head, p: Problem, starters: Starters): Tables {
    t.(problems := t.problems[id := head],
       constraints := Without(t.constraints, id) + Tag(id, ConstraintRows(p.constraints, |p.constraints|)),
       examples := Without(t.examples, id) + Tag(id, ExampleRows(p.cases, Explanations(t, id), |p.cases|)),
       cases := Without(t.cases, id) + Tag(id, CaseRows(p.cases, |p.cases|)),
       signatures := t.signatures[id := SignatureOf(t, id, p)],
       starters := t.starters[id := starters])
  }

  /** Deleting a problem row takes everything that hangs off it along. */
  function Deleted(t: Tables, id: nat): Tables {
    t.(problems := t.problems - {id},
       constraints := Without(t.constraints, id),
       examples := Without(t.examples, id),
       cases := Without(t.cases, id),
       signatures := t.signatures - {id},
       starters := t.starters - {id})
  }

  // What agreement between the tables means.

  function Visible(cases: seq<CaseRow>): seq<CaseRow>
    decreases |cases|
  {
    if cases == [] then []
    else
      var last := cases[|cases| - 1];
      Visible(cases[..|cases| - 1]) + if last.hidden then [] else [last]
  }

  /** The cases are numbered from 0, and each has one valid JSON line per parameter and a valid JSON expectation. */
  ghost predicate CasesAgree(valid: string -> bool, cases: seq<CaseRow>, params: seq<Param>) {
    forall i :: 0 <= i < |cases| ==>
      && cases[i].index == i
      && |Lines(cases[i].input)| == |params|
      && (forall j :: 0 <= j < |Lines(cases[i].input)| ==> valid(Lines(cases[i].input)[j]))
      && valid(cases[i].expected)
  }

  /** The examples are the visible cases in order, numbered from 0. */
  ghost predicate ExamplesAgree(examples: seq<ExampleRow>, visible: seq<CaseRow>) {
    && |examples| == |visible|
    && forall i :: 0 <= i < |examples| ==>
         && examples[i].index == i
         && examples[i].input == visible[i].input
         && examples[i].output == visible[i].expected
  }

  /** The tables agree on problem `id`. */
  ghost predicate Consistent(valid: string -> bool, t: Tables, id: nat) {
    && id in t.problems && id in t.signatures && id in t.starters
    && DistinctNames(t.signatures[id].params)
    && CasesAgree(valid, Of(t.cases, id), t.signatures[id].params)
    && ExamplesAgree(Of(t.examples, id), Visible(Of(t.cases, id)))
    && Of(t.examples, id) != []
  }

  lemma {:induction false} CaseRowsAt(cs: seq<Case>, n: nat, i: nat)
    requires i < n <= |cs|
    ensures |CaseRows(cs, n)| == n
    ensures CaseRows(cs, n)[i] == CaseRow(TrimNewlines(cs[i].input), TrimSpace(cs[i].expected), cs[i].hidden, i)
  {
    hide TrimSpace, TrimNewlines;
    if n > 1 {
      CaseRowsAt(cs, n - 1, if i < n - 1 then i else 0);
    }
  }

  lemma SavedCasesAgree(valid: string -> bool, cs: seq<Case>, params: seq<Param>)
    requires CasesFit(valid, cs, |params|)
    ensures CasesAgree(valid, CaseRows(cs, |cs|), params)
  {
    hide TrimSpace, TrimNewlines, Lines, CaseRows;
    if |cs| > 0 {
      CaseRowsAt(cs, |cs|, 0);
    } else {
      NoCaseRows(cs);
    }
    forall i | 0 <= i < |CaseRows(cs, |cs|)|
      ensures var row := CaseRows(cs, |cs|)[i];
              && row.index == i && |Lines(row.input)| == |params|
              && (forall j :: 0 <= j < |Lines(row.input)| ==> valid(Lines(row.input)[j]))
              && valid(row.expected)
    {
      CaseRowsAt(cs, |cs|, i);
      assert CaseFits(valid, cs[i], |params|);
    }
  }

  lemma NoCaseRows(cs: seq<Case>)
    ensures CaseRows(cs, 0) == []
  {
  }

  lemma VisibleStep(cs: seq<Case>, n: nat)
    requires 0 < n <= |cs|
    ensures var c, before := cs[n - 1], Visible(CaseRows(cs, n - 1));
            Visible(CaseRows(cs, n)) ==
            if c.hidden then before
            else before + [CaseRow(TrimNewlines(c.input), TrimSpace(c.expected), c.hidden, n - 1)]
  {
    hide TrimSpace, TrimNewlines;
    var rows := CaseRows(cs, n);
    assert rows[..|rows| - 1] == CaseRows(cs, n - 1);
  }

  ghost predicate Explained(examples: seq<ExampleRow>, explanations: seq<string>) {
    forall i :: 0 <= i < |examples| ==> examples[i].explanation == At(explanations, i)
  }

  lemma {:induction false} ExampleCount(cs: seq<Case>, explanations: seq<string>, n: nat)
    requires n <= |cs|
    ensures |ExampleRows(cs, explanations, n)| == VisibleCount(cs, n)
  {
    hide TrimSpace, TrimNewlines;
    if n > 0 {
      ExampleCount(cs, explanations, n - 1);
    }
  }

  /** The counter of written examples follows the visible cases. */
  lemma {:induction false} SavedExamplesAgree(cs: seq<Case>, explanations: seq<string>, n: nat)
    requires n <= |cs|
    ensures ExamplesAgree(ExampleRows(cs, explanations, n), Visible(CaseRows(cs, n)))
    ensures Explained(ExampleRows(cs, explanations, n), explanations)
  {
    if n > 0 {
      hide *;
      SavedExamplesAgree(cs, explanations, n - 1);
      VisibleStep(cs, n);
      ExampleStep(cs, explanations, n);
      if !cs[n - 1].hidden {
        var c := cs[n - 1];
        var row := CaseRow(TrimNewlines(c.input), TrimSpace(c.expected), c.hidden, n - 1);
        OneMoreExample(ExampleRows(cs, explanations, n - 1), Visible(CaseRows(cs, n - 1)), explanations, row);
      }
    }
  }

  lemma ExampleStep(cs: seq<Case>, explanations: seq<string>, n: nat)
    requires 0 < n <= |cs|
    ensures var c, before := cs[n - 1], ExampleRows(cs, explanations, n - 1);
            ExampleRows(cs, explanations, n) ==
            if c.hidden then before
            else
              before + [ExampleRow(TrimNewlines(c.input), TrimSpace(c.expected), At(explanations, |before|), |before|)]
  {
    hide TrimSpace, TrimNewlines;
  }

  lemma OneMoreExample(examples: seq<ExampleRow>, visible: seq<CaseRow>, explanations: seq<string>, row: CaseRow)
    requires ExamplesAgree(examples, visible) && Explained(examples, explanations)
    ensures var n := |examples|;
            var examples' := examples + [ExampleRow(row.input, row.expected, At(explanations, n), n)];
            ExamplesAgree(examples', visible + [row]) && Explained(examples', explanations)
  {
    hide At;
  }

  lemma {:induction false} SomeVisible(cs: seq<Case>, explanations: seq<string>, n: nat, i: nat)
    requires i < n <= |cs| && !cs[i].hidden
    ensures ExampleRows(cs, explanations, n) != []
  {
    if i < n - 1 {
      SomeVisible(cs, explanations, n - 1, i);
    }
  }

  /** A save of an acceptable form leaves the tables in agreement on its problem. */
  lemma StoredIsConsistent(valid: string -> bool, t: Tables, id: nat, head: Head, p: Problem, starters: Starters)
    requires Acceptable(valid, p)
    ensures Consistent(valid, Stored(t, id, head, p, starters), id)
  {
    hide CaseRows, ExampleRows, TYPES, HeaderFits, CompareFits, Lines, TrimSpace, TrimNewlines, Explanations;
    hide Of, Without, Tag;
    OfReplaced(t.cases, id, CaseRows(p.cases, |p.cases|), id);
    OfReplaced(t.examples, id, ExampleRows(p.cases, Explanations(t, id), |p.cases|), id);
    SavedCasesAgree(valid, p.cases, p.params);
    SavedExamplesAgree(p.cases, Explanations(t, id), |p.cases|);
    var i :| 0 <= i < |p.cases| && !p.cases[i].hidden;
    SomeVisible(p.cases, Explanations(t, id), |p.cases|, i);
    hide CasesAgree, ExamplesAgree;
  }

  /** What the tables hold for one problem. */
  ghost predicate SameFor(t: Tables, t': Tables, id: nat) {
    && (id in t.problems <==> id in t'.problems) && (id in t.problems ==> t'.problems[id] == t.problems[id])
    && Of(t'.constraints, id) == Of(t.constraints, id)
    && Of(t'.examples, id) == Of(t.examples, id)
    && Of(t'.cases, id) == Of(t.cases, id)
    && (id in t.signatures <==> id in t'.signatures) && (id in t.signatures ==> t'.signatures[id] == t.signatures[id])
    && (id in t.starters <==> id in t'.starters) && (id in t.starters ==> t'.starters[id] == t.starters[id])
  }

  lemma SameIsConsistent(valid: string -> bool, t: Tables, t': Tables, id: nat)
    requires SameFor(t, t', id)
    ensures Consistent(valid, t, id) <==> Consistent(valid, t', id)
  {
    hide Of, CasesAgree, ExamplesAgree, Visible, DistinctNames;
  }

  /** Saving or deleting one problem leaves every other problem as it was. */
  lemma OthersUntouched(t: Tables, id: nat, head: Head, p: Problem, starters: Starters, other: nat)
    requires other != id
    ensures SameFor(t, Stored(t, id, head, p, starters), other)
    ensures SameFor(t, Deleted(t, id), other)
  {
    hide CaseRows, ExampleRows, ConstraintRows, Explanations, Of, Without, Tag;
    OfReplaced(t.cases, id, CaseRows(p.cases, |p.cases|), other);
    OfReplaced(t.examples, id, ExampleRows(p.cases, Explanations(t, id), |p.cases|), other);
    OfReplaced(t.constraints, id, ConstraintRows(p.constraints, |p.constraints|), other);
    OfWithout(t.cases, id, other);
    OfWithout(t.examples, id, other);
    OfWithout(t.constraints, id, other);
  }

  /** The lists of problems used in tests have no part in a save or a delete. */
  lemma TestListsUntouched(t: Tables, id: nat, head: Head, p: Problem, starters: Starters)
    ensures var t', t'' := Stored(t, id, head, p, starters), Deleted(t, id);
            && t'.sectionQuestions == t''.sectionQuestions == t.sectionQuestions
            && t'.attemptQuestions == t''.attemptQuestions == t.attemptQuestions
  {
  }

  /** The points of a saved problem. */
  lemma PointsAre(p: Problem, ioMode: string)
    ensures p.difficulty == "Hard" ==> HeadOf(p, ioMode).xp == 150
    ensures p.difficulty == "Medium" ==> HeadOf(p, ioMode).xp == 50
    ensures p.difficulty == "Easy" ==> HeadOf(p, ioMode).xp == 20
  {
  }

  /** No table holds anything of the problem. */
  ghost predicate Gone(t: Tables, id: nat) {
    && id !in t.problems && id !in t.signatures && id !in t.starters
    && Of(t.constraints, id) == [] && Of(t.examples, id) == [] && Of(t.cases, id) == []
  }

  lemma DeletedLeavesNothing(t: Tables, id: nat)
    ensures Gone(Deleted(t, id), id)
  {
    OfWithout(t.cases, id, id);
    OfWithout(t.examples, id, id);
    OfWithout(t.constraints, id, id);
  }

  // Explanations.

  /** The explanation at position `i` of a problem's examples in index order; none behind the last. */
  function ExplanationAt(t: Tables, id: nat, i: nat): string {
    At(Explanations(t, id), i)
  }

  /** Whatever the examples were, example i of a save keeps the explanation at position i; further ones have none. */
  lemma ExplanationsCarriedOver(t: Tables, id: nat, head: Head, p: Problem, starters: Starters)
    ensures var before := SortBy(ExampleIndex, Of(t.examples, id));
            var after := Of(Stored(t, id, head, p, starters).examples, id);
            forall i :: 0 <= i < |after| ==> after[i].explanation == if i < |before| then before[i].explanation else ""
  {
    hide CaseRows, TrimSpace, TrimNewlines, Visible;
    SavedExamplesAgree(p.cases, Explanations(t, id), |p.cases|);
    OfReplaced(t.examples, id, ExampleRows(p.cases, Explanations(t, id), |p.cases|), id);
    hide ExampleRows, SortBy, Of;
  }

  /** So a save keeps the explanation at every position it still has an example for, and drops the others. */
  lemma ExplanationAfterSave(t: Tables, id: nat, head: Head, p: Problem, starters: Starters, i: nat)
    ensures var t' := Stored(t, id, head, p, starters);
            ExplanationAt(t', id, i) == if i < |Of(t'.examples, id)| then ExplanationAt(t, id, i) else ""
  {
    hide CaseRows, TrimSpace, TrimNewlines, Visible;
    var rows := ExampleRows(p.cases, Explanations(t, id), |p.cases|);
    SavedExamplesAgree(p.cases, Explanations(t, id), |p.cases|);
    OfReplaced(t.examples, id, rows, id);
    AscendingStaysPut(ExampleIndex, rows);
    hide ExampleRows, SortBy, Of;
  }

  lemma NoExplanations(t: Tables, id: nat, i: nat)
    requires Of(t.examples, id) == []
    ensures ExplanationAt(t, id, i) == ""
  {
  }

  /** The rows are the non-blank ones of the first `n` constraints, trimmed, in order, each under its position. */
  ghost predicate ExactConstraints(rows: seq<ConstraintRow>, cs: seq<string>, n: nat)
    requires n <= |cs|
  {
    && (forall i :: 0 <= i < |rows| ==> 0 <= rows[i].index < n && rows[i].text == TrimSpace(cs[rows[i].index]) != "")
    && (forall i, j :: 0 <= i < j < |rows| ==> rows[i].index < rows[j].index)
    && (forall k :: 0 <= k < n && TrimSpace(cs[k]) != "" ==> ConstraintRow(TrimSpace(cs[k]), k) in rows)
  }

  lemma OneMoreConstraint(rows: seq<ConstraintRow>, cs: seq<string>, n: nat)
    requires n < |cs| && ExactConstraints(rows, cs, n)
    ensures TrimSpace(cs[n]) == "" ==> ExactConstraints(rows, cs, n + 1)
    ensures TrimSpace(cs[n]) != "" ==> ExactConstraints(rows + [ConstraintRow(TrimSpace(cs[n]), n)], cs, n + 1)
  {
    hide TrimSpace;
    var more := rows + [ConstraintRow(TrimSpace(cs[n]), n)];
    assert more[|rows|] in more;
    assert forall r :: r in rows ==> r in more;
  }

  lemma ConstraintStep(cs: seq<string>, n: nat)
    requires n < |cs|
    ensures ConstraintRows(cs, 0) == []
    ensures TrimSpace(cs[n]) == "" ==> ConstraintRows(cs, n + 1) == ConstraintRows(cs, n)
    ensures TrimSpace(cs[n]) != "" ==>
              ConstraintRows(cs, n + 1) == ConstraintRows(cs, n) + [ConstraintRow(TrimSpace(cs[n]), n)]
  {
    hide TrimSpace;
  }

  lemma {:induction false} ConstraintRowsExact(cs: seq<string>, n: nat)
    requires n <= |cs|
    ensures ExactConstraints(ConstraintRows(cs, n), cs, n)
  {
    hide *;
    if n == 0 {
      NoConstraints(cs);
    } else {
      ConstraintRowsExact(cs, n - 1);
      ConstraintStep(cs, n - 1);
      OneMoreConstraint(ConstraintRows(cs, n - 1), cs, n - 1);
    }
  }

  lemma NoConstraints(cs: seq<string>)
    ensures ConstraintRows(cs, 0) == [] && ExactConstraints([], cs, 0)
  {
    hide TrimSpace;
  }

  // Reading a problem back.

  function TextsOf(rows: seq<ConstraintRow>): seq<string> {
    seq(|rows|, i requires 0 <= i < |rows| => rows[i].text)
  }

  function FormCases(rows: seq<CaseRow>): seq<Case> {
    seq(|rows|, i requires 0 <= i < |rows| => Case(rows[i].input, rows[i].expected, rows[i].hidden))
  }

  /** The form the editor shows for a stored problem. */
  function Load(t: Tables, id: nat): Problem
    requires id in t.problems && id in t.signatures
  {
    var h, s := t.problems[id], t.signatures[id];
    Problem(h.title, h.difficulty, h.topic, h.course, h.statement,
            TextsOf(SortBy(ConstraintIndex, Of(t.constraints, id))), h.isPrivate,
            s.entryPoint, s.params, s.returnType, s.compare,
            FormCases(SortBy(CaseIndex, Of(t.cases, id))))
  }

  function TrimmedCase(c: Case): Case {
    Case(TrimNewlines(c.input), TrimSpace(c.expected), c.hidden)
  }

  /** `kept` lists the trimmed texts of `cs` that are not blank, in order. */
  ghost predicate NonBlank(kept: seq<string>, cs: seq<string>, at: seq<int>) {
    && |at| == |kept|
    && (forall i :: 0 <= i < |kept| ==> 0 <= at[i] < |cs| && kept[i] == TrimSpace(cs[at[i]]) != "")
    && (forall i, j :: 0 <= i < j < |at| ==> at[i] < at[j])
    && (forall k :: 0 <= k < |cs| && TrimSpace(cs[k]) != "" ==> k in at)
  }

  lemma {:induction false} CaseRowsAscend(cs: seq<Case>, n: nat)
    requires n <= |cs|
    ensures Ascending(CaseIndex, CaseRows(cs, n)) && |CaseRows(cs, n)| == n
    ensures forall i :: 0 <= i < n ==> CaseRows(cs, n)[i].index == i
  {
    hide TrimSpace, TrimNewlines;
    if n > 0 {
      CaseRowsAscend(cs, n - 1);
    }
  }

  /** Loading a problem right after saving it gives back every field of the saved form, up to trimming and blank
      constraints. */
  lemma LoadAfterSave(t: Tables, id: nat, ioMode: string, p: Problem, starters: Starters)
    ensures var t' := Stored(t, id, HeadOf(p, ioMode), p, starters);
            var q := Load(t', id);
            && q == p.(constraints := q.constraints, cases := q.cases)
            && |q.cases| == |p.cases| && (forall i :: 0 <= i < |p.cases| ==> q.cases[i] == TrimmedCase(p.cases[i]))
            && t'.starters[id] == starters && t'.problems[id].xp == XpFor(p.difficulty)
            && exists at :: NonBlank(q.constraints, p.constraints, at)
  {
    hide TrimSpace, TrimNewlines, CaseRows, ConstraintRows, SortBy, Explanations, ExampleRows, Of, Without, Tag;
    var rows, cons := CaseRows(p.cases, |p.cases|), ConstraintRows(p.constraints, |p.constraints|);
    OfReplaced(t.cases, id, rows, id);
    OfReplaced(t.constraints, id, cons, id);
    CaseRowsAscend(p.cases, |p.cases|);
    ConstraintRowsExact(p.constraints, |p.constraints|);
    AscendingStaysPut(CaseIndex, rows);
    AscendingStaysPut(ConstraintIndex, cons);
    forall i | 0 <= i < |p.cases|
      ensures rows[i] == CaseRow(TrimNewlines(p.cases[i].input), TrimSpace(p.cases[i].expected), p.cases[i].hidden, i)
    {
      CaseRowsAt(p.cases, |p.cases|, i);
    }
    TextsAreNonBlank(cons, p.constraints);
  }

  lemma TextsAreNonBlank(rows: seq<ConstraintRow>, cs: seq<string>)
    requires ExactConstraints(rows, cs, |cs|)
    ensures exists at :: NonBlank(TextsOf(rows), cs, at)
  {
    hide TrimSpace;
    var at := seq(|rows|, i requires 0 <= i < |rows| => rows[i].index);
    forall k | 0 <= k < |cs| && TrimSpace(cs[k]) != ""
      ensures k in at
    {
      var i :| 0 <= i < |rows| && rows[i] == ConstraintRow(TrimSpace(cs[k]), k);
      assert at[i] == k;
    }
    assert NonBlank(TextsOf(rows), cs, at);
  }

  // Saving what was loaded.

  lemma TrimmedTwice(c: Case)
    ensures TrimmedCase(TrimmedCase(c)) == TrimmedCase(c)
  {
    TrimNewlinesIdempotent(c.input);
    TrimSpaceIdempotent(c.expected);
    hide TrimNewlines, TrimSpace;
  }

  lemma {:induction false} SameCaseRows(cs: seq<Case>, cs': seq<Case>, n: nat)
    requires n <= |cs| == |cs'| && forall i :: 0 <= i < |cs| ==> cs'[i] == TrimmedCase(cs[i])
    ensures CaseRows(cs', n) == CaseRows(cs, n)
  {
    hide TrimNewlines, TrimSpace;
    if n > 0 {
      SameCaseRows(cs, cs', n - 1);
      TrimmedTwice(cs[n - 1]);
    }
  }

  lemma {:induction false} SameExampleRows(cs: seq<Case>, cs': seq<Case>, first: seq<string>, second: seq<string>,
                                           n: nat)
    requires n <= |cs| == |cs'| && forall i :: 0 <= i < |cs| ==> cs'[i] == TrimmedCase(cs[i])
    requires forall i :: 0 <= i < |ExampleRows(cs, first, n)| ==> At(second, i) == At(first, i)
    ensures ExampleRows(cs', second, n) == ExampleRows(cs, first, n)
  {
    hide TrimNewlines, TrimSpace, At;
    if n > 0 {
      ExampleStep(cs, first, n);
      SameExampleRows(cs, cs', first, second, n - 1);
      ExampleStep(cs', second, n);
      TrimmedTwice(cs[n - 1]);
      hide ExampleRows;
    }
  }

  /** Constraints that are trimmed and not blank are all stored as they are. */
  lemma {:induction false} AllConstraintsKept(cs: seq<string>, n: nat)
    requires n <= |cs| && forall i :: 0 <= i < |cs| ==> TrimSpace(cs[i]) == cs[i] != ""
    ensures |ConstraintRows(cs, n)| == n
    ensures forall i :: 0 <= i < n ==> ConstraintRows(cs, n)[i] == ConstraintRow(cs[i], i)
  {
    hide TrimSpace;
    if n > 0 {
      AllConstraintsKept(cs, n - 1);
    }
  }

  lemma TextsOfKept(cs: seq<string>)
    requires forall i :: 0 <= i < |cs| ==> TrimSpace(cs[i]) == cs[i] != ""
    ensures TextsOf(SortBy(ConstraintIndex, ConstraintRows(cs, |cs|))) == cs
  {
    AllConstraintsKept(cs, |cs|);
    AscendingStaysPut(ConstraintIndex, ConstraintRows(cs, |cs|));
    hide TrimSpace, ConstraintRows, SortBy;
  }

  /** The same rows for one problem, up to the positions of its constraints. */
  ghost predicate SameButPositions(t: Tables, t': Tables, id: nat) {
    && (id in t.problems <==> id in t'.problems) && (id in t.problems ==> t'.problems[id] == t.problems[id])
    && TextsOf(SortBy(ConstraintIndex, Of(t'.constraints, id))) ==
       TextsOf(SortBy(ConstraintIndex, Of(t.constraints, id)))
    && Of(t'.examples, id) == Of(t.examples, id)
    && Of(t'.cases, id) == Of(t.cases, id)
    && (id in t.signatures <==> id in t'.signatures) && (id in t.signatures ==> t'.signatures[id] == t.signatures[id])
    && (id in t.starters <==> id in t'.starters) && (id in t.starters ==> t'.starters[id] == t.starters[id])
  }

  lemma ExamplesOfResave(t: Tables, id: nat, head: Head, p: Problem, starters: Starters, cases: seq<Case>)
    requires |cases| == |p.cases| && forall i :: 0 <= i < |p.cases| ==> cases[i] == TrimmedCase(p.cases[i])
    ensures var t' := Stored(t, id, head, p, starters);
            ExampleRows(cases, Explanations(t', id), |cases|) == Of(t'.examples, id)
  {
    var t' := Stored(t, id, head, p, starters);
    hide CaseRows, TrimSpace, TrimNewlines, ConstraintRows;
    OfReplaced(t.examples, id, ExampleRows(p.cases, Explanations(t, id), |p.cases|), id);
    forall i | 0 <= i < |Of(t'.examples, id)|
      ensures At(Explanations(t', id), i) == At(Explanations(t, id), i)
    {
      ExplanationAfterSave(t, id, head, p, starters, i);
    }
    hide ExampleRows, Of, At, Explanations;
    SameExampleRows(p.cases, cases, Explanations(t, id), Explanations(t', id), |p.cases|);
  }

  /** Saving the loaded form of a saved problem stores every row again. */
  lemma ResaveKeepsRows(t: Tables, id: nat, ioMode: string, p: Problem, starters: Starters)
    ensures var t' := Stored(t, id, HeadOf(p, ioMode), p, starters);
            var q := Load(t', id);
            SameButPositions(t', Stored(t', id, HeadOf(q, ioMode), q, starters), id)
  {
    hide TrimSpace, TrimNewlines, CaseRows, ConstraintRows, ExampleRows, SortBy, Explanations, Of, Without, Tag;
    var t' := Stored(t, id, HeadOf(p, ioMode), p, starters);
    var q := Load(t', id);
    LoadAfterSave(t, id, ioMode, p, starters);
    OfReplaced(t.cases, id, CaseRows(p.cases, |p.cases|), id);
    OfReplaced(t'.cases, id, CaseRows(q.cases, |q.cases|), id);
    SameCaseRows(p.cases, q.cases, |p.cases|);
    OfReplaced(t'.examples, id, ExampleRows(q.cases, Explanations(t', id), |q.cases|), id);
    ExamplesOfResave(t, id, HeadOf(p, ioMode), p, starters, q.cases);
    OfReplaced(t'.constraints, id, ConstraintRows(q.constraints, |q.constraints|), id);
    KeptAreTrimmed(q.constraints, p.constraints);
    TextsOfKept(q.constraints);
  }

  lemma KeptAreTrimmed(kept: seq<string>, cs: seq<string>)
    requires exists at :: NonBlank(kept, cs, at)
    ensures forall i :: 0 <= i < |kept| ==> TrimSpace(kept[i]) == kept[i] != ""
  {
    var at :| NonBlank(kept, cs, at);
    forall i | 0 <= i < |kept|
      ensures TrimSpace(kept[i]) == kept[i] != ""
    {
      TrimSpaceIdempotent(cs[at[i]]);
    }
  }

  /** The loaded form is accepted when the saved one was. */
  lemma LoadedIsAcceptable(valid: string -> bool, p: Problem, q: Problem)
    requires Acceptable(valid, p) && q == p.(constraints := q.constraints, cases := q.cases)
    requires |q.cases| == |p.cases| && forall i :: 0 <= i < |p.cases| ==> q.cases[i] == TrimmedCase(p.cases[i])
    ensures Acceptable(valid, q)
  {
    hide TrimSpace, TrimNewlines, Lines, TYPES;
    forall i | 0 <= i < |q.cases|
      ensures CaseFits(valid, q.cases[i], |q.params|)
    {
      assert CaseFits(valid, p.cases[i], |p.params|);
      TrimmedTwice(p.cases[i]);
    }
    var i :| 0 <= i < |p.cases| && !p.cases[i].hidden;
    assert !q.cases[i].hidden;
  }
}
