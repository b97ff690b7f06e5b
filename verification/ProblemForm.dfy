// The problem an administrator submits, and the validator that trims, defaults and checks it.
module ProblemForm {
  import opened Options
  import opened ProblemText

  datatype Param = Param(name: string, typ: string)

  datatype Case = Case(input: string, expected: string, hidden: bool)

  datatype Problem = Problem(
    title: string, difficulty: string, topic: string, course: string, statement: string,
    constraints: seq<string>, isPrivate: bool,
    entryPoint: string, params: seq<Param>, returnType: string, compare: string,
    cases: seq<Case>)

  const TYPES: set<string> := {
    "int", "long", "double", "bool", "string", "char",
    "int[]", "long[]", "double[]", "bool[]", "string[]",
    "int[][]", "string[][]", "TreeNode", "ListNode"
  }

  /** Which check refused the form; positions count from 0. */
  datatype Defect =
    | BadTitle | BadDifficulty | NoStatement | BadEntryPoint | NoParams
    | BadParamName(at: nat) | RepeatedParamName(at: nat) | BadParamType(at: nat)
    | BadReturnType | BadCompare | NoCases
    | WrongLineCount(at: nat) | BadInputLine(at: nat, line: nat) | BadExpected(at: nat)
    | NoVisibleCase

  predicate ScalarType(t: string) {
    t in {"int", "long", "double", "bool", "string", "char"}
  }

  /** Scalars, arrays of all of them but char, arrays of arrays of int and string, and the two node types. */
  predicate Supported(t: string) {
    || ScalarType(t) || t == "TreeNode" || t == "ListNode"
    || (|t| > 2 && t[|t| - 2..] == "[]" &&
        var b := t[..|t| - 2];
        (ScalarType(b) && b != "char") || b == "int[]" || b == "string[]")
  }

  predicate ArrayType(t: string) {
    || t == "int[]" || t == "long[]" || t == "double[]" || t == "bool[]" || t == "string[]"
    || t == "int[][]" || t == "string[][]"
  }

  lemma ArrayOf(b: string, c: string)
    ensures b + "[]" == c + "[]" <==> b == c
  {
    assert (b + "[]")[..|b|] == b && (c + "[]")[..|c|] == c;
  }

  lemma ArrayTypesAre(b: string)
    ensures ArrayType(b + "[]") <==> (ScalarType(b) && b != "char") || b == "int[]" || b == "string[]"
  {
    ArrayOf(b, "int");
    ArrayOf(b, "long");
    ArrayOf(b, "double");
    ArrayOf(b, "bool");
    ArrayOf(b, "string");
    ArrayOf(b, "int[]");
    ArrayOf(b, "string[]");
  }

  lemma ArraysEndInBrackets(t: string)
    requires ArrayType(t)
    ensures |t| > 2 && t[|t| - 2..] == "[]"
  {
  }

  lemma TypesAre(t: string)
    ensures t in TYPES <==> Supported(t)
  {
    assert t in TYPES <==> ScalarType(t) || t == "TreeNode" || t == "ListNode" || ArrayType(t);
    hide TYPES, ScalarType, ArrayType;
    if ArrayType(t) {
      ArraysEndInBrackets(t);
    }
    if |t| > 2 && t[|t| - 2..] == "[]" {
      assert t == t[..|t| - 2] + "[]";
      ArrayTypesAre(t[..|t| - 2]);
    }
  }

  // What an acceptable form is.

  function TrimmedParam(p: Param): Param { p.(name := TrimSpace(p.name)) }

  function TrimmedParams(ps: seq<Param>): seq<Param> {
    seq(|ps|, i requires 0 <= i < |ps| => TrimmedParam(ps[i]))
  }

  function OrDefault(s: string, default: string): string { if s == "" then default else s }

  /** The form after trimming and defaulting. */
  function Normalised(p: Problem): Problem {
    p.(title := TrimSpace(p.title),
       topic := OrDefault(TrimSpace(p.topic), "General"),
       statement := TrimSpace(p.statement),
       entryPoint := TrimSpace(p.entryPoint),
       params := TrimmedParams(p.params),
       compare := OrDefault(p.compare, "exact"))
  }

  lemma TrimmedParamsTwice(ps: seq<Param>)
    ensures TrimmedParams(TrimmedParams(ps)) == TrimmedParams(ps)
  {
    forall i | 0 <= i < |ps|
      ensures TrimmedParam(TrimmedParam(ps[i])) == TrimmedParam(ps[i])
    {
      TrimSpaceIdempotent(ps[i].name);
    }
    hide TrimSpace, TrimmedParam;
  }

  lemma OrDefaultTwice(s: string, default: string)
    requires TrimSpace(default) == default
    ensures OrDefault(TrimSpace(OrDefault(TrimSpace(s), default)), default) == OrDefault(TrimSpace(s), default)
  {
    TrimSpaceIdempotent(s);
    hide TrimSpace;
  }

  /** Trimming and defaulting a form twice is doing it once. */
  lemma NormalisedTwice(p: Problem)
    ensures Normalised(Normalised(p)) == Normalised(p)
  {
    TrimSpaceIdempotent(p.title);
    TrimSpaceIdempotent(p.statement);
    TrimSpaceIdempotent(p.entryPoint);
    OrDefaultTwice(p.topic, "General");
    TrimmedParamsTwice(p.params);
    hide TrimSpace, TrimmedParams;
  }

  predicate HeaderFits(p: Problem) {
    && p.title != "" && ByteLength(p.title) <= 200
    && p.difficulty in {"Easy", "Medium", "Hard"}
    && p.statement != ""
    && IsIdentifier(p.entryPoint)
  }

  ghost predicate DistinctNames(ps: seq<Param>) {
    forall i, j :: 0 <= i < j < |ps| ==> ps[i].name != ps[j].name
  }

  ghost predicate ParamsFit(ps: seq<Param>) {
    && ps != [] && DistinctNames(ps)
    && forall i :: 0 <= i < |ps| ==> IsIdentifier(ps[i].name) && ps[i].typ in TYPES
  }

  predicate CompareFits(p: Problem) {
    p.returnType in TYPES && p.compare in {"exact", "unordered", "set", "float"}
  }

  /** One valid JSON line per parameter, and a valid JSON expectation. */
  ghost predicate CaseFits(valid: string -> bool, c: Case, n: nat) {
    var lines := Lines(TrimNewlines(c.input));
    && |lines| == n
    && (forall j :: 0 <= j < |lines| ==> valid(lines[j]))
    && valid(TrimSpace(c.expected))
  }

  ghost predicate CasesFit(valid: string -> bool, cs: seq<Case>, n: nat) {
    && (forall i :: 0 <= i < |cs| ==> CaseFits(valid, cs[i], n))
    && exists i :: 0 <= i < |cs| && !cs[i].hidden
  }

  ghost predicate Acceptable(valid: string -> bool, p: Problem) {
    HeaderFits(p) && ParamsFit(p.params) && CompareFits(p) && CasesFit(valid, p.cases, |p.params|)
  }

  /** What is accepted, told of the form as it was submitted. */
  ghost predicate AcceptableAsSubmitted(valid: string -> bool, p: Problem) {
    && TrimSpace(p.title) != "" && ByteLength(TrimSpace(p.title)) <= 200
    && (p.difficulty == "Easy" || p.difficulty == "Medium" || p.difficulty == "Hard")
    && TrimSpace(p.statement) != ""
    && IsIdentifier(TrimSpace(p.entryPoint))
    && |p.params| > 0
    && (forall i :: 0 <= i < |p.params| ==> IsIdentifier(TrimSpace(p.params[i].name)) && Supported(p.params[i].typ))
    && (forall i, j :: 0 <= i < j < |p.params| ==> TrimSpace(p.params[i].name) != TrimSpace(p.params[j].name))
    && Supported(p.returnType)
    && (p.compare == "" || p.compare == "exact" || p.compare == "unordered" || p.compare == "set"
        || p.compare == "float")
    && CasesFit(valid, p.cases, |p.params|)
  }

  /** `q` is `p` trimmed and defaulted; all other fields are as they were. */
  ghost predicate Tidied(p: Problem, q: Problem) {
    && q.title == TrimSpace(p.title) && q.statement == TrimSpace(p.statement)
    && q.entryPoint == TrimSpace(p.entryPoint)
    && (if TrimSpace(p.topic) == "" then q.topic == "General" else q.topic == TrimSpace(p.topic))
    && (if p.compare == "" then q.compare == "exact" else q.compare == p.compare)
    && |q.params| == |p.params|
    && (forall i :: 0 <= i < |p.params| ==>
          q.params[i].name == TrimSpace(p.params[i].name) && q.params[i].typ == p.params[i].typ)
    && q.difficulty == p.difficulty && q.course == p.course && q.constraints == p.constraints
    && q.isPrivate == p.isPrivate && q.returnType == p.returnType && q.cases == p.cases
  }

  lemma NormalisedIsTidied(p: Problem)
    ensures Tidied(p, Normalised(p))
  {
    hide TrimSpace;
  }

  /** Tidying has no part in constraints and cases. */
  lemma TidiedWith(p: Problem, q: Problem, r: Problem)
    requires Tidied(p, q) && r == q.(constraints := r.constraints, cases := r.cases)
    ensures Tidied(p.(constraints := r.constraints, cases := r.cases), r)
    ensures q.constraints == p.constraints && q.cases == p.cases
  {
    hide TrimSpace;
  }

  lemma AcceptableIff(valid: string -> bool, p: Problem)
    ensures Acceptable(valid, Normalised(p)) <==> AcceptableAsSubmitted(valid, p)
  {
    NormalisedIsTidied(p);
    hide TrimSpace, ByteLength, IsIdentifier, CasesFit, TYPES, Supported;
    forall t
      ensures t in TYPES <==> Supported(t)
    {
      TypesAre(t);
    }
    var q := Normalised(p);
    assert ParamsFit(q.params) <==>
           && |p.params| > 0
           && (forall i :: 0 <= i < |p.params| ==>
                 IsIdentifier(TrimSpace(p.params[i].name)) && Supported(p.params[i].typ))
           && (forall i, j :: 0 <= i < j < |p.params| ==> TrimSpace(p.params[i].name) != TrimSpace(p.params[j].name));
  }

  /** The reported defect is one the form has. */
  ghost predicate HasDefect(valid: string -> bool, p: Problem, d: Defect) {
    match d
    case BadTitle => p.title == "" || ByteLength(p.title) > 200
    case BadDifficulty => p.difficulty !in {"Easy", "Medium", "Hard"}
    case NoStatement => p.statement == ""
    case BadEntryPoint => !IsIdentifier(p.entryPoint)
    case NoParams => p.params == []
    case BadParamName(i) => i < |p.params| && !IsIdentifier(p.params[i].name)
    case RepeatedParamName(i) => i < |p.params| && exists j :: 0 <= j < i && p.params[j].name == p.params[i].name
    case BadParamType(i) => i < |p.params| && p.params[i].typ !in TYPES
    case BadReturnType => p.returnType !in TYPES
    case BadCompare => p.compare !in {"exact", "unordered", "set", "float"}
    case NoCases => p.cases == []
    case WrongLineCount(i) => i < |p.cases| && |Lines(TrimNewlines(p.cases[i].input))| != |p.params|
    case BadInputLine(i, j) =>
      i < |p.cases| && j < |Lines(TrimNewlines(p.cases[i].input))| && !valid(Lines(TrimNewlines(p.cases[i].input))[j])
    case BadExpected(i) => i < |p.cases| && !valid(TrimSpace(p.cases[i].expected))
    case NoVisibleCase => forall i :: 0 <= i < |p.cases| ==> p.cases[i].hidden
  }

  /** The order in which the checks run. */
  function Stage(d: Defect): nat {
    match d
    case BadTitle => 0
    case BadDifficulty => 1
    case NoStatement => 2
    case BadEntryPoint => 3
    case NoParams | BadParamName(_) | RepeatedParamName(_) | BadParamType(_) => 4
    case BadReturnType => 5
    case BadCompare => 6
    case NoCases | WrongLineCount(_) | BadInputLine(_, _) | BadExpected(_) | NoVisibleCase => 7
  }

  /** The stages before `k` found nothing. */
  ghost predicate PassedStages(p: Problem, k: nat) {
    && (k > 0 ==> p.title != "" && ByteLength(p.title) <= 200)
    && (k > 1 ==> p.difficulty in {"Easy", "Medium", "Hard"})
    && (k > 2 ==> p.statement != "")
    && (k > 3 ==> IsIdentifier(p.entryPoint))
    && (k > 4 ==> ParamsFit(p.params))
    && (k > 5 ==> p.returnType in TYPES)
    && (k > 6 ==> CompareFits(p))
  }

  /** Within a stage, everything looked at before the defect was fine. */
  ghost predicate FirstInStage(valid: string -> bool, p: Problem, d: Defect) {
    match d
    case BadParamName(i) => i < |p.params| && ParamsFineBelow(p.params, i)
    case RepeatedParamName(i) => i < |p.params| && ParamsFineBelow(p.params, i) && IsIdentifier(p.params[i].name)
    case BadParamType(i) =>
      && i < |p.params| && ParamsFineBelow(p.params, i) && IsIdentifier(p.params[i].name)
      && forall j :: 0 <= j < i ==> p.params[j].name != p.params[i].name
    case WrongLineCount(i) => CasesFineBelow(valid, p, i)
    case BadInputLine(i, j) =>
      && CasesFineBelow(valid, p, i) && i < |p.cases|
      && (var lines := Lines(TrimNewlines(p.cases[i].input));
          |lines| == |p.params| && forall x :: 0 <= x < j && x < |lines| ==> valid(lines[x]))
    case BadExpected(i) =>
      && CasesFineBelow(valid, p, i) && i < |p.cases|
      && (var lines := Lines(TrimNewlines(p.cases[i].input));
          |lines| == |p.params| && forall x :: 0 <= x < |lines| ==> valid(lines[x]))
    case NoVisibleCase => p.cases != [] && CasesFineBelow(valid, p, |p.cases|)
    case _ => true
  }

  ghost predicate ParamsFineBelow(ps: seq<Param>, n: nat) {
    && (forall x :: 0 <= x < n && x < |ps| ==> IsIdentifier(ps[x].name) && ps[x].typ in TYPES)
    && forall x, y :: 0 <= x < y < n && y < |ps| ==> ps[x].name != ps[y].name
  }

  ghost predicate CasesFineBelow(valid: string -> bool, p: Problem, n: nat) {
    forall x :: 0 <= x < n && x < |p.cases| ==> CaseFits(valid, p.cases[x], |p.params|)
  }

  /** `d` is the defect the checks, run in their order, meet first. */
  ghost predicate IsFirstDefect(valid: string -> bool, p: Problem, d: Defect) {
    HasDefect(valid, p, d) && PassedStages(p, Stage(d)) && FirstInStage(valid, p, d)
  }

  /** A form with a defect is not acceptable. */
  lemma DefectsMatter(valid: string -> bool, p: Problem, d: Defect)
    requires IsFirstDefect(valid, p, d)
    ensures !Acceptable(valid, p)
  {
  }

  // The validator.

  class Form {
    const valid: string -> bool
    const difficulty: string
    const course: string
    const constraints: seq<string>
    const isPrivate: bool
    const returnType: string
    const cases: seq<Case>
    var title: string
    var topic: string
    var statement: string
    var entryPoint: string
    var params: seq<Param>
    var compare: string

    function Value(): Problem
      reads this
    {
      Problem(title, difficulty, topic, course, statement, constraints, isPrivate,
              entryPoint, params, returnType, compare, cases)
    }

    constructor (valid: string -> bool, p: Problem)
      ensures this.valid == valid && Value() == p
    {
      this.valid := valid;
      difficulty, course, constraints, isPrivate := p.difficulty, p.course, p.constraints, p.isPrivate;
      returnType, cases := p.returnType, p.cases;
      title, topic, statement, entryPoint := p.title, p.topic, p.statement, p.entryPoint;
      params, compare := p.params, p.compare;
    }

    method CheckHeader() returns (r: Option<Defect>)
      modifies this`title, this`topic, this`statement
      ensures title == TrimSpace(old(title)) && statement == TrimSpace(old(statement))
      ensures topic == if r == None then OrDefault(TrimSpace(old(topic)), "General") else TrimSpace(old(topic))
      ensures r == None ==>
                title != "" && ByteLength(title) <= 200 && difficulty in {"Easy", "Medium", "Hard"} && statement != ""
      ensures r != None ==> IsFirstDefect(valid, Normalised(old(Value())), r.value)
    {
      hide TrimSpace, ByteLength, TrimmedParams;
      title := TrimSpace(title);
      topic := TrimSpace(topic);
      statement := TrimSpace(statement);
      if title == "" || ByteLength(title) > 200 { return Some(BadTitle); }
      if difficulty != "Easy" && difficulty != "Medium" && difficulty != "Hard" { return Some(BadDifficulty); }
      if statement == "" { return Some(NoStatement); }
      if topic == "" { topic := "General"; }
      return None;
    }

    method CheckParams() returns (r: Option<Defect>)
      modifies this`params
      ensures TrimmedParams(params) == TrimmedParams(old(params))
      ensures r == None ==> params == TrimmedParams(old(params)) && ParamsFit(params)
      ensures r != None ==> Stage(r.value) == 4 && HasDefect(valid, Normalised(old(Value())), r.value)
      ensures r != None ==> FirstInStage(valid, Normalised(old(Value())), r.value)
    {
      hide TrimSpace, IsIdentifier;
      ghost var p0 := params;
      ghost var all := TrimmedParams(params);
      if |params| == 0 { return Some(NoParams); }
      var seen: set<string> := {};
      for i := 0 to |params|
        invariant |params| == |p0|
        invariant forall x :: 0 <= x < |p0| ==> params[x] == if x < i then all[x] else p0[x]
        invariant forall s :: s in seen <==> exists x :: 0 <= x < i && all[x].name == s
        invariant forall x :: 0 <= x < i ==> IsIdentifier(all[x].name) && all[x].typ in TYPES
        invariant forall x, y :: 0 <= x < y < i ==> all[x].name != all[y].name
      {
        params := params[i := params[i].(name := TrimSpace(params[i].name))];
        var prm := params[i];
        TrimAgain(p0, params, i + 1);
        if !IsIdentifier(prm.name) { return Some(BadParamName(i)); }
        if prm.name in seen { return Some(RepeatedParamName(i)); }
        seen := seen + {prm.name};
        if prm.typ !in TYPES { return Some(BadParamType(i)); }
      }
      TrimAgain(p0, params, |params|);
      assert params == all;
      return None;
    }

    method CheckCases() returns (r: Option<Defect>)
      ensures r == None ==> CasesFit(valid, cases, |params|)
      ensures r != None ==>
                Stage(r.value) == 7 && HasDefect(valid, Value(), r.value) && FirstInStage(valid, Value(), r.value)
    {
      hide TrimSpace, TrimNewlines, Lines;
      if |cases| == 0 { return Some(NoCases); }
      var visible := 0;
      for i := 0 to |cases|
        invariant forall x :: 0 <= x < i ==> CaseFits(valid, cases[x], |params|)
        invariant visible >= 0 && (visible > 0 <==> exists x :: 0 <= x < i && !cases[x].hidden)
      {
        var tc := cases[i];
        var lines := Lines(TrimNewlines(tc.input));
        if |lines| != |params| { return Some(WrongLineCount(i)); }
        for j := 0 to |lines|
          invariant forall x :: 0 <= x < j ==> valid(lines[x])
        {
          if !valid(lines[j]) { return Some(BadInputLine(i, j)); }
        }
        if !valid(TrimSpace(tc.expected)) { return Some(BadExpected(i)); }
        if !tc.hidden { visible := visible + 1; }
      }
      if visible == 0 { return Some(NoVisibleCase); }
      return None;
    }

    method CheckSignature() returns (r: Option<Defect>)
      modifies this`entryPoint, this`params, this`compare
      ensures entryPoint == TrimSpace(old(entryPoint)) && TrimmedParams(params) == TrimmedParams(old(params))
      ensures OrDefault(compare, "exact") == OrDefault(old(compare), "exact")
      ensures r == None ==> params == TrimmedParams(old(params)) && compare == OrDefault(old(compare), "exact")
      ensures r == None ==> IsIdentifier(entryPoint) && ParamsFit(params) && CompareFits(Value())
      ensures r != None && PassedStages(Normalised(old(Value())), 3) ==>
                IsFirstDefect(valid, Normalised(old(Value())), r.value)
    {
      hide TrimSpace, TrimmedParams, ParamsFit, IsIdentifier;
      entryPoint := TrimSpace(entryPoint);
      if !IsIdentifier(entryPoint) { return Some(BadEntryPoint); }
      r := CheckParams();
      if r != None {
        return;
      }
      if returnType !in TYPES { return Some(BadReturnType); }
      if compare == "" { compare := "exact"; }
      if compare != "exact" && compare != "unordered" && compare != "set" && compare != "float" {
        return Some(BadCompare);
      }
    }

    method RunChecks() returns (r: Option<Defect>)
      modifies this
      ensures r == None ==> Acceptable(valid, Normalised(old(Value()))) && Value() == Normalised(old(Value()))
      ensures r != None ==> IsFirstDefect(valid, Normalised(old(Value())), r.value)
      ensures Normalised(Value()) == Normalised(old(Value()))
    {
      hide TrimSpace, TrimmedParams, ParamsFit, CasesFit, IsIdentifier, ByteLength, HasDefect, FirstInStage;
      Retrimmed(Value());
      ghost var p := Value();
      r := CheckHeader();
      if r != None { return; }
      ghost var p1 := Value();
      assert Normalised(p1) == Normalised(p);
      r := CheckSignature();
      if r != None { return; }
      assert Value() == Normalised(p);
      r := CheckCases();
    }

    /** Accepts exactly the forms that are acceptable once trimmed and defaulted, and leaves them so. */
    method Validate() returns (r: Option<Defect>)
      modifies this
      ensures r == None <==> AcceptableAsSubmitted(valid, old(Value()))
      ensures r == None ==> Tidied(old(Value()), Value())
      ensures r == None <==> Acceptable(valid, Normalised(old(Value())))
      ensures r == None ==> Value() == Normalised(old(Value()))
      ensures r != None ==> IsFirstDefect(valid, Normalised(old(Value())), r.value)
      ensures Normalised(Value()) == Normalised(old(Value()))
    {
      hide *;
      ghost var p := Value();
      r := RunChecks();
      AcceptableIff(valid, p);
      NormalisedIsTidied(p);
      if r != None {
        DefectsMatter(valid, Normalised(p), r.value);
      }
    }
  }

  lemma TrimAgain(p0: seq<Param>, ps: seq<Param>, n: nat)
    requires |ps| == |p0| && n <= |ps|
    requires forall x :: 0 <= x < |ps| ==> ps[x] == if x < n then TrimmedParam(p0[x]) else p0[x]
    ensures TrimmedParams(ps) == TrimmedParams(p0)
  {
    hide TrimSpace;
    forall x | 0 <= x < |ps|
      ensures TrimmedParam(ps[x]) == TrimmedParam(p0[x])
    {
      TrimSpaceIdempotent(p0[x].name);
    }
  }

  /** Trimming again changes nothing. */
  lemma Retrimmed(p: Problem)
    ensures TrimSpace(TrimSpace(p.title)) == TrimSpace(p.title)
    ensures TrimSpace(TrimSpace(p.topic)) == TrimSpace(p.topic)
    ensures TrimSpace("General") == "General"
    ensures TrimSpace(TrimSpace(p.statement)) == TrimSpace(p.statement)
    ensures TrimSpace(TrimSpace(p.entryPoint)) == TrimSpace(p.entryPoint)
  {
    TrimSpaceIdempotent(p.title);
    TrimSpaceIdempotent(p.topic);
    TrimSpaceIdempotent(p.statement);
    TrimSpaceIdempotent(p.entryPoint);
  }
}
