// The save and delete handlers over the problem tables, and every run of them.
module ProblemStore {
  import opened Options
  import opened ProblemText
  import opened ProblemForm
  import opened ProblemTables

  /** What the starter generator answers: it cannot be reached, refuses the signature, or gives starters. */
  datatype Generated = Unreachable | Rejected | Given(starters: Starters)

  datatype Response =
    | BadBody | Invalid(defect: Defect) | GeneratorDown | BadSignature
    | NotFound | NotEditable | InUse | Failed
    | Saved(id: nat) | Removed(id: nat)

  /** None of the first `n` statements fails. */
  ghost predicate NoFault(faults: seq<bool>, n: nat) {
    forall k :: 0 <= k < n && k < |faults| ==> !faults[k]
  }

  /** How many statements rewrite the tables that hang off a problem. */
  function StatementsOfParts(p: Problem): nat {
    6 + |ConstraintRows(p.constraints, |p.constraints|)| + |p.cases| + VisibleCount(p.cases, |p.cases|)
  }

  /** A database transaction. Statement number `k` fails if faults[k] is set; after a failure every statement fails. */
  class Tx {
    var t: Tables
    const faults: seq<bool>
    var at: nat
    var aborted: bool

    /** The transaction goes on exactly as long as no statement failed. */
    ghost predicate Valid()
      reads this
    {
      aborted <==> !NoFault(faults, at)
    }

    constructor (t: Tables, faults: seq<bool>)
      ensures Valid() && this.t == t && this.faults == faults && at == 0 && !aborted
    {
      this.t, this.faults, at, aborted := t, faults, 0, false;
    }

    method Statement() returns (ok: bool)
      requires Valid()
      modifies this`at, this`aborted
      ensures Valid() && ok == !aborted && at == old(at) + 1
    {
      if at < |faults| && faults[at] { aborted := true; }
      at := at + 1;
      ok := !aborted;
    }

    /** Clears and refills the tables that hang off problem `id`. */
    method WriteParts(id: nat, p: Problem, starters: Starters) returns (ok: bool)
      requires Valid() && id in t.problems
      modifies this
      ensures Valid() && ok == !aborted && at <= old(at) + StatementsOfParts(p)
      ensures ok ==> at == old(at) + StatementsOfParts(p)
      ensures ok ==> t == Stored(old(t), id, old(t).problems[id], p, starters)
    {
      ghost var t0, count := t, StatementsOfParts(p);
      assert count == 6 + |ConstraintRows(p.constraints, |p.constraints|)|
                      + |p.cases| + VisibleCount(p.cases, |p.cases|);
      hide *;
      var explanations: seq<string> := [];
      ok := Statement();
      if ok { explanations := Explanations(t, id); }
      ok := Statement();
      if !ok { return; }
      t := t.(constraints := Without(t.constraints, id));
      ok := Statement();
      if !ok { return; }
      t := t.(examples := Without(t.examples, id));
      ok := Statement();
      if !ok { return; }
      t := t.(cases := Without(t.cases, id));
      ok := WriteConstraints(id, p);
      if !ok { return; }
      ok := WriteCases(id, p, explanations);
      if !ok { return; }
      ok := Statement();
      if !ok { return; }
      SignatureKept(t0, t, id, p);
      t := t.(signatures := t.signatures[id := SignatureOf(t, id, p)]);
      ok := Statement();
      if !ok { return; }
      t := t.(starters := t.starters[id := starters]);
      StoredIs(t0, id, p, starters);
    }

    method WriteConstraints(id: nat, p: Problem) returns (ok: bool)
      requires Valid()
      modifies this
      ensures Valid() && ok == !aborted && at <= old(at) + |ConstraintRows(p.constraints, |p.constraints|)|
      ensures ok ==> at == old(at) + |ConstraintRows(p.constraints, |p.constraints|)|
      ensures ok ==>
              t == old(t).(constraints := old(t).constraints + Tag(id, ConstraintRows(p.constraints, |p.constraints|)))
    {
      ok := !aborted;
      if !ok { return; }
      ghost var t0 := t;
      NothingWritten(t, id, p);
      hide *;
      for i := 0 to |p.constraints|
        invariant Valid() && !aborted && at == old(at) + |ConstraintRows(p.constraints, i)|
        invariant ConstraintsWritten(t0, t, id, p.constraints, i)
      {
        ConstraintWritten(t0, t, id, p.constraints, i);
        CountsGrow(p, i + 1, |p.constraints|);
        var c := TrimSpace(p.constraints[i]);
        if c == "" { continue; }
        ok := Statement();
        if !ok { return; }
        t := t.(constraints := t.constraints + [Owned(id, ConstraintRow(c, i))]);
      }
      ok := true;
      AllWritten(t0, t, id, p, []);
    }

    method WriteCases(id: nat, p: Problem, explanations: seq<string>) returns (ok: bool)
      requires Valid()
      modifies this
      ensures Valid() && ok == !aborted && at <= old(at) + |p.cases| + VisibleCount(p.cases, |p.cases|)
      ensures ok ==> at == old(at) + |p.cases| + VisibleCount(p.cases, |p.cases|)
      ensures ok ==> t == old(t).(cases := old(t).cases + Tag(id, CaseRows(p.cases, |p.cases|)),
                                  examples := old(t).examples + Tag(id, ExampleRows(p.cases, explanations, |p.cases|)))
    {
      ok := !aborted;
      if !ok { return; }
      ghost var t0 := t;
      NoCaseWritten(t, id, p, explanations);
      hide *;
      var ex := 0;
      for i := 0 to |p.cases|
        invariant Valid() && !aborted && at == old(at) + i + ex && ex == VisibleCount(p.cases, i)
        invariant CasesWritten(t0, t, id, p.cases, explanations, i)
      {
        CaseWritten(t0, t, id, p.cases, explanations, i);
        CountsGrow(p, i + 1, |p.cases|);
        var tc := p.cases[i];
        var input := TrimNewlines(tc.input);
        var expected := TrimSpace(tc.expected);
        ok := Statement();
        if !ok { return; }
        t := t.(cases := t.cases + [Owned(id, CaseRow(input, expected, tc.hidden, i))]);
        if !tc.hidden {
          var explanation := "";
          if ex < |explanations| { explanation := explanations[ex]; }
          ok := Statement();
          if !ok { return; }
          t := t.(examples := t.examples + [Owned(id, ExampleRow(input, expected, explanation, ex))]);
          ex := ex + 1;
        }
      }
      ok := true;
      AllWritten(t0, t, id, p, explanations);
    }
  }

  // What the loops have written after `i` rounds.

  ghost predicate ConstraintsWritten(t0: Tables, t: Tables, id: nat, cs: seq<string>, i: nat) {
    i <= |cs| && t == t0.(constraints := t0.constraints + Tag(id, ConstraintRows(cs, i)))
  }

  ghost predicate CasesWritten(t0: Tables, t: Tables, id: nat, cs: seq<Case>, explanations: seq<string>, i: nat) {
    && i <= |cs|
    && t == t0.(cases := t0.cases + Tag(id, CaseRows(cs, i)),
                examples := t0.examples + Tag(id, ExampleRows(cs, explanations, i)))
  }

  lemma NothingWritten(t: Tables, id: nat, p: Problem)
    ensures ConstraintsWritten(t, t, id, p.constraints, 0) && |ConstraintRows(p.constraints, 0)| == 0
  {
    assert t.constraints + Tag(id, []) == t.constraints;
  }

  lemma NoCaseWritten(t: Tables, id: nat, p: Problem, explanations: seq<string>)
    ensures CasesWritten(t, t, id, p.cases, explanations, 0) && VisibleCount(p.cases, 0) == 0
  {
    assert t.cases + Tag(id, []) == t.cases && t.examples + Tag(id, []) == t.examples;
  }

  lemma AllWritten(t0: Tables, t: Tables, id: nat, p: Problem, explanations: seq<string>)
    ensures ConstraintsWritten(t0, t, id, p.constraints, |p.constraints|) ==>
              t == t0.(constraints := t0.constraints + Tag(id, ConstraintRows(p.constraints, |p.constraints|)))
    ensures CasesWritten(t0, t, id, p.cases, explanations, |p.cases|) ==>
              t == t0.(cases := t0.cases + Tag(id, CaseRows(p.cases, |p.cases|)),
                       examples := t0.examples + Tag(id, ExampleRows(p.cases, explanations, |p.cases|)))
  {
  }

  lemma ConstraintWritten(t0: Tables, t: Tables, id: nat, cs: seq<string>, i: nat)
    requires ConstraintsWritten(t0, t, id, cs, i) && i < |cs|
    ensures var c, n := TrimSpace(cs[i]), |ConstraintRows(cs, i)|;
            && (c == "" ==> ConstraintsWritten(t0, t, id, cs, i + 1) && |ConstraintRows(cs, i + 1)| == n)
            && (c != "" ==>
                  && (var t1 := t.(constraints := t.constraints + [Owned(id, ConstraintRow(c, i))]);
                      ConstraintsWritten(t0, t1, id, cs, i + 1))
                  && |ConstraintRows(cs, i + 1)| == n + 1)
  {
    ConstraintStep(cs, i);
    TagAppend(t0.constraints, id, ConstraintRows(cs, i), ConstraintRow(TrimSpace(cs[i]), i));
    hide TrimSpace, Tag, ConstraintRows;
  }

  lemma CaseWritten(t0: Tables, t: Tables, id: nat, cs: seq<Case>, explanations: seq<string>, i: nat)
    requires CasesWritten(t0, t, id, cs, explanations, i) && i < |cs|
    ensures var c, n := cs[i], VisibleCount(cs, i);
            var input, expected := TrimNewlines(c.input), TrimSpace(c.expected);
            var explanation := if n < |explanations| then explanations[n] else "";
            var t1 := t.(cases := t.cases + [Owned(id, CaseRow(input, expected, c.hidden, i))]);
            var t2 := t1.(examples := t1.examples + [Owned(id, ExampleRow(input, expected, explanation, n))]);
            && VisibleCount(cs, i + 1) == (if c.hidden then n else n + 1)
            && CasesWritten(t0, if c.hidden then t1 else t2, id, cs, explanations, i + 1)
  {
    var c, rows, examples := cs[i], CaseRows(cs, i), ExampleRows(cs, explanations, i);
    var input, expected := TrimNewlines(c.input), TrimSpace(c.expected);
    ExampleCount(cs, explanations, i);
    ExampleStep(cs, explanations, i + 1);
    TagAppend(t0.cases, id, rows, CaseRow(input, expected, c.hidden, i));
    TagAppend(t0.examples, id, examples, ExampleRow(input, expected, At(explanations, |examples|), |examples|));
    hide TrimSpace, TrimNewlines, Tag, ExampleRows;
  }

  lemma TagAppend<T>(base: seq<Owned<T>>, id: nat, rows: seq<T>, row: T)
    ensures base + Tag(id, rows) + [Owned(id, row)] == base + Tag(id, rows + [row])
  {
    assert Tag(id, rows + [row]) == Tag(id, rows) + [Owned(id, row)];
  }

  lemma SignatureKept(t0: Tables, t: Tables, id: nat, p: Problem)
    requires t.signatures == t0.signatures
    ensures SignatureOf(t, id, p) == SignatureOf(t0, id, p)
  {
  }

  lemma StoredIs(t0: Tables, id: nat, p: Problem, starters: Starters)
    requires id in t0.problems
    ensures Stored(t0, id, t0.problems[id], p, starters) ==
            t0.(constraints := Without(t0.constraints, id) + Tag(id, ConstraintRows(p.constraints, |p.constraints|)),
                examples := Without(t0.examples, id) + Tag(id, ExampleRows(p.cases, Explanations(t0, id), |p.cases|)),
                cases := Without(t0.cases, id) + Tag(id, CaseRows(p.cases, |p.cases|)),
                signatures := t0.signatures[id := SignatureOf(t0, id, p)],
                starters := t0.starters[id := starters])
  {
    assert t0.problems[id := t0.problems[id]] == t0.problems;
  }

  // The handlers.

  datatype SaveRequest = SaveRequest(
    body: Option<Problem>,      // None: the request body cannot be decoded
    target: Option<nat>,        // the problem to rewrite; None: create one
    newId: nat,                 // the identifier the database would generate
    generated: Generated,
    begins: bool,               // whether a transaction can be opened
    faults: seq<bool>)

  /** A problem the handlers may rewrite: function mode, and its signature, if any, of kind function. */
  predicate Editable(t: Tables, id: nat)
    requires id in t.problems
  {
    && t.problems[id].ioMode == "function"
    && (id in t.signatures ==> t.signatures[id].kind == "function")
  }

  /** The problem's main row after a save: a created problem is in function mode, a rewritten one keeps its mode. */
  function HeadFor(t: Tables, id: nat, p: Problem): Head {
    HeadOf(p, if id in t.problems then t.problems[id].ioMode else "function")
  }

  /** The identifier a save works on. */
  function SavedId(req: SaveRequest): nat {
    if req.target.Some? then req.target.value else req.newId
  }

  /** The form can be decoded and passes the validator. */
  ghost predicate FormFits(valid: string -> bool, req: SaveRequest) {
    req.body.Some? && Acceptable(valid, Normalised(req.body.value))
  }

  /** The request asks for something that can be stored. */
  ghost predicate Storable(valid: string -> bool, t: Tables, req: SaveRequest) {
    && FormFits(valid, req) && req.generated.Given?
    && (req.target.Some? ==> req.target.value in t.problems && Editable(t, req.target.value))
  }

  /** The tables after a successful save. */
  function AfterSave(t: Tables, req: SaveRequest): Tables
    requires req.body.Some? && req.generated.Given?
  {
    var p, id := Normalised(req.body.value), SavedId(req);
    Stored(t, id, HeadFor(t, id, p), p, req.generated.starters)
  }

  /** How many statements a save of form `p` takes, up to and including the commit. */
  function StatementsOfSave(req: SaveRequest, p: Problem): nat {
    (if req.target.Some? then 3 else 2) + StatementsOfParts(p)
  }

  ghost predicate SaveRuns(req: SaveRequest)
    requires req.body.Some?
  {
    req.begins && NoFault(req.faults, StatementsOfSave(req, Normalised(req.body.value)))
  }

  /** The cause of each answer to a save. */
  ghost predicate SaveAnswer(valid: string -> bool, t: Tables, req: SaveRequest, r: Response) {
    match r
    case BadBody => req.body.None?
    case Invalid(d) => req.body.Some? && IsFirstDefect(valid, Normalised(req.body.value), d)
    case GeneratorDown => FormFits(valid, req) && req.generated.Unreachable?
    case BadSignature => FormFits(valid, req) && req.generated.Rejected?
    case NotFound => FormFits(valid, req) && req.generated.Given? && req.target.Some? && req.target.value !in t.problems
    case NotEditable =>
      && FormFits(valid, req) && req.generated.Given?
      && req.target.Some? && req.target.value in t.problems && !Editable(t, req.target.value)
    case Failed => FormFits(valid, req) && req.generated.Given? && !SaveRuns(req)
    case Saved(id) =>
      && Storable(valid, t, req) && SaveRuns(req) && id == SavedId(req)
      && (req.target.None? ==> req.newId !in t.problems)
    case InUse | Removed(_) => false
  }

  /** All a save may do: store the whole problem, or change nothing and say why; it stores whenever it can. */
  ghost predicate SaveStep(valid: string -> bool, t: Tables, req: SaveRequest, r: Response, t': Tables) {
    && SaveAnswer(valid, t, req, r)
    && t' == (if r.Saved? then AfterSave(t, req) else t)
    && (Storable(valid, t, req) && SaveRuns(req) ==> r.Saved?)
  }

  /** All a delete may do: remove the whole problem if no test uses it, or change nothing and say why. */
  ghost predicate DeleteStep(t: Tables, id: nat, faults: seq<bool>, r: Response, t': Tables) {
    && (match r
        case NotFound => id !in t.problems
        case InUse => id in t.problems && (id in t.sectionQuestions || id in t.attemptQuestions)
        case Failed => !NoFault(faults, 2)
        case Removed(gone) =>
          gone == id && id in t.problems && id !in t.sectionQuestions && id !in t.attemptQuestions && NoFault(faults, 2)
        case _ => false)
    && t' == (if r.Removed? then Deleted(t, id) else t)
    && (id in t.problems && id !in t.sectionQuestions && id !in t.attemptQuestions && NoFault(faults, 2) ==> r.Removed?)
  }

  /** All the transaction may do. Unless it ends in a save it is rolled back, so then `t'` does not matter. */
  ghost predicate TransactStep(t: Tables, faults: seq<bool>, p: Problem, target: Option<nat>, newId: nat,
                               starters: Starters, r: Response, t': Tables)
  {
    var id := if target.Some? then target.value else newId;
    var allowed := target.Some? ==> id in t.problems && Editable(t, id);
    var count := (if target.Some? then 3 else 2) + StatementsOfParts(p);
    && (match r
        case NotFound => target.Some? && id !in t.problems
        case NotEditable => target.Some? && id in t.problems && !Editable(t, id)
        case Failed => !NoFault(faults, count)
        case Saved(saved) =>
          allowed && NoFault(faults, count) && saved == id && t' == Stored(t, id, HeadFor(t, id, p), p, starters)
        case _ => false)
    && (allowed && NoFault(faults, count) ==> r.Saved?)
  }

  class Store {
    var t: Tables
    const valid: string -> bool

    constructor (t: Tables, valid: string -> bool)
      ensures this.t == t && this.valid == valid
    {
      this.t, this.valid := t, valid;
    }

    method Save(req: SaveRequest) returns (r: Response)
      requires req.newId !in t.problems
      modifies this
      ensures SaveStep(valid, old(t), req, r, t)
    {
      hide *;
      ghost var t0 := t;
      EarlyAnswers(valid, t, req);
      if req.body.None? { return BadBody; }
      var form := new Form(valid, req.body.value);
      var defect := form.Validate();
      if defect.Some? {
        InvalidIsStep(valid, t, req, defect.value);
        return Invalid(defect.value);
      }
      var p := form.Value();
      match req.generated
      case Unreachable => return GeneratorDown;
      case Rejected => return BadSignature;
      case Given(starters) =>
        if !req.begins { return Failed; }
        var tx := new Tx(t, req.faults);
        r := Transact(tx, p, req.target, req.newId, starters);
        if r.Saved? {
          t := tx.t;
        }
        TransactIsStep(valid, t0, req, p, r, tx.t);
    }

    /** The body of the transaction, up to and including the commit. */
    method Transact(tx: Tx, p: Problem, target: Option<nat>, newId: nat, starters: Starters) returns (r: Response)
      requires newId !in tx.t.problems && tx.Valid() && tx.at == 0
      modifies tx
      ensures TransactStep(old(tx.t), tx.faults, p, target, newId, starters, r, tx.t)
    {
      hide Stored, HeadOf, StatementsOfParts;
      ghost var t0 := tx.t;
      var id := newId;
      var ok: bool;
      match target {
        case None =>
          ok := tx.Statement();
          if ok { tx.t := tx.t.(problems := tx.t.problems[id := HeadOf(p, "function")]); }
        case Some(existing) =>
          id := existing;
          ok := tx.Statement();
          if ok {
            if id !in tx.t.problems { return NotFound; }
            if !Editable(tx.t, id) { return NotEditable; }
            ok := tx.Statement();
            if ok { tx.t := tx.t.(problems := tx.t.problems[id := HeadOf(p, tx.t.problems[id].ioMode)]); }
          }
      }
      ghost var t1 := tx.t;
      if ok { ok := tx.WriteParts(id, p, starters); }
      if !ok { return Failed; }
      var committed := tx.Statement();
      if !committed { return Failed; }
      StoredTwice(t0, t1, id, p, starters);
      r := Saved(id);
    }

    /** Refused while a test section or an attempt uses the problem. */
    method Delete(id: nat, faults: seq<bool>) returns (r: Response)
      modifies this
      ensures DeleteStep(old(t), id, faults, r, t)
    {
      hide Deleted;
      if 0 < |faults| && faults[0] { return Failed; }
      if id !in t.problems { return NotFound; }
      if id in t.sectionQuestions || id in t.attemptQuestions { return InUse; }
      if 1 < |faults| && faults[1] { return Failed; }
      t := Deleted(t, id);
      r := Removed(id);
    }
  }

  /** The answers given before the transaction begins. */
  lemma EarlyAnswers(valid: string -> bool, t: Tables, req: SaveRequest)
    ensures req.body.None? ==> SaveStep(valid, t, req, BadBody, t)
    ensures req.body.Some? && Acceptable(valid, Normalised(req.body.value)) ==>
              && (req.generated.Unreachable? ==> SaveStep(valid, t, req, GeneratorDown, t))
              && (req.generated.Rejected? ==> SaveStep(valid, t, req, BadSignature, t))
              && (req.generated.Given? && !req.begins ==> SaveStep(valid, t, req, Failed, t))
  {
    hide Acceptable, IsFirstDefect, AfterSave, Editable;
  }

  lemma InvalidIsStep(valid: string -> bool, t: Tables, req: SaveRequest, d: Defect)
    requires req.body.Some? && IsFirstDefect(valid, Normalised(req.body.value), d)
    ensures SaveStep(valid, t, req, Invalid(d), t)
  {
    DefectsMatter(valid, Normalised(req.body.value), d);
    hide Acceptable, IsFirstDefect, AfterSave, Editable;
  }

  lemma TransactIsStep(valid: string -> bool, t: Tables, req: SaveRequest, p: Problem, r: Response, t': Tables)
    requires req.body.Some? && p == Normalised(req.body.value) && Acceptable(valid, p)
    requires req.generated.Given? && req.begins && req.newId !in t.problems
    requires TransactStep(t, req.faults, p, req.target, req.newId, req.generated.starters, r, t')
    ensures SaveStep(valid, t, req, r, if r.Saved? then t' else t)
  {
    hide Acceptable, IsFirstDefect, Stored, Editable, Normalised, HeadFor;
  }

  lemma StoredTwice(t0: Tables, t1: Tables, id: nat, p: Problem, starters: Starters)
    requires t1 == t0.(problems := t0.problems[id := HeadFor(t0, id, p)])
    ensures Stored(t1, id, t1.problems[id], p, starters) == Stored(t0, id, HeadFor(t0, id, p), p, starters)
  {
    hide HeadFor;
  }

  /** What the editor reads back after a successful save is the submitted form, trimmed and defaulted. */
  lemma SavedFormReadsBack(valid: string -> bool, t: Tables, req: SaveRequest, r: Response, t': Tables)
    requires SaveStep(valid, t, req, r, t') && r.Saved?
    ensures req.body.Some? && AcceptableAsSubmitted(valid, req.body.value)
    ensures r.id == if req.target.Some? then req.target.value else req.newId
    ensures r.id in t'.problems && r.id in t'.signatures && t'.starters[r.id] == req.generated.starters
    ensures var form, q := req.body.value, Load(t', r.id);
            && Tidied(form.(constraints := q.constraints, cases := q.cases), q)
            && |q.cases| == |form.cases|
            && (forall i :: 0 <= i < |form.cases| ==> q.cases[i] == TrimmedCase(form.cases[i]))
            && exists at :: NonBlank(q.constraints, form.constraints, at)
  {
    var form, p, id := req.body.value, Normalised(req.body.value), SavedId(req);
    var ioMode := if id in t.problems then t.problems[id].ioMode else "function";
    AcceptableIff(valid, form);
    NormalisedIsTidied(form);
    hide Acceptable, AcceptableAsSubmitted, IsFirstDefect, Normalised, Load, HeadOf, NoFault, StatementsOfSave, Tidied;
    LoadAfterSave(t, id, ioMode, p, req.generated.starters);
    TidiedWith(form, p, Load(t', r.id));
  }

  /** What a successful save fixes besides the form: the points, the mode and the kind of the signature. */
  lemma SavedHead(valid: string -> bool, t: Tables, req: SaveRequest, r: Response, t': Tables)
    requires SaveStep(valid, t, req, r, t') && r.Saved?
    ensures req.body.Some? && r.id in t'.problems && r.id in t'.signatures
    ensures var xp := t'.problems[r.id].xp;
            match req.body.value.difficulty
            case "Hard" => xp == 150
            case "Medium" => xp == 50
            case _ => xp == 20
    ensures t'.problems[r.id].ioMode == "function"
    ensures t'.signatures[r.id].kind == if r.id in t.signatures then t.signatures[r.id].kind else "function"
  {
    var p, id := Normalised(req.body.value), SavedId(req);
    assert p.difficulty == req.body.value.difficulty;
    PointsAre(p, HeadFor(t, id, p).ioMode);
    hide Acceptable, IsFirstDefect, Normalised, NoFault, StatementsOfSave;
    hide ConstraintRows, ExampleRows, CaseRows, Without, Tag, Explanations;
  }

  // Every run of saves and deletes.

  datatype Request = Save(req: SaveRequest) | Delete(id: nat, faults: seq<bool>)

  ghost predicate Step(valid: string -> bool, t: Tables, q: Request, r: Response, t': Tables) {
    match q
    case Save(req) => SaveStep(valid, t, req, r, t')
    case Delete(id, faults) => DeleteStep(t, id, faults, r, t')
  }

  /** The problems saved through the handler and not deleted since. */
  function Authored(before: set<nat>, r: Response): set<nat> {
    match r
    case Saved(id) => before + {id}
    case Removed(id) => before - {id}
    case _ => before
  }

  /** The tables agree on every problem saved through the handler. */
  ghost predicate Invariant(valid: string -> bool, t: Tables, authored: set<nat>) {
    forall id :: id in authored ==> Consistent(valid, t, id)
  }

  lemma StepKeepsInvariant(valid: string -> bool, t: Tables, q: Request, r: Response, t': Tables, authored: set<nat>)
    requires Invariant(valid, t, authored) && Step(valid, t, q, r, t')
    ensures Invariant(valid, t', Authored(authored, r))
  {
    hide Stored, Deleted, Consistent, HeadFor, Acceptable, IsFirstDefect;
    if r.Saved? {
      var p, id := Normalised(q.req.body.value), SavedId(q.req);
      var head, starters := HeadFor(t, id, p), q.req.generated.starters;
      hide Normalised;
      StoredIsConsistent(valid, t, id, head, p, starters);
      forall other | other in authored && other != id
        ensures Consistent(valid, t', other)
      {
        OthersUntouched(t, id, head, p, starters, other);
        SameIsConsistent(valid, t, t', other);
      }
    } else if r.Removed? {
      forall other | other in authored && other != q.id
        ensures Consistent(valid, t', other)
      {
        OthersUntouchedByDelete(t, q.id, other);
        SameIsConsistent(valid, t, t', other);
      }
    }
  }

  lemma OthersUntouchedByDelete(t: Tables, id: nat, other: nat)
    requires other != id
    ensures SameFor(t, Deleted(t, id), other)
  {
    var nothing := Problem("", "", "", "", "", [], false, "", [], "", "", []);
    OthersUntouched(t, id, Head("", "", "", 0, "", false, "", ""), nothing, Starters("", "", "", "", ""), other);
  }

  /** `states` and `responses` are a run of the handlers on `requests`. */
  ghost predicate Run(valid: string -> bool, states: seq<Tables>, requests: seq<Request>, responses: seq<Response>) {
    && |states| == |requests| + 1 && |responses| == |requests|
    && forall i :: 0 <= i < |requests| ==> Step(valid, states[i], requests[i], responses[i], states[i + 1])
  }

  function AuthoredAfter(responses: seq<Response>): set<nat>
    decreases |responses|
  {
    if responses == [] then {}
    else Authored(AuthoredAfter(responses[..|responses| - 1]), responses[|responses| - 1])
  }

  /** After every run, from any tables, all problems saved through the handler and not deleted are consistent. */
  lemma {:induction false} RunsKeepTablesInAgreement(valid: string -> bool, states: seq<Tables>, requests: seq<Request>,
                                                     responses: seq<Response>)
    requires Run(valid, states, requests, responses)
    ensures forall id :: id in AuthoredAfter(responses) ==> Consistent(valid, states[|requests|], id)
    decreases |requests|
  {
    hide Step, Consistent;
    var n := |requests|;
    if n > 0 {
      assert Run(valid, states[..n], requests[..n - 1], responses[..n - 1]);
      RunsKeepTablesInAgreement(valid, states[..n], requests[..n - 1], responses[..n - 1]);
      var authored := AuthoredAfter(responses[..n - 1]);
      StepKeepsInvariant(valid, states[n - 1], requests[n - 1], responses[n - 1], states[n], authored);
    }
  }

  /** Over a whole run, a problem no response names keeps all its rows. */
  lemma {:induction false} UnnamedProblemsUnchanged(valid: string -> bool, states: seq<Tables>, requests: seq<Request>,
                                                    responses: seq<Response>, id: nat)
    requires Run(valid, states, requests, responses)
    requires Saved(id) !in responses && Removed(id) !in responses
    ensures SameFor(states[0], states[|requests|], id)
    decreases |requests|
  {
    hide Step, SameFor;
    var n := |requests|;
    if n > 0 {
      assert Run(valid, states[..n], requests[..n - 1], responses[..n - 1]);
      UnnamedProblemsUnchanged(valid, states[..n], requests[..n - 1], responses[..n - 1], id);
      assert responses[n - 1] in responses;
      StepLeavesOthers(valid, states[n - 1], requests[n - 1], responses[n - 1], states[n], id);
      SameForTransitive(states[0], states[n - 1], states[n], id);
    } else {
      SameForTransitive(states[0], states[0], states[0], id);
    }
  }

  lemma SameForTransitive(t: Tables, t': Tables, t'': Tables, id: nat)
    ensures SameFor(t, t', id) && SameFor(t', t'', id) ==> SameFor(t, t'', id)
    ensures SameFor(t, t, id)
  {
    hide Of;
  }

  lemma StepLeavesOthers(valid: string -> bool, t: Tables, q: Request, r: Response, t': Tables, id: nat)
    requires Step(valid, t, q, r, t') && r != Saved(id) && r != Removed(id)
    ensures SameFor(t, t', id)
  {
    hide Stored, Deleted, HeadFor, Acceptable, IsFirstDefect, Normalised, Of;
    if r.Saved? {
      var p := Normalised(q.req.body.value);
      OthersUntouched(t, r.id, HeadFor(t, r.id, p), p, q.req.generated.starters, id);
    } else if r.Removed? {
      OthersUntouchedByDelete(t, q.id, id);
    }
  }

  // What the handlers never touch.

  /** A problem in another mode than "function", or with a signature of another kind. */
  predicate OtherMode(t: Tables, id: nat) {
    && id in t.problems
    && (t.problems[id].ioMode != "function" || (id in t.signatures && t.signatures[id].kind != "function"))
  }

  lemma EditableIff(t: Tables, id: nat)
    ensures OtherMode(t, id) ==> id in t.problems
    ensures id in t.problems ==> (Editable(t, id) <==> !OtherMode(t, id))
  {
  }

  lemma NewIsNotOtherMode(t: Tables, id: nat)
    ensures id !in t.problems ==> !OtherMode(t, id)
  {
  }

  /** A save is refused as not editable only for a problem in another mode, and no such problem is saved. */
  lemma NotEditableOnlyThen(valid: string -> bool, t: Tables, req: SaveRequest, r: Response, t': Tables)
    requires SaveStep(valid, t, req, r, t')
    ensures r == NotEditable ==> req.target.Some? && OtherMode(t, req.target.value)
    ensures r.Saved? ==> !OtherMode(t, r.id)
    ensures r.Saved? && req.target.Some? ==> r.id in t.problems
  {
    if req.target.Some? {
      EditableIff(t, req.target.value);
    }
    NewIsNotOtherMode(t, req.newId);
    hide FormFits, SaveRuns, IsFirstDefect, AfterSave, Normalised, Editable, OtherMode;
  }

  /** A save of a problem in another mode changes nothing; unless something else is wrong, that is the answer. */
  lemma OtherModeIsRefused(valid: string -> bool, t: Tables, req: SaveRequest, r: Response, t': Tables)
    requires SaveStep(valid, t, req, r, t') && req.target.Some? && OtherMode(t, req.target.value)
    ensures t' == t
    ensures FormFits(valid, req) && req.generated.Given? && SaveRuns(req) ==> r == NotEditable
  {
    if r.Invalid? {
      DefectsMatter(valid, Normalised(req.body.value), r.defect);
      assert !FormFits(valid, req);
    }
    EditableIff(t, req.target.value);
    hide FormFits, SaveRuns, IsFirstDefect, AfterSave, Normalised, Editable, OtherMode;
  }

  /** A save whose form is good, generator answers, target may be rewritten and statements succeed is carried out. */
  lemma GoodRequestIsSaved(valid: string -> bool, t: Tables, req: SaveRequest, r: Response, t': Tables)
    requires SaveStep(valid, t, req, r, t')
    requires req.body.Some? && AcceptableAsSubmitted(valid, req.body.value) && req.generated.Given?
    requires req.target.Some? ==> req.target.value in t.problems && !OtherMode(t, req.target.value)
    requires SaveRuns(req)
    ensures r.Saved?
  {
    AcceptableIff(valid, req.body.value);
    hide Acceptable, AcceptableAsSubmitted, IsFirstDefect, AfterSave, Normalised, NoFault, StatementsOfSave;
  }

  /** Over every run, a problem in another mode keeps all its rows until it is deleted. */
  lemma {:induction false} OtherModesUnchanged(valid: string -> bool, states: seq<Tables>, requests: seq<Request>,
                                               responses: seq<Response>, id: nat)
    requires Run(valid, states, requests, responses)
    requires OtherMode(states[0], id) && Removed(id) !in responses
    ensures SameFor(states[0], states[|requests|], id)
    decreases |requests|
  {
    hide Step, SameFor, OtherMode;
    var n := |requests|;
    if n > 0 {
      assert Run(valid, states[..n], requests[..n - 1], responses[..n - 1]);
      OtherModesUnchanged(valid, states[..n], requests[..n - 1], responses[..n - 1], id);
      SameMode(states[0], states[n - 1], id);
      assert responses[n - 1] in responses;
      StepLeavesOtherMode(valid, states[n - 1], requests[n - 1], responses[n - 1], states[n], id);
      SameForTransitive(states[0], states[n - 1], states[n], id);
    } else {
      SameForTransitive(states[0], states[0], states[0], id);
    }
  }

  lemma SameMode(t: Tables, t': Tables, id: nat)
    requires SameFor(t, t', id)
    ensures OtherMode(t, id) <==> OtherMode(t', id)
  {
  }

  lemma StepLeavesOtherMode(valid: string -> bool, t: Tables, q: Request, r: Response, t': Tables, id: nat)
    requires Step(valid, t, q, r, t') && OtherMode(t, id) && r != Removed(id)
    ensures SameFor(t, t', id)
  {
    if r.Saved? {
      NotEditableOnlyThen(valid, t, q.req, r, t');
    }
    hide SaveStep, DeleteStep, SameFor;
    StepLeavesOthers(valid, t, q, r, t', id);
  }

  lemma StepKeepsTestLists(valid: string -> bool, t: Tables, q: Request, r: Response, t': Tables)
    requires Step(valid, t, q, r, t')
    ensures t'.sectionQuestions == t.sectionQuestions && t'.attemptQuestions == t.attemptQuestions
    ensures r.Removed? ==> r.id !in t.sectionQuestions && r.id !in t.attemptQuestions
    ensures forall id :: id in t.problems && r != Removed(id) ==> id in t'.problems
  {
    hide Acceptable, IsFirstDefect, Normalised, HeadFor, NoFault, StatementsOfSave, Editable;
    if r.Saved? {
      var p := Normalised(q.req.body.value);
      TestListsUntouched(t, r.id, HeadFor(t, r.id, p), p, q.req.generated.starters);
    }
  }

  /** Over every run, the lists of problems used in tests stay as they are, and no problem in them is deleted. */
  lemma {:induction false} UsedProblemsStay(valid: string -> bool, states: seq<Tables>, requests: seq<Request>,
                                            responses: seq<Response>)
    requires Run(valid, states, requests, responses)
    ensures var t, t' := states[0], states[|requests|];
            && t'.sectionQuestions == t.sectionQuestions && t'.attemptQuestions == t.attemptQuestions
            && forall id :: id in t.sectionQuestions || id in t.attemptQuestions ==>
                 Removed(id) !in responses && (id in t.problems ==> id in t'.problems)
    decreases |requests|
  {
    hide Step;
    var n := |requests|;
    if n > 0 {
      assert Run(valid, states[..n], requests[..n - 1], responses[..n - 1]);
      UsedProblemsStay(valid, states[..n], requests[..n - 1], responses[..n - 1]);
      StepKeepsTestLists(valid, states[n - 1], requests[n - 1], responses[n - 1], states[n]);
      assert responses == responses[..n - 1] + [responses[n - 1]];
    }
  }

  lemma StepKeepsGone(valid: string -> bool, t: Tables, q: Request, r: Response, t': Tables, id: nat)
    requires Step(valid, t, q, r, t') && r != Saved(id)
    requires r == Removed(id) || Gone(t, id)
    ensures Gone(t', id)
  {
    hide Gone, Deleted, SameFor;
    if r == Removed(id) {
      DeletedLeavesNothing(t, id);
    } else {
      hide Step;
      StepLeavesOthers(valid, t, q, r, t', id);
      SameIsGone(t, t', id);
    }
  }

  lemma SameIsGone(t: Tables, t': Tables, id: nat)
    requires SameFor(t, t', id) && Gone(t, id)
    ensures Gone(t', id)
  {
    hide Of;
  }

  /** Once deleted and not saved again, a problem has no row in any table, however the run goes on. */
  lemma {:induction false} DeletedStaysGone(valid: string -> bool, states: seq<Tables>, requests: seq<Request>,
                                            responses: seq<Response>, k: nat, id: nat)
    requires Run(valid, states, requests, responses) && k < |requests|
    requires responses[k] == Removed(id) && Saved(id) !in responses[k..]
    ensures Gone(states[|requests|], id)
    decreases |requests|
  {
    hide Step, Gone;
    var n := |requests|;
    assert responses[k..][n - 1 - k] == responses[n - 1];
    if k < n - 1 {
      assert Run(valid, states[..n], requests[..n - 1], responses[..n - 1]);
      assert responses[..n - 1][k..] == responses[k..][..n - 1 - k];
      DeletedStaysGone(valid, states[..n], requests[..n - 1], responses[..n - 1], k, id);
    }
    StepKeepsGone(valid, states[n - 1], requests[n - 1], responses[n - 1], states[n], id);
  }

  // Explanations over a run.

  /** Among the first `n` steps, the problem is deleted or saved with at most `i` examples. */
  ghost predicate Dropped(states: seq<Tables>, responses: seq<Response>, n: nat, id: nat, i: nat)
    requires n <= |responses| < |states|
  {
    exists k :: 0 <= k < n && DroppedBy(states[k + 1], responses[k], id, i)
  }

  predicate DroppedBy(t': Tables, r: Response, id: nat, i: nat) {
    r == Removed(id) || (r == Saved(id) && |Of(t'.examples, id)| <= i)
  }

  lemma StepCarriesExplanation(valid: string -> bool, t: Tables, q: Request, r: Response, t': Tables, id: nat, i: nat)
    requires Step(valid, t, q, r, t')
    ensures ExplanationAt(t', id, i) == if DroppedBy(t', r, id, i) then "" else ExplanationAt(t, id, i)
  {
    hide ExplanationAt, Stored, Deleted, HeadFor, Acceptable, IsFirstDefect, Normalised, Of, SameFor;
    if r == Saved(id) {
      var p := Normalised(q.req.body.value);
      ExplanationAfterSave(t, id, HeadFor(t, id, p), p, q.req.generated.starters, i);
    } else if r == Removed(id) {
      DeletedLeavesNothing(t, id);
      NoExplanations(t', id, i);
    } else {
      hide Step;
      StepLeavesOthers(valid, t, q, r, t', id);
      SameExplanations(t, t', id, i);
    }
  }

  lemma SameExplanations(t: Tables, t': Tables, id: nat, i: nat)
    requires SameFor(t, t', id)
    ensures ExplanationAt(t', id, i) == ExplanationAt(t, id, i)
  {
    hide Of;
  }

  /** Over a whole run from any tables, the explanation at a position is the one it was, until the problem is deleted or
      saved with too few examples; from then on there is none. */
  lemma {:induction false} ExplanationsSurviveRuns(valid: string -> bool, states: seq<Tables>, requests: seq<Request>,
                                                   responses: seq<Response>, id: nat, i: nat)
    requires Run(valid, states, requests, responses)
    ensures ExplanationAt(states[|requests|], id, i) ==
            if Dropped(states, responses, |requests|, id, i) then "" else ExplanationAt(states[0], id, i)
    decreases |requests|
  {
    hide Step, ExplanationAt, DroppedBy;
    var n := |requests|;
    if n > 0 {
      assert Run(valid, states[..n], requests[..n - 1], responses[..n - 1]);
      ExplanationsSurviveRuns(valid, states[..n], requests[..n - 1], responses[..n - 1], id, i);
      StepCarriesExplanation(valid, states[n - 1], requests[n - 1], responses[n - 1], states[n], id, i);
      DroppedStep(states, responses, n, id, i);
    }
  }

  lemma DroppedStep(states: seq<Tables>, responses: seq<Response>, n: nat, id: nat, i: nat)
    requires 0 < n == |responses| == |states| - 1
    ensures Dropped(states, responses, n, id, i) <==>
            Dropped(states[..n], responses[..n - 1], n - 1, id, i) || DroppedBy(states[n], responses[n - 1], id, i)
  {
    hide DroppedBy;
    if k :| 0 <= k < n && DroppedBy(states[k + 1], responses[k], id, i) {
      if k < n - 1 {
        assert states[..n][k + 1] == states[k + 1] && responses[..n - 1][k] == responses[k];
      }
    }
    var states', responses' := states[..n], responses[..n - 1];
    if k :| 0 <= k < n - 1 && DroppedBy(states'[k + 1], responses'[k], id, i) {
      assert states'[k + 1] == states[k + 1] && responses'[k] == responses[k];
    }
  }

  // Loading a saved problem and saving it again.

  /** `again` saves what the editor loads for problem `id`, and the generator answers as before. */
  predicate SavesLoaded(t: Tables, id: nat, starters: Starters, again: SaveRequest) {
    && id in t.problems && id in t.signatures
    && again.body == Some(Load(t, id)) && again.target == Some(id) && again.generated == Given(starters)
  }

  /** The loaded form of a saved problem can be saved, and saving it changes no row but the positions of constraints. */
  lemma ResavingChangesNothing(valid: string -> bool, t: Tables, req: SaveRequest, r: Response, t': Tables,
                               again: SaveRequest, r': Response, t'': Tables)
    requires SaveStep(valid, t, req, r, t') && r.Saved? && (req.target.None? ==> Gone(t, req.newId))
    requires SavesLoaded(t', r.id, req.generated.starters, again) && SaveStep(valid, t', again, r', t'')
    ensures Storable(valid, t', again)
    ensures SameButPositions(t', t'', r.id)
  {
    var p, id, starters := Normalised(req.body.value), SavedId(req), req.generated.starters;
    var ioMode := HeadFor(t, id, p).ioMode;
    assert t' == Stored(t, id, HeadOf(p, ioMode), p, starters) && Acceptable(valid, p);
    EditableAfterSave(valid, t, req);
    hide Gone, Acceptable, SaveAnswer, Stored, Editable, SaveRuns, Normalised, Load, SameButPositions, FormFits;
    var q := Load(t', id);
    LoadedIsStorable(valid, t, id, ioMode, req.body.value, starters);
    ResaveKeepsRows(t, id, ioMode, p, starters);
    SameButPositionsOfItself(t', id);
    hide Storable, SaveStep, AfterSave, HeadFor, HeadOf;
    ResaveStores(valid, t', id, q, starters, again, r', t'');
  }

  lemma ResaveStores(valid: string -> bool, t: Tables, id: nat, q: Problem, starters: Starters,
                     again: SaveRequest, r: Response, t': Tables)
    requires id in t.problems && Editable(t, id) && Normalised(q) == q && Acceptable(valid, q)
    requires again.body == Some(q) && again.target == Some(id) && again.generated == Given(starters)
    requires SaveStep(valid, t, again, r, t')
    ensures Storable(valid, t, again)
    ensures t' == t || t' == Stored(t, id, HeadFor(t, id, q), q, starters)
  {
    FitsIfAcceptable(valid, again);
    hide SaveAnswer, FormFits, Acceptable, Normalised, Stored, HeadFor, Editable, SaveRuns;
  }

  lemma FitsIfAcceptable(valid: string -> bool, req: SaveRequest)
    ensures FormFits(valid, req) <==> req.body.Some? && Acceptable(valid, Normalised(req.body.value))
  {
  }

  /** The loaded form is already trimmed and defaulted, it is accepted, and the problem is in function mode. */
  lemma LoadedIsStorable(valid: string -> bool, t: Tables, id: nat, ioMode: string, form: Problem, starters: Starters)
    requires Acceptable(valid, Normalised(form))
    ensures var p := Normalised(form);
            var t' := Stored(t, id, HeadOf(p, ioMode), p, starters);
            var q := Load(t', id);
            Normalised(q) == q && Acceptable(valid, q) && HeadFor(t', id, q) == HeadOf(q, ioMode)
  {
    var p := Normalised(form);
    hide Acceptable, Normalised, Load;
    LoadAfterSave(t, id, ioMode, p, starters);
    var q := Load(Stored(t, id, HeadOf(p, ioMode), p, starters), id);
    LoadedIsNormalised(form, p, q);
    LoadedIsAcceptable(valid, p, q);
  }

  lemma LoadedIsNormalised(form: Problem, p: Problem, q: Problem)
    requires p == Normalised(form) && q == p.(constraints := q.constraints, cases := q.cases)
    ensures Normalised(q) == q
  {
    NormalisedTwice(form);
    hide TrimSpace, TrimmedParams, OrDefault;
  }

  lemma EditableAfterSave(valid: string -> bool, t: Tables, req: SaveRequest)
    requires Storable(valid, t, req) && (req.target.None? ==> Gone(t, req.newId))
    ensures SavedId(req) in AfterSave(t, req).problems && Editable(AfterSave(t, req), SavedId(req))
  {
    hide Acceptable, Normalised, ConstraintRows, ExampleRows, CaseRows, Of, Without, Tag, Explanations;
  }

  lemma SameButPositionsOfItself(t: Tables, id: nat)
    ensures SameButPositions(t, t, id)
  {
  }
}
