/** The grounded-terms checker (`GroundedTermsChecker.cpp`). For every rule of the
    program it reports each variable name that has an ungrounded occurrence, once, at
    its first such occurrence, then each ungrounded record, then each ungrounded ADT
    branch. Which terms are grounded is computed by an analysis that is not part of
    this model: it is an input that maps a clause and the position of a term in the
    clause's depth-first traversal (the term's identity) to whether it is grounded. */
module GroundedTermsChecker {
  import opened Util
  import opened Ast
  import opened Programs
  import opened Reports

  // ---- the depth-first traversal of the arguments of a clause ----

  /** The argument and then, in order, every argument below it. */
  function ArgTerms(a: Argument): (r: seq<Argument>)
    ensures |r| >= 1 && r[0] == a
    decreases a
  {
    match a
    case TypeCast(v, _) => [a] + ArgTerms(v)
    case RecordInit(xs) => [a] + ArgsTerms(xs)
    case BranchInit(_, xs) => [a] + ArgsTerms(xs)
    case Functor(_, xs) => [a] + ArgsTerms(xs)
    case Aggregator(_, t, body) => [a] + TargetTerms(t) + LitsTerms(body)
    case _ => [a]
  }

  function TargetTerms(t: Option<Argument>): seq<Argument>
    decreases t
  {
    match t
    case None => []
    case Some(x) => ArgTerms(x)
  }

  function ArgsTerms(xs: seq<Argument>): seq<Argument>
    decreases xs
  {
    if |xs| == 0 then [] else ArgTerms(xs[0]) + ArgsTerms(xs[1..])
  }

  function LitTerms(l: Literal): seq<Argument>
    decreases l
  {
    match l
    case AtomLiteral(at) => ArgsTerms(at.args)
    case NegationLiteral(n) => ArgsTerms(n.atom.args)
    case BinaryConstraint(_, x, y) => ArgTerms(x) + ArgTerms(y)
  }

  function LitsTerms(ls: seq<Literal>): seq<Argument>
    decreases ls
  {
    if |ls| == 0 then [] else LitTerms(ls[0]) + LitsTerms(ls[1..])
  }

  /** Every argument of the clause in depth-first order: the head, then the body. */
  function Terms(c: Clause): seq<Argument>
  {
    ArgsTerms(c.head.args) + LitsTerms(c.body)
  }

  /** `isFact`: a clause without body literals. */
  predicate IsFact(c: Clause)
  {
    |c.body| == 0
  }

  // ---- what is reported ----

  predicate UngroundedVar(ts: seq<Argument>, grounded: nat -> bool, i: nat)
    requires i < |ts|
  {
    ts[i].Variable? && !grounded(i)
  }

  /** The first ungrounded occurrence of its variable name. */
  predicate FirstUngroundedVar(ts: seq<Argument>, grounded: nat -> bool, i: nat)
    requires i < |ts|
  {
    UngroundedVar(ts, grounded, i) &&
    forall j :: 0 <= j < i ==> !(UngroundedVar(ts, grounded, j) && ts[j].name == ts[i].name)
  }

  /** The names reported among the first `k` terms, in order. */
  function ReportedNames(ts: seq<Argument>, grounded: nat -> bool, k: nat): seq<string>
    requires k <= |ts|
  {
    if k == 0 then []
    else
      ReportedNames(ts, grounded, k - 1)
        + (if FirstUngroundedVar(ts, grounded, k - 1) then [ts[k - 1].name] else [])
  }

  /** The reported names are exactly the names with an ungrounded occurrence. */
  lemma {:induction false} ReportedNamesMembers(ts: seq<Argument>, grounded: nat -> bool, k: nat, x: string)
    requires k <= |ts|
    ensures x in ReportedNames(ts, grounded, k) <==>
      exists i :: 0 <= i < k && UngroundedVar(ts, grounded, i) && ts[i].name == x
  {
    if k > 0 {
      ReportedNamesMembers(ts, grounded, k - 1, x);
      if UngroundedVar(ts, grounded, k - 1) && ts[k - 1].name == x && !FirstUngroundedVar(ts, grounded, k - 1) {
        var j :| 0 <= j < k - 1 && UngroundedVar(ts, grounded, j) && ts[j].name == ts[k - 1].name;
      }
    }
  }

  /** No name is reported twice. */
  lemma {:induction false} ReportedNamesDistinct(ts: seq<Argument>, grounded: nat -> bool, k: nat)
    requires k <= |ts|
    ensures var ns := ReportedNames(ts, grounded, k); forall i, j :: 0 <= i < j < |ns| ==> ns[i] != ns[j]
  {
    if k > 0 {
      ReportedNamesDistinct(ts, grounded, k - 1);
      var pre := ReportedNames(ts, grounded, k - 1);
      if FirstUngroundedVar(ts, grounded, k - 1) {
        var x := ts[k - 1].name;
        ReportedNamesMembers(ts, grounded, k - 1, x);
        assert x !in pre;
        var ns := pre + [x];
        forall i, j | 0 <= i < j < |ns| ensures ns[i] != ns[j] {
          if j == |pre| { assert ns[i] == pre[i] && pre[i] in pre; }
          else { assert ns[i] == pre[i] && ns[j] == pre[j]; }
        }
      }
    }
  }

  datatype Compound = Record | Branch

  predicate IsCompound(a: Argument, kind: Compound)
  {
    match kind
    case Record => a.RecordInit?
    case Branch => a.BranchInit?
  }

  /** The positions of the ungrounded terms of the kind among the first `k`. */
  function UngroundedAt(ts: seq<Argument>, grounded: nat -> bool, kind: Compound, k: nat): seq<nat>
    requires k <= |ts|
  {
    if k == 0 then []
    else
      UngroundedAt(ts, grounded, kind, k - 1)
        + (if IsCompound(ts[k - 1], kind) && !grounded(k - 1) then [k - 1] else [])
  }

  /** The reported positions are exactly the ungrounded terms of the kind. */
  lemma {:induction false} UngroundedAtMembers(ts: seq<Argument>, grounded: nat -> bool, kind: Compound, k: nat, i: nat)
    requires k <= |ts|
    ensures i in UngroundedAt(ts, grounded, kind, k) <==> i < k && IsCompound(ts[i], kind) && !grounded(i)
  {
    if k > 0 {
      UngroundedAtMembers(ts, grounded, kind, k - 1, i);
    }
  }

  /** They are reported in traversal order, each once. */
  lemma {:induction false} UngroundedAtAscending(ts: seq<Argument>, grounded: nat -> bool, kind: Compound, k: nat)
    requires k <= |ts|
    ensures forall i, j :: 0 <= i < j < |UngroundedAt(ts, grounded, kind, k)| ==>
      UngroundedAt(ts, grounded, kind, k)[i] < UngroundedAt(ts, grounded, kind, k)[j]
  {
    if k > 0 {
      UngroundedAtAscending(ts, grounded, kind, k - 1);
      var pre := UngroundedAt(ts, grounded, kind, k - 1);
      var u := UngroundedAt(ts, grounded, kind, k);
      forall x | x in pre ensures x < k - 1 {
        UngroundedAtMembers(ts, grounded, kind, k - 1, x);
      }
      assert u == pre + (if IsCompound(ts[k - 1], kind) && !grounded(k - 1) then [k - 1] else []);
      forall i, j | 0 <= i < j < |u| ensures u[i] < u[j] {
        if j < |pre| {
          assert u[i] == pre[i] && u[j] == pre[j];
          assert pre[i] < pre[j];
        } else {
          assert u[j] == k - 1;
          assert u[i] == pre[i];
          assert pre[i] in pre;
          assert pre[i] < k - 1;
        }
      }
    }
  }

  function VariableError(name: string): Diagnostic
  {
    Diagnostic([Text("Ungrounded variable " + name)], [])
  }

  function CompoundError(kind: Compound): Diagnostic
  {
    match kind
    case Record => Diagnostic([Text("Ungrounded record")], [])
    case Branch => Diagnostic([Text("Ungrounded ADT branch")], [])
  }

  function VariableErrors(ts: seq<Argument>, grounded: nat -> bool, k: nat): seq<Diagnostic>
    requires k <= |ts|
  {
    if k == 0 then []
    else
      VariableErrors(ts, grounded, k - 1)
        + (if FirstUngroundedVar(ts, grounded, k - 1) then [VariableError(ts[k - 1].name)] else [])
  }

  function CompoundErrors(ts: seq<Argument>, grounded: nat -> bool, kind: Compound, k: nat): seq<Diagnostic>
    requires k <= |ts|
  {
    if k == 0 then []
    else
      CompoundErrors(ts, grounded, kind, k - 1)
        + (if IsCompound(ts[k - 1], kind) && !grounded(k - 1) then [CompoundError(kind)] else [])
  }

  /** One variable error per reported name, in the same order. */
  lemma {:induction false} VariableErrorsAreReportedNames(ts: seq<Argument>, grounded: nat -> bool, k: nat)
    requires k <= |ts|
    ensures var d := VariableErrors(ts, grounded, k); var ns := ReportedNames(ts, grounded, k);
      |d| == |ns| && forall i :: 0 <= i < |d| ==> d[i] == VariableError(ns[i])
  {
    if k > 0 {
      VariableErrorsAreReportedNames(ts, grounded, k - 1);
    }
  }

  /** One error per ungrounded term of the kind. */
  lemma {:induction false} CompoundErrorsCount(ts: seq<Argument>, grounded: nat -> bool, kind: Compound, k: nat)
    requires k <= |ts|
    ensures var d := CompoundErrors(ts, grounded, kind, k);
      |d| == |UngroundedAt(ts, grounded, kind, k)| && forall i :: 0 <= i < |d| ==> d[i] == CompoundError(kind)
  {
    if k > 0 {
      CompoundErrorsCount(ts, grounded, kind, k - 1);
    }
  }

  /** What the checker reports for one clause. */
  function ClauseDiagnostics(c: Clause, grounded: nat -> bool): seq<Diagnostic>
  {
    if IsFact(c) then []
    else
      var ts := Terms(c);
      VariableErrors(ts, grounded, |ts|)
        + CompoundErrors(ts, grounded, Record, |ts|) + CompoundErrors(ts, grounded, Branch, |ts|)
  }

  /** A fact is not checked; a rule gets one error per reported variable name, one
      per ungrounded record and one per ungrounded branch. */
  lemma ClauseDiagnosticsCount(c: Clause, grounded: nat -> bool)
    ensures IsFact(c) ==> ClauseDiagnostics(c, grounded) == []
    ensures !IsFact(c) ==>
      |ClauseDiagnostics(c, grounded)| == |ReportedNames(Terms(c), grounded, |Terms(c)|)|
        + |UngroundedAt(Terms(c), grounded, Record, |Terms(c)|)|
        + |UngroundedAt(Terms(c), grounded, Branch, |Terms(c)|)|
  {
    var ts := Terms(c);
    VariableErrorsAreReportedNames(ts, grounded, |ts|);
    CompoundErrorsCount(ts, grounded, Record, |ts|);
    CompoundErrorsCount(ts, grounded, Branch, |ts|);
  }

  lemma {:induction false} GroundedVariablesClean(ts: seq<Argument>, grounded: nat -> bool, k: nat)
    requires k <= |ts|
    requires forall i :: 0 <= i < k && ts[i].Variable? ==> grounded(i)
    ensures VariableErrors(ts, grounded, k) == []
  {
    if k > 0 {
      GroundedVariablesClean(ts, grounded, k - 1);
    }
  }

  lemma {:induction false} GroundedCompoundsClean(ts: seq<Argument>, grounded: nat -> bool, kind: Compound, k: nat)
    requires k <= |ts|
    requires forall i :: 0 <= i < k && IsCompound(ts[i], kind) ==> grounded(i)
    ensures CompoundErrors(ts, grounded, kind, k) == []
  {
    if k > 0 {
      GroundedCompoundsClean(ts, grounded, kind, k - 1);
    }
  }

  /** The kinds of terms the checker looks at. */
  predicate IsCheckedTerm(a: Argument)
  {
    a.Variable? || a.RecordInit? || a.BranchInit?
  }

  /** A rule whose variables, records and branches are all grounded is not reported. */
  lemma GroundedClauseClean(c: Clause, grounded: nat -> bool)
    requires forall i :: 0 <= i < |Terms(c)| && IsCheckedTerm(Terms(c)[i]) ==> grounded(i)
    ensures ClauseDiagnostics(c, grounded) == []
  {
    var ts := Terms(c);
    GroundedVariablesClean(ts, grounded, |ts|);
    GroundedCompoundsClean(ts, grounded, Record, |ts|);
    GroundedCompoundsClean(ts, grounded, Branch, |ts|);
  }

  /** A rule with an ungrounded variable is reported. */
  lemma UngroundedVariableReported(c: Clause, grounded: nat -> bool, i: nat)
    requires !IsFact(c) && i < |Terms(c)| && UngroundedVar(Terms(c), grounded, i)
    ensures VariableError(Terms(c)[i].name) in ClauseDiagnostics(c, grounded)
  {
    var ts := Terms(c);
    ReportedNamesMembers(ts, grounded, |ts|, ts[i].name);
    VariableErrorsAreReportedNames(ts, grounded, |ts|);
    var ns := ReportedNames(ts, grounded, |ts|);
    var k :| 0 <= k < |ns| && ns[k] == ts[i].name;
    assert VariableErrors(ts, grounded, |ts|)[k] == VariableError(ts[i].name);
  }

  /** The diagnostics of the first `k` clauses of the program. */
  function ProgramDiagnostics(clauses: seq<Clause>, grounded: Clause -> nat -> bool, k: nat): seq<Diagnostic>
    requires k <= |clauses|
  {
    if k == 0 then []
    else ProgramDiagnostics(clauses, grounded, k - 1) + ClauseDiagnostics(clauses[k - 1], grounded(clauses[k - 1]))
  }

  lemma ProgramDiagnosticsStep(clauses: seq<Clause>, grounded: Clause -> nat -> bool, k: nat)
    requires k < |clauses|
    ensures ProgramDiagnostics(clauses, grounded, k + 1) ==
      ProgramDiagnostics(clauses, grounded, k) + ClauseDiagnostics(clauses[k], grounded(clauses[k]))
  {
  }

  // ---- the checker ----

  /** The loop over the variables of a rule: each ungrounded name is reported once. */
  method CheckVariables(ts: seq<Argument>, grounded: nat -> bool, report: ErrorReport)
    modifies report
    ensures report.diagnostics == old(report.diagnostics) + VariableErrors(ts, grounded, |ts|)
  {
    var reportedVars: set<string> := {};
    var i := 0;
    while i < |ts|
      invariant 0 <= i <= |ts|
      invariant report.diagnostics == old(report.diagnostics) + VariableErrors(ts, grounded, i)
      invariant forall x :: x in reportedVars <==>
        exists j :: 0 <= j < i && UngroundedVar(ts, grounded, j) && ts[j].name == x
    {
      if ts[i].Variable? && !grounded(i) && ts[i].name !in reportedVars {
        report.AddError("Ungrounded variable " + ts[i].name);
        reportedVars := reportedVars + {ts[i].name};
      }
      i := i + 1;
    }
  }

  /** The loop over the records, or over the branch initialisations, of a rule. */
  method CheckCompounds(ts: seq<Argument>, grounded: nat -> bool, kind: Compound, report: ErrorReport)
    modifies report
    ensures report.diagnostics == old(report.diagnostics) + CompoundErrors(ts, grounded, kind, |ts|)
  {
    var message := match kind case Record => "Ungrounded record" case Branch => "Ungrounded ADT branch";
    var i := 0;
    while i < |ts|
      invariant 0 <= i <= |ts|
      invariant report.diagnostics == old(report.diagnostics) + CompoundErrors(ts, grounded, kind, i)
    {
      if IsCompound(ts[i], kind) && !grounded(i) {
        report.AddError(message);
      }
      i := i + 1;
    }
  }

  /** The three loops over one rule; facts are skipped. */
  method CheckClause(c: Clause, grounded: nat -> bool, report: ErrorReport)
    modifies report
    ensures report.diagnostics == old(report.diagnostics) + ClauseDiagnostics(c, grounded)
  {
    if IsFact(c) {
      return;
    }
    var ts := Terms(c);
    CheckVariables(ts, grounded, report);
    CheckCompounds(ts, grounded, Record, report);
    CheckCompounds(ts, grounded, Branch, report);
  }

  /** `GroundedTermsChecker::verify`: the diagnostics of every clause of the program,
      in order, are appended to the report; the program is only read. */
  method Verify(program: AstProgram, grounded: Clause -> nat -> bool, report: ErrorReport)
    modifies report
    ensures report.diagnostics ==
      old(report.diagnostics) + ProgramDiagnostics(program.clauses, grounded, |program.clauses|)
  {
    var clauses := program.clauses;
    var k := 0;
    while k < |clauses|
      invariant 0 <= k <= |clauses|
      invariant report.diagnostics == old(report.diagnostics) + ProgramDiagnostics(clauses, grounded, k)
    {
      CheckClause(clauses[k], grounded(clauses[k]), report);
      ProgramDiagnosticsStep(clauses, grounded, k);
      AppendAssociative(old(report.diagnostics), ProgramDiagnostics(clauses, grounded, k),
        ClauseDiagnostics(clauses[k], grounded(clauses[k])));
      k := k + 1;
    }
  }
}
