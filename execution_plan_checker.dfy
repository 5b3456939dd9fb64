/** The execution plan checker (`ExecutionPlanChecker.cpp`). A recursive clause is
    evaluated in one version per body atom of its own SCC, numbered from 0, so a
    user plan may only name versions below that count; every order for a version at
    or above it is reported. The relation schedule and the recursive-clause analysis
    are computed elsewhere and are inputs: the schedule as the list of its steps,
    each the relations computed in that step in the order the step hands them out,
    and recursiveness as a predicate on clauses. */
module ExecutionPlanChecker {
  import opened Util
  import opened QualifiedNames
  import opened Ast
  import opened Programs
  import opened Reports
  import ExecutionPlans

  /** The relations of a step, as the `std::set` the step holds. */
  function Members(step: seq<QualifiedName>): set<QualifiedName>
  {
    set r | r in step
  }

  /** A body atom whose relation lies in the SCC. Only top-level atoms count; the
      atoms under a negation or inside an aggregate are not body atoms. */
  predicate IsSccAtom(l: Literal, scc: set<QualifiedName>)
  {
    l.AtomLiteral? && l.atom.name in scc
  }

  /** The number of versions of a clause: its body atoms that lie in the SCC. */
  function SccAtomCount(body: seq<Literal>, scc: set<QualifiedName>): (r: nat)
    ensures r <= |body|
  {
    if |body| == 0 then 0
    else SccAtomCount(body[..|body| - 1], scc) + (if IsSccAtom(body[|body| - 1], scc) then 1 else 0)
  }

  /** A clause has no versions exactly when no body atom lies in the SCC, and as many
      as body literals exactly when all of them are atoms of the SCC. */
  lemma {:induction false} SccAtomCountExtremes(body: seq<Literal>, scc: set<QualifiedName>)
    ensures SccAtomCount(body, scc) == 0 <==> forall i :: 0 <= i < |body| ==> !IsSccAtom(body[i], scc)
    ensures SccAtomCount(body, scc) == |body| <==> forall i :: 0 <= i < |body| ==> IsSccAtom(body[i], scc)
  {
    if |body| > 0 {
      var pre := body[..|body| - 1];
      SccAtomCountExtremes(pre, scc);
      assert forall i :: 0 <= i < |pre| ==> pre[i] == body[i];
    }
  }

  /** The largest version of a plan, or -1 for a plan without orders. */
  function MaxKey(entries: seq<PlanEntry>): (r: int)
    ensures r >= -1
  {
    if |entries| == 0 then -1
    else
      var m := MaxKey(entries[..|entries| - 1]);
      var last := entries[|entries| - 1].version;
      if last > m then last else m
  }

  /** The largest version bounds every version and, unless it is -1, is one of them;
      without orders it is -1. */
  lemma {:induction false} MaxKeyIsMaximum(entries: seq<PlanEntry>)
    ensures forall i :: 0 <= i < |entries| ==> entries[i].version <= MaxKey(entries)
    ensures |entries| == 0 ==> MaxKey(entries) == -1
    ensures |entries| > 0 && MaxKey(entries) > -1 ==> exists i :: 0 <= i < |entries| && entries[i].version == MaxKey(entries)
  {
    if |entries| > 0 {
      var pre := entries[..|entries| - 1];
      MaxKeyIsMaximum(pre);
      assert forall i :: 0 <= i < |pre| ==> pre[i] == entries[i];
      if entries[|entries| - 1].version > MaxKey(pre) {
        assert entries[|entries| - 1].version == MaxKey(entries);
      } else if MaxKey(entries) > -1 {
        var i :| 0 <= i < |pre| && pre[i].version == MaxKey(pre);
        assert entries[i].version == MaxKey(entries);
      }
    }
  }

  /** The versions of a plan at or above `version`, in plan order. */
  function Offending(entries: seq<PlanEntry>, version: int): seq<int>
  {
    if |entries| == 0 then []
    else
      var e := entries[|entries| - 1];
      Offending(entries[..|entries| - 1], version) + (if e.version >= version then [e.version] else [])
  }

  lemma {:induction false} OffendingMembers(entries: seq<PlanEntry>, version: int, x: int)
    ensures x in Offending(entries, version) <==>
      exists i :: 0 <= i < |entries| && entries[i].version == x && x >= version
  {
    if |entries| > 0 {
      var pre := entries[..|entries| - 1];
      OffendingMembers(pre, version, x);
      assert forall i :: 0 <= i < |pre| ==> pre[i] == entries[i];
      if exists i :: 0 <= i < |entries| && entries[i].version == x && x >= version {
        var i :| 0 <= i < |entries| && entries[i].version == x && x >= version;
        if i < |pre| { assert pre[i].version == x; }
      }
    }
  }

  /** No version lies at or above a count that exceeds the largest version. */
  lemma {:induction false} OffendingAboveMax(entries: seq<PlanEntry>, version: int)
    requires version > MaxKey(entries)
    ensures Offending(entries, version) == []
  {
    if |entries| > 0 {
      OffendingAboveMax(entries[..|entries| - 1], version);
    }
  }

  /** The two messages of the error for an order of version `key` when `version`
      versions exist. */
  function VersionDiagnostic(key: int, version: int): Diagnostic
  {
    Diagnostic([Text("execution plan for version "), Number(key)],
      [[Text("only versions 0.."), Number(version - 1), Text(" permitted")]])
  }

  /** The texts of that error. */
  lemma VersionDiagnosticText(key: int, version: int)
    ensures Render(VersionDiagnostic(key, version).message) == "execution plan for version " + IntToString(key)
    ensures Render(VersionDiagnostic(key, version).notes[0]) ==
      "only versions 0.." + IntToString(version - 1) + " permitted"
  {
    var d := VersionDiagnostic(key, version);
    var m := d.message;
    assert Render(m[1..]) == IntToString(key) + Render(m[1..][1..]);
    assert Render(m[1..][1..]) == "";
    var n := d.notes[0];
    var n1, n2, n3 := n[1..], n[1..][1..], n[1..][1..][1..];
    assert Render(n3) == "";
    assert Render(n2) == " permitted";
    assert Render(n1) == IntToString(version - 1) + " permitted";
    assert Render(n) == "only versions 0.." + Render(n1);
  }

  /** The errors for the orders at or above `version`, in plan order. */
  function PlanDiagnostics(entries: seq<PlanEntry>, version: int): seq<Diagnostic>
  {
    if |entries| == 0 then []
    else
      var e := entries[|entries| - 1];
      PlanDiagnostics(entries[..|entries| - 1], version)
        + (if e.version >= version then [VersionDiagnostic(e.version, version)] else [])
  }

  /** One error per offending version, in the same order. */
  lemma {:induction false} PlanDiagnosticsAreOffending(entries: seq<PlanEntry>, version: int)
    ensures var d := PlanDiagnostics(entries, version); var o := Offending(entries, version);
      |d| == |o| && forall k :: 0 <= k < |d| ==> d[k] == VersionDiagnostic(o[k], version)
  {
    if |entries| > 0 {
      PlanDiagnosticsAreOffending(entries[..|entries| - 1], version);
    }
  }

  /** What the checker reports for one clause of the SCC `scc`. */
  function ClauseDiagnostics(c: Clause, scc: set<QualifiedName>, recursive: Clause -> bool): seq<Diagnostic>
  {
    if !recursive(c) || c.plan.None? then []
    else
      var version := SccAtomCount(c.body, scc);
      var entries := c.plan.value.entries;
      if version <= MaxKey(entries) then PlanDiagnostics(entries, version) else []
  }

  /** The test against the largest version only saves work: a recursive clause with
      a plan gets one error per order of a version at or above its count, and none
      for the others. */
  lemma ClauseDiagnosticsExact(c: Clause, scc: set<QualifiedName>, recursive: Clause -> bool)
    requires recursive(c) && c.plan.Some?
    ensures var version := SccAtomCount(c.body, scc); var o := Offending(c.plan.value.entries, version);
      var d := ClauseDiagnostics(c, scc, recursive);
      |d| == |o| && forall k :: 0 <= k < |d| ==> d[k] == VersionDiagnostic(o[k], version)
  {
    var version := SccAtomCount(c.body, scc);
    var entries := c.plan.value.entries;
    PlanDiagnosticsAreOffending(entries, version);
    if version > MaxKey(entries) {
      OffendingAboveMax(entries, version);
    }
  }

  /** A clause is reported exactly when it is recursive, has a plan, and the plan
      names a version at or above the clause's count. */
  lemma ClauseReportedIff(c: Clause, scc: set<QualifiedName>, recursive: Clause -> bool)
    ensures ClauseDiagnostics(c, scc, recursive) != [] <==>
      recursive(c) && c.plan.Some? &&
      exists i :: 0 <= i < |c.plan.value.entries| && c.plan.value.entries[i].version >= SccAtomCount(c.body, scc)
  {
    if recursive(c) && c.plan.Some? {
      ClauseDiagnosticsExact(c, scc, recursive);
      var version := SccAtomCount(c.body, scc);
      var entries := c.plan.value.entries;
      var o := Offending(entries, version);
      if exists i :: 0 <= i < |entries| && entries[i].version >= version {
        var i :| 0 <= i < |entries| && entries[i].version >= version;
        OffendingMembers(entries, version, entries[i].version);
      }
      if |o| > 0 {
        OffendingMembers(entries, version, o[0]);
      }
    }
  }

  /** In a valid plan the reported versions are strictly ascending. */
  lemma {:induction false} OffendingAscending(entries: seq<PlanEntry>, version: int)
    requires ExecutionPlans.Ascending(entries)
    ensures var o := Offending(entries, version); forall i, j :: 0 <= i < j < |o| ==> o[i] < o[j]
  {
    if |entries| > 0 {
      var pre := entries[..|entries| - 1];
      var e := entries[|entries| - 1];
      OffendingAscending(pre, version);
      var o := Offending(pre, version);
      forall k | 0 <= k < |o| ensures o[k] < e.version {
        OffendingMembers(pre, version, o[k]);
        var i :| 0 <= i < |pre| && pre[i].version == o[k] && o[k] >= version;
        assert pre[i] == entries[i];
      }
      var r := Offending(entries, version);
      assert r == o + (if e.version >= version then [e.version] else []);
      forall i, j | 0 <= i < j < |r| ensures r[i] < r[j] {
        if j < |o| { assert r[i] == o[i] && r[j] == o[j]; }
      }
    }
  }

  function ClausesDiagnostics(cs: seq<Clause>, scc: set<QualifiedName>, recursive: Clause -> bool): seq<Diagnostic>
  {
    if |cs| == 0 then []
    else ClausesDiagnostics(cs[..|cs| - 1], scc, recursive) + ClauseDiagnostics(cs[|cs| - 1], scc, recursive)
  }

  lemma ClausesDiagnosticsStep(cs: seq<Clause>, i: nat, scc: set<QualifiedName>, recursive: Clause -> bool)
    requires i < |cs|
    ensures ClausesDiagnostics(cs[..i + 1], scc, recursive) ==
      ClausesDiagnostics(cs[..i], scc, recursive) + ClauseDiagnostics(cs[i], scc, recursive)
  {
    assert cs[..i + 1][..i] == cs[..i];
  }

  /** The diagnostics for the clauses of the relations `rels` of the SCC `scc`. */
  function RelationsDiagnostics(clauses: seq<Clause>, rels: seq<QualifiedName>, scc: set<QualifiedName>,
                                recursive: Clause -> bool): seq<Diagnostic>
  {
    if |rels| == 0 then []
    else
      var rel := rels[|rels| - 1];
      RelationsDiagnostics(clauses, rels[..|rels| - 1], scc, recursive)
        + ClausesDiagnostics(ClausesOf(clauses, rel), scc, recursive)
  }

  lemma RelationsDiagnosticsStep(clauses: seq<Clause>, rels: seq<QualifiedName>, k: nat,
                                 scc: set<QualifiedName>, recursive: Clause -> bool)
    requires k < |rels|
    ensures RelationsDiagnostics(clauses, rels[..k + 1], scc, recursive) ==
      RelationsDiagnostics(clauses, rels[..k], scc, recursive)
        + ClausesDiagnostics(ClausesOf(clauses, rels[k]), scc, recursive)
  {
    assert rels[..k + 1][..k] == rels[..k];
  }

  /** The diagnostics of the whole schedule, step by step. */
  function ScheduleDiagnostics(clauses: seq<Clause>, schedule: seq<seq<QualifiedName>>,
                               recursive: Clause -> bool): seq<Diagnostic>
  {
    if |schedule| == 0 then []
    else
      var step := schedule[|schedule| - 1];
      ScheduleDiagnostics(clauses, schedule[..|schedule| - 1], recursive)
        + RelationsDiagnostics(clauses, step, Members(step), recursive)
  }

  lemma {:induction false} NoCandidateClausesClean(cs: seq<Clause>, scc: set<QualifiedName>, recursive: Clause -> bool)
    requires forall c :: c in cs ==> !recursive(c) || c.plan.None?
    ensures ClausesDiagnostics(cs, scc, recursive) == []
  {
    if |cs| > 0 {
      NoCandidateClausesClean(cs[..|cs| - 1], scc, recursive);
    }
  }

  lemma {:induction false} NoCandidateRelationsClean(clauses: seq<Clause>, rels: seq<QualifiedName>,
                                                     scc: set<QualifiedName>, recursive: Clause -> bool)
    requires forall c :: c in clauses ==> !recursive(c) || c.plan.None?
    ensures RelationsDiagnostics(clauses, rels, scc, recursive) == []
  {
    if |rels| > 0 {
      NoCandidateRelationsClean(clauses, rels[..|rels| - 1], scc, recursive);
      ClausesOfMembers(clauses, rels[|rels| - 1]);
      NoCandidateClausesClean(ClausesOf(clauses, rels[|rels| - 1]), scc, recursive);
    }
  }

  /** A program without a recursive clause that carries a plan gets no diagnostics. */
  lemma {:induction false} NoCandidatesNoDiagnostics(clauses: seq<Clause>, schedule: seq<seq<QualifiedName>>,
                                                     recursive: Clause -> bool)
    requires forall c :: c in clauses ==> !recursive(c) || c.plan.None?
    ensures ScheduleDiagnostics(clauses, schedule, recursive) == []
  {
    if |schedule| > 0 {
      var step := schedule[|schedule| - 1];
      NoCandidatesNoDiagnostics(clauses, schedule[..|schedule| - 1], recursive);
      NoCandidateRelationsClean(clauses, step, Members(step), recursive);
    }
  }

  /** The `version++` loop over the body atoms. */
  method CountVersion(body: seq<Literal>, scc: set<QualifiedName>) returns (version: int)
    ensures version == SccAtomCount(body, scc)
  {
    version := 0;
    var i := 0;
    while i < |body|
      invariant 0 <= i <= |body|
      invariant version == SccAtomCount(body[..i], scc)
    {
      assert body[..i + 1][..i] == body[..i];
      if body[i].AtomLiteral? && body[i].atom.name in scc {
        version := version + 1;
      }
      i := i + 1;
    }
    assert body[..i] == body;
  }

  /** The running maximum over the plan's versions. */
  method MaxVersion(entries: seq<PlanEntry>) returns (maxVersion: int)
    ensures maxVersion == MaxKey(entries)
  {
    maxVersion := -1;
    var i := 0;
    while i < |entries|
      invariant 0 <= i <= |entries|
      invariant maxVersion == MaxKey(entries[..i])
    {
      assert entries[..i + 1][..i] == entries[..i];
      if entries[i].version > maxVersion {
        maxVersion := entries[i].version;
      }
      i := i + 1;
    }
    assert entries[..i] == entries;
  }

  /** The body of the innermost loop: one clause of one relation of the SCC. */
  method CheckClause(c: Clause, scc: set<QualifiedName>, recursive: Clause -> bool, report: ErrorReport)
    modifies report
    ensures report.diagnostics == old(report.diagnostics) + ClauseDiagnostics(c, scc, recursive)
  {
    if !recursive(c) || c.plan.None? {
      return;
    }
    var version := CountVersion(c.body, scc);
    var entries := c.plan.value.entries;
    var maxVersion := MaxVersion(entries);
    if version <= maxVersion {
      var i := 0;
      while i < |entries|
        invariant 0 <= i <= |entries|
        invariant report.diagnostics == old(report.diagnostics) + PlanDiagnostics(entries[..i], version)
      {
        assert entries[..i + 1][..i] == entries[..i];
        if entries[i].version >= version {
          report.AddDiagnostic(VersionDiagnostic(entries[i].version, version));
          AppendAssociative(old(report.diagnostics), PlanDiagnostics(entries[..i], version),
            [VersionDiagnostic(entries[i].version, version)]);
        }
        i := i + 1;
      }
      assert entries[..i] == entries;
    }
  }

  /** The loop over the clauses of one relation. */
  method CheckClauses(cs: seq<Clause>, scc: set<QualifiedName>, recursive: Clause -> bool, report: ErrorReport)
    modifies report
    ensures report.diagnostics == old(report.diagnostics) + ClausesDiagnostics(cs, scc, recursive)
  {
    var i := 0;
    while i < |cs|
      invariant 0 <= i <= |cs|
      invariant report.diagnostics == old(report.diagnostics) + ClausesDiagnostics(cs[..i], scc, recursive)
    {
      CheckClause(cs[i], scc, recursive, report);
      ClausesDiagnosticsStep(cs, i, scc, recursive);
      AppendAssociative(old(report.diagnostics), ClausesDiagnostics(cs[..i], scc, recursive),
        ClauseDiagnostics(cs[i], scc, recursive));
      i := i + 1;
    }
    assert cs[..i] == cs;
  }

  /** One step of the schedule: the clauses of each of its relations in turn. */
  method CheckStep(clauses: seq<Clause>, step: seq<QualifiedName>, recursive: Clause -> bool, report: ErrorReport)
    modifies report
    ensures report.diagnostics == old(report.diagnostics) + RelationsDiagnostics(clauses, step, Members(step), recursive)
  {
    var scc := Members(step);
    var k := 0;
    while k < |step|
      invariant 0 <= k <= |step|
      invariant report.diagnostics == old(report.diagnostics) + RelationsDiagnostics(clauses, step[..k], scc, recursive)
    {
      CheckClauses(ClausesOf(clauses, step[k]), scc, recursive, report);
      RelationsDiagnosticsStep(clauses, step, k, scc, recursive);
      AppendAssociative(old(report.diagnostics), RelationsDiagnostics(clauses, step[..k], scc, recursive),
        ClausesDiagnostics(ClausesOf(clauses, step[k]), scc, recursive));
      k := k + 1;
    }
    assert step[..k] == step;
  }

  /** `AstExecutionPlanChecker::transform`: the diagnostics of every step of the
      schedule are appended to the report; the program is only read, and the pass
      reports that it changed nothing. */
  method Transform(program: Programs.AstProgram, schedule: seq<seq<QualifiedName>>,
                   recursive: Clause -> bool, report: ErrorReport) returns (changed: bool)
    modifies report
    ensures !changed
    ensures report.diagnostics == old(report.diagnostics) + ScheduleDiagnostics(program.clauses, schedule, recursive)
  {
    var clauses := program.clauses;
    var s := 0;
    while s < |schedule|
      invariant 0 <= s <= |schedule|
      invariant report.diagnostics == old(report.diagnostics) + ScheduleDiagnostics(clauses, schedule[..s], recursive)
    {
      assert schedule[..s + 1][..s] == schedule[..s];
      CheckStep(clauses, schedule[s], recursive, report);
      AppendAssociative(old(report.diagnostics), ScheduleDiagnostics(clauses, schedule[..s], recursive),
        RelationsDiagnostics(clauses, schedule[s], Members(schedule[s]), recursive));
      s := s + 1;
    }
    assert schedule[..s] == schedule;
    changed := false;
  }
}
