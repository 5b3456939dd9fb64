/** The IO classification (`IOType.cpp`): every directive of the program, components
    included, that names a declared relation puts that relation into the input,
    output, printsize or limitsize set, and a limitsize directive also records its
    limit `n`. Relations are identified by their qualified names, which is what
    `getRelation` looks them up by. */
module IOTypes {
  import opened QualifiedNames
  import opened Ast
  import opened Programs

  /** The directives in the order of the depth-first visit: a program's children are
      visited components first and its own directives last, and a component's nested
      components before its own directives. */
  function ComponentDirectives(c: Component): seq<Directive>
    decreases c
  {
    ComponentsDirectives(c.components) + c.directives
  }

  function ComponentsDirectives(cs: seq<Component>): seq<Directive>
    decreases cs
  {
    if |cs| == 0 then [] else ComponentDirectives(cs[0]) + ComponentsDirectives(cs[1..])
  }

  function AllDirectives(p: Program): seq<Directive>
  {
    ComponentsDirectives(p.components) + p.directives
  }

  /** The relations named by directives of one of the given kinds that name a
      declared relation. */
  function Named(dirs: seq<Directive>, p: Program, kinds: set<DirectiveKind>): set<QualifiedName>
  {
    if |dirs| == 0 then {}
    else
      var d := dirs[|dirs| - 1];
      Named(dirs[..|dirs| - 1], p, kinds) + (if d.kind in kinds && IsDeclared(p, d.name) then {d.name} else {})
  }

  /** A relation is in the set exactly when some directive of one of the kinds names
      it and it is declared: neither the order nor the repetition of directives
      matters. */
  lemma {:induction false} NamedMembers(dirs: seq<Directive>, p: Program, kinds: set<DirectiveKind>, x: QualifiedName)
    ensures x in Named(dirs, p, kinds) <==>
      exists d :: d in dirs && d.kind in kinds && IsDeclared(p, d.name) && d.name == x
  {
    if |dirs| > 0 {
      var pre := dirs[..|dirs| - 1];
      var d := dirs[|dirs| - 1];
      NamedMembers(pre, p, kinds, x);
      assert dirs == pre + [d];
      if exists e :: e in dirs && e.kind in kinds && IsDeclared(p, e.name) && e.name == x {
        var e :| e in dirs && e.kind in kinds && IsDeclared(p, e.name) && e.name == x;
        if e != d { assert e in pre; }
      }
    }
  }

  /** Two directive lists with the same elements give the same sets. */
  lemma NamedIgnoresOrder(d1: seq<Directive>, d2: seq<Directive>, p: Program, kinds: set<DirectiveKind>)
    requires forall d :: d in d1 <==> d in d2
    ensures Named(d1, p, kinds) == Named(d2, p, kinds)
  {
    forall x ensures x in Named(d1, p, kinds) <==> x in Named(d2, p, kinds) {
      NamedMembers(d1, p, kinds, x);
      NamedMembers(d2, p, kinds, x);
    }
  }

  /** Only declared relations are ever classified. */
  lemma NamedAreDeclared(dirs: seq<Directive>, p: Program, kinds: set<DirectiveKind>, x: QualifiedName)
    requires x in Named(dirs, p, kinds)
    ensures IsDeclared(p, x)
  {
    NamedMembers(dirs, p, kinds, x);
  }

  /** Every limitsize directive that is not ignored carries the key "n", as the
      repository asserts. */
  predicate LimitsHaveN(dirs: seq<Directive>, p: Program)
  {
    forall i :: 0 <= i < |dirs| && dirs[i].kind == LimitSize && IsDeclared(p, dirs[i].name) ==> "n" in dirs[i].params
  }

  /** The limit map after one directive. */
  function LimitAfter(m: map<QualifiedName, int>, d: Directive, p: Program, toInt: string -> int): map<QualifiedName, int>
    requires d.kind == LimitSize && IsDeclared(p, d.name) ==> "n" in d.params
  {
    if d.kind == LimitSize && IsDeclared(p, d.name) then m[d.name := toInt(d.params["n"])] else m
  }

  /** The limit map after the directives: a later limitsize directive overwrites an
      earlier one for the same relation. */
  function Limits(m: map<QualifiedName, int>, dirs: seq<Directive>, p: Program, toInt: string -> int): map<QualifiedName, int>
    requires LimitsHaveN(dirs, p)
  {
    if |dirs| == 0 then m
    else LimitAfter(Limits(m, dirs[..|dirs| - 1], p, toInt), dirs[|dirs| - 1], p, toInt)
  }

  /** The relations with a limit are those in the limitsize set. */
  lemma {:induction false} LimitsKeys(m: map<QualifiedName, int>, dirs: seq<Directive>, p: Program, toInt: string -> int)
    requires LimitsHaveN(dirs, p)
    ensures Limits(m, dirs, p, toInt).Keys == m.Keys + Named(dirs, p, {LimitSize})
  {
    if |dirs| > 0 {
      LimitsKeys(m, dirs[..|dirs| - 1], p, toInt);
    }
  }

  /** The limit of a relation is the `n` of the last limitsize directive naming it. */
  lemma {:induction false} LastLimitWins(m: map<QualifiedName, int>, pre: seq<Directive>, d: Directive,
                                          post: seq<Directive>, p: Program, toInt: string -> int)
    requires LimitsHaveN(pre + [d] + post, p)
    requires d.kind == LimitSize && IsDeclared(p, d.name)
    requires forall e :: e in post && e.kind == LimitSize ==> e.name != d.name
    ensures "n" in d.params
    ensures d.name in Limits(m, pre + [d] + post, p, toInt)
    ensures Limits(m, pre + [d] + post, p, toInt)[d.name] == toInt(d.params["n"])
    decreases |post|
  {
    var dirs := pre + [d] + post;
    assert dirs[|pre|] == d;
    if |post| == 0 {
      assert dirs[..|dirs| - 1] == pre;
    } else {
      var post' := post[..|post| - 1];
      assert dirs[..|dirs| - 1] == pre + [d] + post';
      assert dirs[|dirs| - 1] == post[|post| - 1];
      assert LimitsHaveN(pre + [d] + post', p) by {
        forall i | 0 <= i < |pre + [d] + post'| ensures (pre + [d] + post')[i] == dirs[i] { }
      }
      LastLimitWins(m, pre, d, post', p, toInt);
    }
  }

  lemma NamedStep(dirs: seq<Directive>, i: nat, p: Program, kinds: set<DirectiveKind>)
    requires i < |dirs|
    ensures Named(dirs[..i + 1], p, kinds) ==
      Named(dirs[..i], p, kinds) + (if dirs[i].kind in kinds && IsDeclared(p, dirs[i].name) then {dirs[i].name} else {})
  {
    assert dirs[..i + 1][..i] == dirs[..i];
  }

  lemma LimitsStep(m: map<QualifiedName, int>, dirs: seq<Directive>, i: nat, p: Program, toInt: string -> int)
    requires i < |dirs| && LimitsHaveN(dirs[..i + 1], p)
    ensures LimitsHaveN(dirs[..i], p)
    ensures Limits(m, dirs[..i + 1], p, toInt) == LimitAfter(Limits(m, dirs[..i], p, toInt), dirs[i], p, toInt)
  {
    assert dirs[..i + 1][..i] == dirs[..i];
    assert forall j :: 0 <= j < i ==> dirs[..i + 1][j] == dirs[..i][j];
  }

  lemma LimitsHaveNStep(dirs: seq<Directive>, i: nat, p: Program)
    requires i < |dirs| && LimitsHaveN(dirs[..i], p)
    ensures LimitsHaveN(dirs[..i + 1], p) <==>
      (dirs[i].kind == LimitSize && IsDeclared(p, dirs[i].name) ==> "n" in dirs[i].params)
  {
    assert forall j :: 0 <= j < i ==> dirs[..i + 1][j] == dirs[..i][j];
  }

  lemma LimitsHaveNPrefix(dirs: seq<Directive>, i: nat, p: Program)
    requires i < |dirs| && !LimitsHaveN(dirs[..i + 1], p)
    ensures !LimitsHaveN(dirs, p)
  {
    var j :| 0 <= j < i + 1 && dirs[..i + 1][j].kind == LimitSize && IsDeclared(p, dirs[..i + 1][j].name)
      && "n" !in dirs[..i + 1][j].params;
    assert dirs[j] == dirs[..i + 1][j];
  }

  /** The five result sets after the directives `dirs`, starting from the given ones. */
  predicate Summarises(in0: set<QualifiedName>, out0: set<QualifiedName>, ps0: set<QualifiedName>,
                       ls0: set<QualifiedName>, lm0: map<QualifiedName, int>,
                       ins: set<QualifiedName>, outs: set<QualifiedName>, ps: set<QualifiedName>,
                       ls: set<QualifiedName>, lm: map<QualifiedName, int>,
                       dirs: seq<Directive>, p: Program, toInt: string -> int)
    requires LimitsHaveN(dirs, p)
  {
    ins == in0 + Named(dirs, p, {Input}) &&
    outs == out0 + Named(dirs, p, {Output, PrintSize}) &&
    ps == ps0 + Named(dirs, p, {PrintSize}) &&
    ls == ls0 + Named(dirs, p, {LimitSize}) &&
    lm == Limits(lm0, dirs, p, toInt)
  }

  /** One visited directive extends the summary of a prefix to the next prefix. */
  lemma SummarisesStep(in0: set<QualifiedName>, out0: set<QualifiedName>, ps0: set<QualifiedName>,
                       ls0: set<QualifiedName>, lm0: map<QualifiedName, int>,
                       ins: set<QualifiedName>, outs: set<QualifiedName>, ps: set<QualifiedName>,
                       ls: set<QualifiedName>, lm: map<QualifiedName, int>,
                       ins': set<QualifiedName>, outs': set<QualifiedName>, ps': set<QualifiedName>,
                       ls': set<QualifiedName>, lm': map<QualifiedName, int>,
                       dirs: seq<Directive>, i: nat, p: Program, toInt: string -> int)
    requires i < |dirs| && LimitsHaveN(dirs[..i + 1], p)
    requires LimitsHaveN(dirs[..i], p)
    requires Summarises(in0, out0, ps0, ls0, lm0, ins, outs, ps, ls, lm, dirs[..i], p, toInt)
    requires var d := dirs[i]; var declared := IsDeclared(p, d.name);
      ins' == ins + (if d.kind == Input && declared then {d.name} else {}) &&
      outs' == outs + (if d.kind in {Output, PrintSize} && declared then {d.name} else {}) &&
      ps' == ps + (if d.kind == PrintSize && declared then {d.name} else {}) &&
      ls' == ls + (if d.kind == LimitSize && declared then {d.name} else {}) &&
      lm' == LimitAfter(lm, d, p, toInt)
    ensures Summarises(in0, out0, ps0, ls0, lm0, ins', outs', ps', ls', lm', dirs[..i + 1], p, toInt)
  {
    var d := dirs[i];
    var declared := IsDeclared(p, d.name);
    NamedStep(dirs, i, p, {Input});
    UnionStep(in0, ins, ins', Named(dirs[..i], p, {Input}), Named(dirs[..i + 1], p, {Input}),
              if d.kind == Input && declared then {d.name} else {});
    NamedStep(dirs, i, p, {Output, PrintSize});
    UnionStep(out0, outs, outs', Named(dirs[..i], p, {Output, PrintSize}), Named(dirs[..i + 1], p, {Output, PrintSize}),
              if d.kind in {Output, PrintSize} && declared then {d.name} else {});
    NamedStep(dirs, i, p, {PrintSize});
    UnionStep(ps0, ps, ps', Named(dirs[..i], p, {PrintSize}), Named(dirs[..i + 1], p, {PrintSize}),
              if d.kind == PrintSize && declared then {d.name} else {});
    NamedStep(dirs, i, p, {LimitSize});
    UnionStep(ls0, ls, ls', Named(dirs[..i], p, {LimitSize}), Named(dirs[..i + 1], p, {LimitSize}),
              if d.kind == LimitSize && declared then {d.name} else {});
    LimitsStep(lm0, dirs, i, p, toInt);
  }

  /** A set built up from a start by adding a growing collection. */
  lemma UnionStep<T>(start: set<T>, now: set<T>, next: set<T>, added: set<T>, added': set<T>, e: set<T>)
    requires now == start + added && next == now + e && added' == added + e
    ensures next == start + added'
  {
  }

  /** The analysis with its five result fields. */
  class IOType {
    var inputRelations: set<QualifiedName>
    var outputRelations: set<QualifiedName>
    var printSizeRelations: set<QualifiedName>
    var limitSizeRelations: set<QualifiedName>
    var limitSize: map<QualifiedName, int>

    constructor ()
      ensures inputRelations == {} && outputRelations == {} && printSizeRelations == {}
      ensures limitSizeRelations == {} && limitSize == map[]
    {
      inputRelations, outputRelations, printSizeRelations := {}, {}, {};
      limitSizeRelations, limitSize := {}, map[];
    }

    /** The visitor's body for one directive: a directive naming an undeclared
        relation is ignored; otherwise the `switch` on its kind. `ok` is false when
        a limitsize directive has no "n". */
    method Visit(program: Program, d: Directive, toInt: string -> int) returns (ok: bool)
      modifies this
      ensures var declared := IsDeclared(program, d.name);
        ok <==> (d.kind == LimitSize && declared ==> "n" in d.params)
      ensures var declared := IsDeclared(program, d.name);
        ok ==>
          inputRelations == old(inputRelations) + (if d.kind == Input && declared then {d.name} else {}) &&
          outputRelations == old(outputRelations) + (if d.kind in {Output, PrintSize} && declared then {d.name} else {}) &&
          printSizeRelations == old(printSizeRelations) + (if d.kind == PrintSize && declared then {d.name} else {}) &&
          limitSizeRelations == old(limitSizeRelations) + (if d.kind == LimitSize && declared then {d.name} else {}) &&
          limitSize == LimitAfter(old(limitSize), d, program, toInt)
    {
      var declared := exists i :: 0 <= i < |program.relations| && program.relations[i].name == d.name;
      if !declared {
        return true;
      }
      ok := true;
      match d.kind
      case Input => inputRelations := inputRelations + {d.name};
      case Output => outputRelations := outputRelations + {d.name};
      case PrintSize =>
        printSizeRelations := printSizeRelations + {d.name};
        outputRelations := outputRelations + {d.name};
      case LimitSize =>
        limitSizeRelations := limitSizeRelations + {d.name};
        if "n" !in d.params {
          return false;
        }
        limitSize := limitSize[d.name := toInt(d.params["n"])];
    }

    /** `run`: the directives are visited in order and classified by kind. The
        visit stops, with `ok` false, at a limitsize directive of a declared relation
        without an "n" (where the repository's assertion fails); `toInt` stands for
        `stoi`. */
    method Run(program: Program, toInt: string -> int) returns (ok: bool)
      modifies this
      ensures ok <==> LimitsHaveN(AllDirectives(program), program)
      ensures var dirs := AllDirectives(program);
        ok ==>
          inputRelations == old(inputRelations) + Named(dirs, program, {Input}) &&
          outputRelations == old(outputRelations) + Named(dirs, program, {Output, PrintSize}) &&
          printSizeRelations == old(printSizeRelations) + Named(dirs, program, {PrintSize}) &&
          limitSizeRelations == old(limitSizeRelations) + Named(dirs, program, {LimitSize}) &&
          limitSize == Limits(old(limitSize), dirs, program, toInt)
    {
      var dirs := AllDirectives(program);
      var i := 0;
      while i < |dirs|
        invariant 0 <= i <= |dirs|
        invariant LimitsHaveN(dirs[..i], program)
        invariant Summarises(old(inputRelations), old(outputRelations), old(printSizeRelations),
                             old(limitSizeRelations), old(limitSize),
                             inputRelations, outputRelations, printSizeRelations, limitSizeRelations, limitSize,
                             dirs[..i], program, toInt)
      {
        LimitsHaveNStep(dirs, i, program);
        ghost var ins, outs, ps, ls, lm := inputRelations, outputRelations, printSizeRelations, limitSizeRelations, limitSize;
        var visited := Visit(program, dirs[i], toInt);
        if !visited {
          LimitsHaveNPrefix(dirs, i, program);
          return false;
        }
        SummarisesStep(old(inputRelations), old(outputRelations), old(printSizeRelations),
                       old(limitSizeRelations), old(limitSize), ins, outs, ps, ls, lm,
                       inputRelations, outputRelations, printSizeRelations, limitSizeRelations, limitSize,
                       dirs, i, program, toInt);
        i := i + 1;
      }
      assert dirs[..i] == dirs;
      ok := true;
    }
  }
}
