/** The nullary-atom inserter (`AddNullariesToAtomlessAggregates.cpp`). Every
    aggregate of the program whose body has no atom among its literals gets a
    `+Tautology()` atom appended to its body; the first time this happens in a
    program that declares no `+Tautology` relation, the relation and the fact
    `+Tautology().` are added to the program. */
module AddNullaries {
  import opened Util
  import opened QualifiedNames
  import opened Ast
  import opened Components
  import opened Programs

  const TautologyName: QualifiedName := Simple("+Tautology")

  /** The nullary atom `+Tautology()`. */
  const TautologyAtom: Atom := Atom(TautologyName, [])

  /** `.decl +Tautology()`. */
  const TautologyRelation: Relation := Relation(TautologyName, [])

  /** The fact `+Tautology().`: the nullary atom as head, no body, no plan. */
  const TautologyFact: Clause := Clause(TautologyAtom, [], None)

  /** Some literal of the body is an atom (a negation does not count). */
  predicate HasAtom(body: seq<Literal>)
  {
    exists i :: 0 <= i < |body| && body[i].AtomLiteral?
  }

  /** The new body of one aggregate: unchanged if it has an atom, otherwise the old
      literals in order followed by the nullary atom. */
  function ExtendBody(body: seq<Literal>): (r: seq<Literal>)
    ensures HasAtom(r)
    ensures HasAtom(body) ==> r == body
    ensures !HasAtom(body) ==>
      |r| == |body| + 1 && r[..|body|] == body && r[|body|] == AtomLiteral(TautologyAtom)
  {
    if HasAtom(body) then body
    else
      var r := body + [AtomLiteral(TautologyAtom)];
      assert r[|body|].AtomLiteral?;
      r
  }

  /** The work done for one aggregate: the `seenAtom` scan, and when no atom was seen
      the new body built literal by literal. `extended` tells whether the body
      changed, which is when the pass records a change. */
  method ExtendAggregateBody(body: seq<Literal>) returns (newBody: seq<Literal>, extended: bool)
    ensures newBody == ExtendBody(body)
    ensures extended <==> !HasAtom(body)
  {
    var seenAtom := false;
    var i := 0;
    while i < |body|
      invariant 0 <= i <= |body|
      invariant seenAtom <==> exists k :: 0 <= k < i && body[k].AtomLiteral?
    {
      if body[i].AtomLiteral? {
        seenAtom := true;
      }
      i := i + 1;
    }
    if seenAtom {
      return body, false;
    }
    newBody := [];
    i := 0;
    while i < |body|
      invariant 0 <= i <= |body|
      invariant newBody == body[..i]
    {
      newBody := newBody + [body[i]];
      i := i + 1;
    }
    newBody := newBody + [AtomLiteral(TautologyAtom)];
    extended := true;
  }

  // ---- the rewrite of every aggregate of the program ----

  /** The visit reaches an aggregate before its children, so the literals it then
      descends into are those of the extended body. */
  function AddArg(a: Argument): (r: Argument)
    ensures r.Aggregator? == a.Aggregator?
    decreases a, 1
  {
    match a
    case TypeCast(v, t) => TypeCast(AddArg(v), t)
    case RecordInit(xs) => RecordInit(AddArgs(xs))
    case BranchInit(c, xs) => BranchInit(c, AddArgs(xs))
    case Functor(f, xs) => Functor(f, AddArgs(xs))
    case Aggregator(op, t, body) =>
      Aggregator(op, AddTarget(t), AddLits(body) + (if HasAtom(body) then [] else [AtomLiteral(TautologyAtom)]))
    case _ => a
  }

  function AddTarget(t: Option<Argument>): (r: Option<Argument>)
    ensures r.Some? == t.Some?
    decreases t
  {
    match t
    case None => None
    case Some(x) => Some(AddArg(x))
  }

  function AddArgs(xs: seq<Argument>): (r: seq<Argument>)
    ensures |r| == |xs|
    ensures forall i :: 0 <= i < |xs| ==> r[i] == AddArg(xs[i])
    decreases xs
  {
    if |xs| == 0 then [] else [AddArg(xs[0])] + AddArgs(xs[1..])
  }

  /** A literal keeps its kind. */
  function AddLit(l: Literal): (r: Literal)
    ensures r.AtomLiteral? == l.AtomLiteral?
    decreases l
  {
    match l
    case AtomLiteral(a) => AtomLiteral(AddAtom(a))
    case NegationLiteral(n) => NegationLiteral(Negation(AddAtom(n.atom)))
    case BinaryConstraint(op, x, y) => BinaryConstraint(op, AddArg(x), AddArg(y))
  }

  function AddLits(xs: seq<Literal>): (r: seq<Literal>)
    ensures |r| == |xs|
    ensures forall i :: 0 <= i < |xs| ==> r[i] == AddLit(xs[i])
    decreases xs
  {
    if |xs| == 0 then [] else [AddLit(xs[0])] + AddLits(xs[1..])
  }

  function AddAtom(a: Atom): (r: Atom)
    ensures r.name == a.name && |r.args| == |a.args|
    decreases a
  {
    Atom(a.name, AddArgs(a.args))
  }

  function AddClause(c: Clause): (r: Clause)
    ensures r.plan == c.plan && r.head.name == c.head.name && |r.body| == |c.body|
  {
    Clause(AddAtom(c.head), AddLits(c.body), c.plan)
  }

  function AddClauses(xs: seq<Clause>): (r: seq<Clause>)
    ensures |r| == |xs|
    ensures forall i :: 0 <= i < |xs| ==> r[i] == AddClause(xs[i])
  {
    if |xs| == 0 then [] else [AddClause(xs[0])] + AddClauses(xs[1..])
  }

  function AddComponent(c: Component): Component
    decreases c
  {
    c.(components := AddComponents(c.components), clauses := AddClauses(c.clauses))
  }

  function AddComponents(xs: seq<Component>): (r: seq<Component>)
    ensures |r| == |xs|
    ensures forall i :: 0 <= i < |xs| ==> r[i] == AddComponent(xs[i])
    decreases xs
  {
    if |xs| == 0 then [] else [AddComponent(xs[0])] + AddComponents(xs[1..])
  }

  // ---- where an atomless aggregate occurs ----

  predicate AtomlessArg(a: Argument)
    decreases a
  {
    match a
    case TypeCast(v, _) => AtomlessArg(v)
    case RecordInit(xs) => AtomlessArgs(xs)
    case BranchInit(_, xs) => AtomlessArgs(xs)
    case Functor(_, xs) => AtomlessArgs(xs)
    case Aggregator(_, t, body) => !HasAtom(body) || AtomlessTarget(t) || AtomlessLits(body)
    case _ => false
  }

  predicate AtomlessTarget(t: Option<Argument>)
    decreases t
  {
    t.Some? && AtomlessArg(t.value)
  }

  predicate AtomlessArgs(xs: seq<Argument>)
    decreases xs
  {
    |xs| > 0 && (AtomlessArg(xs[0]) || AtomlessArgs(xs[1..]))
  }

  predicate AtomlessLit(l: Literal)
    decreases l
  {
    match l
    case AtomLiteral(a) => AtomlessArgs(a.args)
    case NegationLiteral(n) => AtomlessArgs(n.atom.args)
    case BinaryConstraint(_, x, y) => AtomlessArg(x) || AtomlessArg(y)
  }

  predicate AtomlessLits(xs: seq<Literal>)
    decreases xs
  {
    |xs| > 0 && (AtomlessLit(xs[0]) || AtomlessLits(xs[1..]))
  }

  predicate AtomlessClause(c: Clause)
  {
    AtomlessArgs(c.head.args) || AtomlessLits(c.body)
  }

  predicate AtomlessClauses(xs: seq<Clause>)
  {
    |xs| > 0 && (AtomlessClause(xs[0]) || AtomlessClauses(xs[1..]))
  }

  predicate AtomlessComponent(c: Component)
    decreases c
  {
    AtomlessComponents(c.components) || AtomlessClauses(c.clauses)
  }

  predicate AtomlessComponents(xs: seq<Component>)
    decreases xs
  {
    |xs| > 0 && (AtomlessComponent(xs[0]) || AtomlessComponents(xs[1..]))
  }

  /** Some aggregate anywhere in the program, components included, has no atom. */
  predicate AtomlessProgram(p: Program)
  {
    AtomlessComponents(p.components) || AtomlessClauses(p.clauses)
  }

  /** The program after the pass. */
  function AddNullariesProgram(p: Program): Program
  {
    var q := p.(components := AddComponents(p.components), clauses := AddClauses(p.clauses));
    if AtomlessProgram(p) && !IsDeclared(p, TautologyName) then
      q.(relations := q.relations + [TautologyRelation], clauses := q.clauses + [TautologyFact])
    else q
  }

  // ---- after the pass every aggregate has an atom ----

  lemma {:induction false} AddArgHasAtoms(a: Argument)
    ensures !AtomlessArg(AddArg(a))
    decreases a
  {
    match a
    case TypeCast(v, _) => AddArgHasAtoms(v);
    case RecordInit(xs) => AddArgsHasAtoms(xs);
    case BranchInit(_, xs) => AddArgsHasAtoms(xs);
    case Functor(_, xs) => AddArgsHasAtoms(xs);
    case Aggregator(_, t, body) =>
      if t.Some? { AddArgHasAtoms(t.value); }
      AddLitsHasAtoms(body);
      NewBodyHasAtoms(body);
    case _ =>
  }

  /** The body an aggregate gets has an atom and, when its rewritten literals have
      no atomless aggregate, none either. */
  lemma NewBodyHasAtoms(body: seq<Literal>)
    requires !AtomlessLits(AddLits(body))
    ensures var nb := AddLits(body) + (if HasAtom(body) then [] else [AtomLiteral(TautologyAtom)]);
      HasAtom(nb) && !AtomlessLits(nb)
  {
    var nb := AddLits(body) + (if HasAtom(body) then [] else [AtomLiteral(TautologyAtom)]);
    if HasAtom(body) {
      var k :| 0 <= k < |body| && body[k].AtomLiteral?;
      assert nb[k].AtomLiteral?;
      assert nb == AddLits(body);
    } else {
      assert nb[|body|].AtomLiteral?;
      AtomlessLitsAppend(AddLits(body), AtomLiteral(TautologyAtom));
    }
  }

  lemma {:induction false} AddArgsHasAtoms(xs: seq<Argument>)
    ensures !AtomlessArgs(AddArgs(xs))
    decreases xs
  {
    if |xs| > 0 {
      AddArgHasAtoms(xs[0]);
      AddArgsHasAtoms(xs[1..]);
      assert AddArgs(xs)[1..] == AddArgs(xs[1..]);
    }
  }

  lemma {:induction false} AddLitHasAtoms(l: Literal)
    ensures !AtomlessLit(AddLit(l))
    decreases l
  {
    match l
    case AtomLiteral(a) => AddArgsHasAtoms(a.args);
    case NegationLiteral(n) => AddArgsHasAtoms(n.atom.args);
    case BinaryConstraint(_, x, y) => AddArgHasAtoms(x); AddArgHasAtoms(y);
  }

  lemma {:induction false} AddLitsHasAtoms(xs: seq<Literal>)
    ensures !AtomlessLits(AddLits(xs))
    decreases xs
  {
    if |xs| > 0 {
      AddLitHasAtoms(xs[0]);
      AddLitsHasAtoms(xs[1..]);
      assert AddLits(xs)[1..] == AddLits(xs[1..]);
    }
  }

  /** Appending a literal without aggregates adds no atomless aggregate. */
  lemma {:induction false} AtomlessLitsAppend(xs: seq<Literal>, l: Literal)
    requires !AtomlessLits(xs) && !AtomlessLit(l)
    ensures !AtomlessLits(xs + [l])
    decreases xs
  {
    if |xs| == 0 {
      assert (xs + [l])[1..] == [];
    } else {
      AtomlessLitsAppend(xs[1..], l);
      assert (xs + [l])[1..] == xs[1..] + [l];
    }
  }

  lemma {:induction false} AddClausesHasAtoms(xs: seq<Clause>)
    ensures !AtomlessClauses(AddClauses(xs))
  {
    if |xs| > 0 {
      AddArgsHasAtoms(xs[0].head.args);
      AddLitsHasAtoms(xs[0].body);
      AddClausesHasAtoms(xs[1..]);
      assert AddClauses(xs)[1..] == AddClauses(xs[1..]);
    }
  }

  lemma {:induction false} AddComponentsHasAtoms(xs: seq<Component>)
    ensures !AtomlessComponents(AddComponents(xs))
    decreases xs
  {
    if |xs| > 0 {
      AddComponentsHasAtoms(xs[0].components);
      AddClausesHasAtoms(xs[0].clauses);
      AddComponentsHasAtoms(xs[1..]);
      assert AddComponents(xs)[1..] == AddComponents(xs[1..]);
    }
  }

  lemma {:induction false} AtomlessClausesAppend(xs: seq<Clause>, c: Clause)
    requires !AtomlessClauses(xs) && !AtomlessClause(c)
    ensures !AtomlessClauses(xs + [c])
  {
    if |xs| == 0 {
      assert (xs + [c])[1..] == [];
    } else {
      AtomlessClausesAppend(xs[1..], c);
      assert (xs + [c])[1..] == xs[1..] + [c];
    }
  }

  /** After the pass every aggregate of the program has an atom in its body. */
  lemma NoAtomlessAggregateLeft(p: Program)
    ensures !AtomlessProgram(AddNullariesProgram(p))
  {
    AddComponentsHasAtoms(p.components);
    AddClausesHasAtoms(p.clauses);
    if AtomlessProgram(p) && !IsDeclared(p, TautologyName) {
      AtomlessClausesAppend(AddClauses(p.clauses), TautologyFact);
    }
  }

  // ---- a program without atomless aggregates is left as it is ----

  lemma {:induction false} AddArgFixpoint(a: Argument)
    requires !AtomlessArg(a)
    ensures AddArg(a) == a
    decreases a
  {
    match a
    case TypeCast(v, _) => AddArgFixpoint(v);
    case RecordInit(xs) => AddArgsFixpoint(xs);
    case BranchInit(_, xs) => AddArgsFixpoint(xs);
    case Functor(_, xs) => AddArgsFixpoint(xs);
    case Aggregator(_, t, body) =>
      if t.Some? { AddArgFixpoint(t.value); }
      AddLitsFixpoint(body);
      assert AddLits(body) + [] == body;
    case _ =>
  }

  lemma {:induction false} AddArgsFixpoint(xs: seq<Argument>)
    requires !AtomlessArgs(xs)
    ensures AddArgs(xs) == xs
    decreases xs
  {
    if |xs| > 0 {
      AddArgFixpoint(xs[0]);
      AddArgsFixpoint(xs[1..]);
      assert xs == [xs[0]] + xs[1..];
    }
  }

  lemma {:induction false} AddLitFixpoint(l: Literal)
    requires !AtomlessLit(l)
    ensures AddLit(l) == l
    decreases l
  {
    match l
    case AtomLiteral(a) => AddArgsFixpoint(a.args);
    case NegationLiteral(n) => AddArgsFixpoint(n.atom.args);
    case BinaryConstraint(_, x, y) => AddArgFixpoint(x); AddArgFixpoint(y);
  }

  lemma {:induction false} AddLitsFixpoint(xs: seq<Literal>)
    requires !AtomlessLits(xs)
    ensures AddLits(xs) == xs
    decreases xs
  {
    if |xs| > 0 {
      AddLitFixpoint(xs[0]);
      AddLitsFixpoint(xs[1..]);
      assert xs == [xs[0]] + xs[1..];
    }
  }

  lemma {:induction false} AddClausesFixpoint(xs: seq<Clause>)
    requires !AtomlessClauses(xs)
    ensures AddClauses(xs) == xs
  {
    if |xs| > 0 {
      AddArgsFixpoint(xs[0].head.args);
      AddLitsFixpoint(xs[0].body);
      AddClausesFixpoint(xs[1..]);
      assert xs == [xs[0]] + xs[1..];
    }
  }

  lemma {:induction false} AddComponentsFixpoint(xs: seq<Component>)
    requires !AtomlessComponents(xs)
    ensures AddComponents(xs) == xs
    decreases xs
  {
    if |xs| > 0 {
      AddComponentsFixpoint(xs[0].components);
      AddClausesFixpoint(xs[0].clauses);
      AddComponentsFixpoint(xs[1..]);
      assert xs == [xs[0]] + xs[1..];
    }
  }

  /** A program whose aggregates all have atoms is left unchanged. */
  lemma AddNullariesFixpoint(p: Program)
    requires !AtomlessProgram(p)
    ensures AddNullariesProgram(p) == p
  {
    AddComponentsFixpoint(p.components);
    AddClausesFixpoint(p.clauses);
  }

  /** The pass is idempotent: the second run finds nothing to do. */
  lemma AddNullariesIdempotent(p: Program)
    ensures !AtomlessProgram(AddNullariesProgram(p))
    ensures AddNullariesProgram(AddNullariesProgram(p)) == AddNullariesProgram(p)
  {
    NoAtomlessAggregateLeft(p);
    AddNullariesFixpoint(AddNullariesProgram(p));
  }

  // ---- one aggregate ----

  /** An aggregate that has an atom keeps its body literals, only their insides are
      visited; an atomless aggregate gets its literals, in order, followed by the
      nullary atom. */
  lemma AggregateBody(op: string, t: Option<Argument>, body: seq<Literal>)
    ensures var r := AddArg(Aggregator(op, t, body));
      HasAtom(body) ==> r.body == AddLits(body)
    ensures var r := AddArg(Aggregator(op, t, body));
      !HasAtom(body) ==>
        (|r.body| == |body| + 1 && r.body[..|body|] == AddLits(body) &&
         r.body[|body|] == AtomLiteral(TautologyAtom))
    ensures !AtomlessLits(body) ==> AddArg(Aggregator(op, t, body)).body == ExtendBody(body)
  {
    var r := AddArg(Aggregator(op, t, body));
    if HasAtom(body) {
      assert r.body == AddLits(body) + [];
    } else {
      assert r.body[..|body|] == AddLits(body);
    }
    if !AtomlessLits(body) {
      AddLitsFixpoint(body);
    }
  }

  // ---- the relation and the fact ----

  /** The relation and the fact are added together, once, and only when an atomless
      aggregate exists and no `+Tautology` relation is declared; otherwise the
      relation list is left unchanged. All clauses before them are the rewritten
      clauses of the program, in order. */
  lemma TautologyAddedOnce(p: Program)
    ensures var r := AddNullariesProgram(p);
      if AtomlessProgram(p) && !IsDeclared(p, TautologyName) then
        r.relations == p.relations + [TautologyRelation] &&
        r.clauses == AddClauses(p.clauses) + [TautologyFact]
      else
        r.relations == p.relations && r.clauses == AddClauses(p.clauses)
    ensures IsDeclared(AddNullariesProgram(p), TautologyName) <==>
      IsDeclared(p, TautologyName) || AtomlessProgram(p)
  {
    var r := AddNullariesProgram(p);
    if AtomlessProgram(p) && !IsDeclared(p, TautologyName) {
      assert r.relations[|p.relations|].name == TautologyName;
    } else if IsDeclared(p, TautologyName) {
      var i :| 0 <= i < |p.relations| && p.relations[i].name == TautologyName;
      assert r.relations[i].name == TautologyName;
    }
  }

  /** The pass: the mapper reaches every aggregate of the program (through the
      components and the clauses, the only children that hold arguments) and adds
      the relation and the fact after the clauses; it reports a change exactly when an
      atomless aggregate was found. */
  method Transform(program: AstProgram) returns (changed: bool)
    modifies program
    ensures program.Value() == AddNullariesProgram(old(program.Value()))
    ensures changed <==> AtomlessProgram(old(program.Value()))
  {
    ghost var before := program.Value();
    changed := AtomlessProgram(program.Value());
    var declared := exists i :: 0 <= i < |program.relations| && program.relations[i].name == TautologyName;
    var m := ProgramMapper(
      (x: Pragma) => x, AddComponent, (i: ComponentInit) => i, (f: FunctorDeclaration) => f,
      (t: TypeDecl) => t, (r: Relation) => r, AddClause, (d: Directive) => d);
    program.Apply(m);
    assert MapAll(before.components, m.component) == AddComponents(before.components);
    assert MapAll(before.clauses, m.clause) == AddClauses(before.clauses);
    assert MapAll(before.pragmas, m.pragma) == before.pragmas;
    assert MapAll(before.instantiations, m.init) == before.instantiations;
    assert MapAll(before.functors, m.functor) == before.functors;
    assert MapAll(before.types, m.typeDecl) == before.types;
    assert MapAll(before.relations, m.relation) == before.relations;
    assert MapAll(before.directives, m.directive) == before.directives;
    if changed && !declared {
      program.AddRelation(TautologyRelation);
      program.AddClause(TautologyFact);
    }
  }
}
