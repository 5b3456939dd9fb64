/** The typecast remover (`RemoveTypecasts.cpp`). Its node mapper first rewrites a
    node's children and then, if the node is a cast, returns (a copy of) the cast's
    already-rewritten value, otherwise the node itself; applied to every child of the
    program it replaces, bottom up, every cast anywhere in the program by its value. */
module RemoveTypecasts {
  import opened Util
  import opened Ast
  import opened Components
  import opened Programs

  function StripArg(a: Argument): (r: Argument)
    ensures !a.TypeCast? ==> r.TypeCast? == false
    decreases a
  {
    match a
    case TypeCast(v, _) => StripArg(v)
    case RecordInit(xs) => RecordInit(StripArgs(xs))
    case BranchInit(c, xs) => BranchInit(c, StripArgs(xs))
    case Functor(f, xs) => Functor(f, StripArgs(xs))
    case Aggregator(op, t, body) => Aggregator(op, StripTarget(t), StripLits(body))
    case _ => a
  }

  function StripTarget(t: Option<Argument>): Option<Argument>
    decreases t
  {
    match t
    case None => None
    case Some(x) => Some(StripArg(x))
  }

  function StripArgs(xs: seq<Argument>): (r: seq<Argument>)
    ensures |r| == |xs|
    decreases xs
  {
    if |xs| == 0 then [] else [StripArg(xs[0])] + StripArgs(xs[1..])
  }

  function StripLit(l: Literal): Literal
    decreases l
  {
    match l
    case AtomLiteral(a) => AtomLiteral(StripAtom(a))
    case NegationLiteral(n) => NegationLiteral(Negation(StripAtom(n.atom)))
    case BinaryConstraint(op, x, y) => BinaryConstraint(op, StripArg(x), StripArg(y))
  }

  function StripLits(xs: seq<Literal>): (r: seq<Literal>)
    ensures |r| == |xs|
    decreases xs
  {
    if |xs| == 0 then [] else [StripLit(xs[0])] + StripLits(xs[1..])
  }

  function StripAtom(a: Atom): (r: Atom)
    ensures r.name == a.name && |r.args| == |a.args|
    decreases a
  {
    Atom(a.name, StripArgs(a.args))
  }

  /** `AstClause::apply` reaches the head and the body; the plan holds no casts. */
  function StripClause(c: Clause): (r: Clause)
    ensures r.plan == c.plan && r.head.name == c.head.name && |r.body| == |c.body|
  {
    Clause(StripAtom(c.head), StripLits(c.body), c.plan)
  }

  function StripClauses(xs: seq<Clause>): (r: seq<Clause>)
    ensures |r| == |xs|
  {
    if |xs| == 0 then [] else [StripClause(xs[0])] + StripClauses(xs[1..])
  }

  /** Inside a component only clauses, and the clauses of nested components, hold
      arguments. */
  function StripComponent(c: Component): Component
    decreases c
  {
    c.(components := StripComponents(c.components), clauses := StripClauses(c.clauses))
  }

  function StripComponents(xs: seq<Component>): (r: seq<Component>)
    ensures |r| == |xs|
    decreases xs
  {
    if |xs| == 0 then [] else [StripComponent(xs[0])] + StripComponents(xs[1..])
  }

  /** The program after the pass. */
  function StripProgram(p: Program): Program
  {
    p.(components := StripComponents(p.components), clauses := StripClauses(p.clauses))
  }

  predicate HasCastArg(a: Argument)
    decreases a
  {
    match a
    case TypeCast(_, _) => true
    case RecordInit(xs) => HasCastArgs(xs)
    case BranchInit(_, xs) => HasCastArgs(xs)
    case Functor(_, xs) => HasCastArgs(xs)
    case Aggregator(_, t, body) => HasCastTarget(t) || HasCastLits(body)
    case _ => false
  }

  predicate HasCastTarget(t: Option<Argument>)
    decreases t
  {
    t.Some? && HasCastArg(t.value)
  }

  predicate HasCastArgs(xs: seq<Argument>)
    decreases xs
  {
    |xs| > 0 && (HasCastArg(xs[0]) || HasCastArgs(xs[1..]))
  }

  predicate HasCastLit(l: Literal)
    decreases l
  {
    match l
    case AtomLiteral(a) => HasCastAtom(a)
    case NegationLiteral(n) => HasCastAtom(n.atom)
    case BinaryConstraint(_, x, y) => HasCastArg(x) || HasCastArg(y)
  }

  predicate HasCastLits(xs: seq<Literal>)
    decreases xs
  {
    |xs| > 0 && (HasCastLit(xs[0]) || HasCastLits(xs[1..]))
  }

  predicate HasCastAtom(a: Atom)
    decreases a
  {
    HasCastArgs(a.args)
  }

  predicate HasCastClause(c: Clause)
  {
    HasCastAtom(c.head) || HasCastLits(c.body)
  }

  predicate HasCastClauses(xs: seq<Clause>)
  {
    |xs| > 0 && (HasCastClause(xs[0]) || HasCastClauses(xs[1..]))
  }

  predicate HasCastComponent(c: Component)
    decreases c
  {
    HasCastComponents(c.components) || HasCastClauses(c.clauses)
  }

  predicate HasCastComponents(xs: seq<Component>)
    decreases xs
  {
    |xs| > 0 && (HasCastComponent(xs[0]) || HasCastComponents(xs[1..]))
  }

  /** Some cast occurs somewhere in the program. */
  predicate HasCastProgram(p: Program)
  {
    HasCastComponents(p.components) || HasCastClauses(p.clauses)
  }

  // ---- no cast is left ----

  lemma {:induction false} StripArgNoCast(a: Argument)
    ensures !HasCastArg(StripArg(a))
    decreases a
  {
    match a
    case TypeCast(v, _) => StripArgNoCast(v);
    case RecordInit(xs) => StripArgsNoCast(xs);
    case BranchInit(_, xs) => StripArgsNoCast(xs);
    case Functor(_, xs) => StripArgsNoCast(xs);
    case Aggregator(_, t, body) =>
      if t.Some? { StripArgNoCast(t.value); }
      StripLitsNoCast(body);
    case _ =>
  }

  lemma {:induction false} StripArgsNoCast(xs: seq<Argument>)
    ensures !HasCastArgs(StripArgs(xs))
    decreases xs
  {
    if |xs| > 0 {
      StripArgNoCast(xs[0]);
      StripArgsNoCast(xs[1..]);
      assert StripArgs(xs)[1..] == StripArgs(xs[1..]);
    }
  }

  lemma {:induction false} StripLitNoCast(l: Literal)
    ensures !HasCastLit(StripLit(l))
    decreases l
  {
    match l
    case AtomLiteral(a) => StripArgsNoCast(a.args);
    case NegationLiteral(n) => StripArgsNoCast(n.atom.args);
    case BinaryConstraint(_, x, y) => StripArgNoCast(x); StripArgNoCast(y);
  }

  lemma {:induction false} StripLitsNoCast(xs: seq<Literal>)
    ensures !HasCastLits(StripLits(xs))
    decreases xs
  {
    if |xs| > 0 {
      StripLitNoCast(xs[0]);
      StripLitsNoCast(xs[1..]);
      assert StripLits(xs)[1..] == StripLits(xs[1..]);
    }
  }

  lemma {:induction false} StripClausesNoCast(xs: seq<Clause>)
    ensures !HasCastClauses(StripClauses(xs))
  {
    if |xs| > 0 {
      StripArgsNoCast(xs[0].head.args);
      StripLitsNoCast(xs[0].body);
      StripClausesNoCast(xs[1..]);
      assert StripClauses(xs)[1..] == StripClauses(xs[1..]);
    }
  }

  lemma {:induction false} StripComponentsNoCast(xs: seq<Component>)
    ensures !HasCastComponents(StripComponents(xs))
    decreases xs
  {
    if |xs| > 0 {
      StripComponentsNoCast(xs[0].components);
      StripClausesNoCast(xs[0].clauses);
      StripComponentsNoCast(xs[1..]);
      assert StripComponents(xs)[1..] == StripComponents(xs[1..]);
    }
  }

  /** After the pass no typecast is left anywhere in the program. */
  lemma StripProgramNoCast(p: Program)
    ensures !HasCastProgram(StripProgram(p))
  {
    StripComponentsNoCast(p.components);
    StripClausesNoCast(p.clauses);
  }

  // ---- a cast-free tree is left as it is ----

  lemma {:induction false} StripArgFixpoint(a: Argument)
    requires !HasCastArg(a)
    ensures StripArg(a) == a
    decreases a
  {
    match a
    case RecordInit(xs) => StripArgsFixpoint(xs);
    case BranchInit(_, xs) => StripArgsFixpoint(xs);
    case Functor(_, xs) => StripArgsFixpoint(xs);
    case Aggregator(_, t, body) =>
      if t.Some? { StripArgFixpoint(t.value); }
      StripLitsFixpoint(body);
    case _ =>
  }

  lemma {:induction false} StripArgsFixpoint(xs: seq<Argument>)
    requires !HasCastArgs(xs)
    ensures StripArgs(xs) == xs
    decreases xs
  {
    if |xs| > 0 {
      StripArgFixpoint(xs[0]);
      StripArgsFixpoint(xs[1..]);
      assert xs == [xs[0]] + xs[1..];
    }
  }

  lemma {:induction false} StripLitFixpoint(l: Literal)
    requires !HasCastLit(l)
    ensures StripLit(l) == l
    decreases l
  {
    match l
    case AtomLiteral(a) => StripArgsFixpoint(a.args);
    case NegationLiteral(n) => StripArgsFixpoint(n.atom.args);
    case BinaryConstraint(_, x, y) => StripArgFixpoint(x); StripArgFixpoint(y);
  }

  lemma {:induction false} StripLitsFixpoint(xs: seq<Literal>)
    requires !HasCastLits(xs)
    ensures StripLits(xs) == xs
    decreases xs
  {
    if |xs| > 0 {
      StripLitFixpoint(xs[0]);
      StripLitsFixpoint(xs[1..]);
      assert xs == [xs[0]] + xs[1..];
    }
  }

  lemma {:induction false} StripClausesFixpoint(xs: seq<Clause>)
    requires !HasCastClauses(xs)
    ensures StripClauses(xs) == xs
  {
    if |xs| > 0 {
      StripArgsFixpoint(xs[0].head.args);
      StripLitsFixpoint(xs[0].body);
      StripClausesFixpoint(xs[1..]);
      assert xs == [xs[0]] + xs[1..];
    }
  }

  lemma {:induction false} StripComponentsFixpoint(xs: seq<Component>)
    requires !HasCastComponents(xs)
    ensures StripComponents(xs) == xs
    decreases xs
  {
    if |xs| > 0 {
      StripComponentsFixpoint(xs[0].components);
      StripClausesFixpoint(xs[0].clauses);
      StripComponentsFixpoint(xs[1..]);
      assert xs == [xs[0]] + xs[1..];
    }
  }

  /** A program without casts is left unchanged. */
  lemma StripProgramFixpoint(p: Program)
    requires !HasCastProgram(p)
    ensures StripProgram(p) == p
  {
    StripComponentsFixpoint(p.components);
    StripClausesFixpoint(p.clauses);
  }

  /** The pass is idempotent: a second run finds no cast, reports no change and
      leaves the program as the first run left it. */
  lemma StripProgramIdempotent(p: Program)
    ensures !HasCastProgram(StripProgram(p))
    ensures StripProgram(StripProgram(p)) == StripProgram(p)
  {
    StripProgramNoCast(p);
    StripProgramFixpoint(StripProgram(p));
  }

  /** Children are cleaned first, so nested casts collapse to the innermost value. */
  lemma NestedCastsCollapse(x: Argument, t1: QualifiedNames.QualifiedName, t2: QualifiedNames.QualifiedName)
    ensures StripArg(TypeCast(TypeCast(x, t1), t2)) == StripArg(x)
    ensures !HasCastArg(x) ==> StripArg(TypeCast(TypeCast(x, t1), t2)) == x
  {
    if !HasCastArg(x) { StripArgFixpoint(x); }
  }

  /** The transformer: the mapper is applied to every child of the program; it
      reports a change exactly when it met a cast. */
  method Transform(program: AstProgram) returns (changed: bool)
    modifies program
    ensures program.Value() == StripProgram(old(program.Value()))
    ensures changed <==> HasCastProgram(old(program.Value()))
  {
    changed := HasCastProgram(program.Value());
    ghost var before := program.Value();
    var m := ProgramMapper(
      (x: Pragma) => x, StripComponent, (i: ComponentInit) => i, (f: FunctorDeclaration) => f,
      (t: TypeDecl) => t, (r: Relation) => r, StripClause, (d: Directive) => d);
    program.Apply(m);
    MapStripComponents(before.components);
    MapStripClauses(before.clauses);
    assert MapAll(before.pragmas, m.pragma) == before.pragmas;
    assert MapAll(before.instantiations, m.init) == before.instantiations;
    assert MapAll(before.functors, m.functor) == before.functors;
    assert MapAll(before.types, m.typeDecl) == before.types;
    assert MapAll(before.relations, m.relation) == before.relations;
    assert MapAll(before.directives, m.directive) == before.directives;
  }

  lemma {:induction false} MapStripClauses(xs: seq<Clause>)
    ensures MapAll(xs, StripClause) == StripClauses(xs)
  {
    if |xs| > 0 {
      MapStripClauses(xs[1..]);
      assert MapAll(xs, StripClause) == [StripClause(xs[0])] + MapAll(xs[1..], StripClause);
    }
  }

  lemma {:induction false} MapStripComponents(xs: seq<Component>)
    ensures MapAll(xs, StripComponent) == StripComponents(xs)
  {
    if |xs| > 0 {
      MapStripComponents(xs[1..]);
      assert MapAll(xs, StripComponent) == [StripComponent(xs[0])] + MapAll(xs[1..], StripComponent);
    }
  }
}
