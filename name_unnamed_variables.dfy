/** The unnamed-variable namer (`NameUnnamedVariables.cpp`). Every `_` in a clause of
    a declared relation is replaced by a variable `+underscore_<n>`, where `n` is a
    counter that lives as long as the process (a function-local `static`) and is
    incremented once per replacement. The mapper replaces an unnamed variable and
    otherwise descends into the node, so a clause is numbered in pre-order, head
    first and then the body literals left to right. */
module NameUnnamedVariables {
  import opened Util
  import opened QualifiedNames
  import opened Ast
  import opened Programs

  const BoundPrefix: string := "+underscore"

  /** The name given to the replacement numbered `n`. */
  function UName(n: nat): (r: string)
    ensures IsGenerated(r)
  {
    BoundPrefix + "_" + NatToString(n)
  }

  /** The names this pass produces all start with "+underscore_"; a user cannot
      write such a name, since "+" cannot start an identifier. */
  predicate IsGenerated(name: string)
  {
    |name| >= |BoundPrefix| + 1 && name[..|BoundPrefix| + 1] == BoundPrefix + "_"
  }

  /** Different counter values give different names. */
  lemma UNameInjective(a: nat, b: nat)
    ensures UName(a) == UName(b) <==> a == b
  {
    if UName(a) == UName(b) {
      var p := BoundPrefix + "_";
      assert UName(a)[|p|..] == NatToString(a);
      assert UName(b)[|p|..] == NatToString(b);
      NatToStringInjective(a, b);
    }
  }

  /** The process-wide counter. */
  class UnderscoreCounter {
    var count: nat

    constructor ()
      ensures count == 0
    {
      count := 0;
    }
  }

  // ---- the mapper, threading the counter ----

  function NameArg(a: Argument, k: nat): (r: (Argument, nat))
    decreases a
  {
    match a
    case UnnamedVariable => (Variable(UName(k)), k + 1)
    case TypeCast(v, t) => var (v', k') := NameArg(v, k); (TypeCast(v', t), k')
    case RecordInit(xs) => var (ys, k') := NameArgs(xs, k); (RecordInit(ys), k')
    case BranchInit(c, xs) => var (ys, k') := NameArgs(xs, k); (BranchInit(c, ys), k')
    case Functor(f, xs) => var (ys, k') := NameArgs(xs, k); (Functor(f, ys), k')
    case Aggregator(op, t, body) =>
      var (t', k1) := NameTarget(t, k);
      var (b', k2) := NameLits(body, k1);
      (Aggregator(op, t', b'), k2)
    case _ => (a, k)
  }

  /** An aggregate's target expression is visited before its body. */
  function NameTarget(t: Option<Argument>, k: nat): (r: (Option<Argument>, nat))
    decreases t
  {
    match t
    case None => (None, k)
    case Some(x) => var (y, k') := NameArg(x, k); (Some(y), k')
  }

  function NameArgs(xs: seq<Argument>, k: nat): (r: (seq<Argument>, nat))
    ensures |r.0| == |xs|
    decreases xs
  {
    if |xs| == 0 then ([], k)
    else
      var (y, k1) := NameArg(xs[0], k);
      var (ys, k2) := NameArgs(xs[1..], k1);
      ([y] + ys, k2)
  }

  function NameLit(l: Literal, k: nat): (r: (Literal, nat))
    decreases l
  {
    match l
    case AtomLiteral(a) => var (ys, k') := NameArgs(a.args, k); (AtomLiteral(Atom(a.name, ys)), k')
    case NegationLiteral(n) =>
      var (ys, k') := NameArgs(n.atom.args, k); (NegationLiteral(Negation(Atom(n.atom.name, ys))), k')
    case BinaryConstraint(op, x, y) =>
      var (x', k1) := NameArg(x, k);
      var (y', k2) := NameArg(y, k1);
      (BinaryConstraint(op, x', y'), k2)
  }

  function NameLits(xs: seq<Literal>, k: nat): (r: (seq<Literal>, nat))
    ensures |r.0| == |xs|
    decreases xs
  {
    if |xs| == 0 then ([], k)
    else
      var (y, k1) := NameLit(xs[0], k);
      var (ys, k2) := NameLits(xs[1..], k1);
      ([y] + ys, k2)
  }

  /** `clause->apply(update)`: the head, then each body literal; the plan is kept. */
  function NameClause(c: Clause, k: nat): (r: (Clause, nat))
    ensures r.0.head.name == c.head.name && r.0.plan == c.plan
  {
    var (h, k1) := NameArgs(c.head.args, k);
    var (b, k2) := NameLits(c.body, k1);
    (Clause(Atom(c.head.name, h), b, c.plan), k2)
  }

  // ---- counting unnamed variables and occurrences of a name ----

  function CountUnnamedArg(a: Argument): nat
    decreases a
  {
    match a
    case UnnamedVariable => 1
    case TypeCast(v, _) => CountUnnamedArg(v)
    case RecordInit(xs) => CountUnnamedArgs(xs)
    case BranchInit(_, xs) => CountUnnamedArgs(xs)
    case Functor(_, xs) => CountUnnamedArgs(xs)
    case Aggregator(_, t, body) => CountUnnamedTarget(t) + CountUnnamedLits(body)
    case _ => 0
  }

  function CountUnnamedTarget(t: Option<Argument>): nat
    decreases t
  {
    match t
    case None => 0
    case Some(x) => CountUnnamedArg(x)
  }

  function CountUnnamedArgs(xs: seq<Argument>): nat
    decreases xs
  {
    if |xs| == 0 then 0 else CountUnnamedArg(xs[0]) + CountUnnamedArgs(xs[1..])
  }

  function CountUnnamedLit(l: Literal): nat
    decreases l
  {
    match l
    case AtomLiteral(a) => CountUnnamedArgs(a.args)
    case NegationLiteral(n) => CountUnnamedArgs(n.atom.args)
    case BinaryConstraint(_, x, y) => CountUnnamedArg(x) + CountUnnamedArg(y)
  }

  function CountUnnamedLits(xs: seq<Literal>): nat
    decreases xs
  {
    if |xs| == 0 then 0 else CountUnnamedLit(xs[0]) + CountUnnamedLits(xs[1..])
  }

  /** The number of unnamed variables in a clause. */
  function CountUnnamedClause(c: Clause): nat
  {
    CountUnnamedArgs(c.head.args) + CountUnnamedLits(c.body)
  }

  function CountVarArg(a: Argument, name: string): nat
    decreases a
  {
    match a
    case Variable(m) => if m == name then 1 else 0
    case TypeCast(v, _) => CountVarArg(v, name)
    case RecordInit(xs) => CountVarArgs(xs, name)
    case BranchInit(_, xs) => CountVarArgs(xs, name)
    case Functor(_, xs) => CountVarArgs(xs, name)
    case Aggregator(_, t, body) => CountVarTarget(t, name) + CountVarLits(body, name)
    case _ => 0
  }

  function CountVarTarget(t: Option<Argument>, name: string): nat
    decreases t
  {
    match t
    case None => 0
    case Some(x) => CountVarArg(x, name)
  }

  function CountVarArgs(xs: seq<Argument>, name: string): nat
    decreases xs
  {
    if |xs| == 0 then 0 else CountVarArg(xs[0], name) + CountVarArgs(xs[1..], name)
  }

  function CountVarLit(l: Literal, name: string): nat
    decreases l
  {
    match l
    case AtomLiteral(a) => CountVarArgs(a.args, name)
    case NegationLiteral(n) => CountVarArgs(n.atom.args, name)
    case BinaryConstraint(_, x, y) => CountVarArg(x, name) + CountVarArg(y, name)
  }

  function CountVarLits(xs: seq<Literal>, name: string): nat
    decreases xs
  {
    if |xs| == 0 then 0 else CountVarLit(xs[0], name) + CountVarLits(xs[1..], name)
  }

  /** The number of occurrences of the variable `name` in a clause. */
  function CountVarClause(c: Clause, name: string): nat
  {
    CountVarArgs(c.head.args, name) + CountVarLits(c.body, name)
  }

  // ---- forgetting generated names ----

  /** The tree with every generated variable turned back into `_`. */
  function BlankArg(a: Argument): Argument
    decreases a
  {
    match a
    case Variable(m) => if IsGenerated(m) then UnnamedVariable else a
    case TypeCast(v, t) => TypeCast(BlankArg(v), t)
    case RecordInit(xs) => RecordInit(BlankArgs(xs))
    case BranchInit(c, xs) => BranchInit(c, BlankArgs(xs))
    case Functor(f, xs) => Functor(f, BlankArgs(xs))
    case Aggregator(op, t, body) => Aggregator(op, BlankTarget(t), BlankLits(body))
    case _ => a
  }

  function BlankTarget(t: Option<Argument>): Option<Argument>
    decreases t
  {
    match t
    case None => None
    case Some(x) => Some(BlankArg(x))
  }

  function BlankArgs(xs: seq<Argument>): (r: seq<Argument>)
    ensures |r| == |xs|
    decreases xs
  {
    if |xs| == 0 then [] else [BlankArg(xs[0])] + BlankArgs(xs[1..])
  }

  function BlankLit(l: Literal): Literal
    decreases l
  {
    match l
    case AtomLiteral(a) => AtomLiteral(Atom(a.name, BlankArgs(a.args)))
    case NegationLiteral(n) => NegationLiteral(Negation(Atom(n.atom.name, BlankArgs(n.atom.args))))
    case BinaryConstraint(op, x, y) => BinaryConstraint(op, BlankArg(x), BlankArg(y))
  }

  function BlankLits(xs: seq<Literal>): (r: seq<Literal>)
    ensures |r| == |xs|
    decreases xs
  {
    if |xs| == 0 then [] else [BlankLit(xs[0])] + BlankLits(xs[1..])
  }

  function BlankClause(c: Clause): Clause
  {
    Clause(Atom(c.head.name, BlankArgs(c.head.args)), BlankLits(c.body), c.plan)
  }

  function InRange(j: nat, lo: nat, hi: nat): nat
  {
    if lo <= j < hi then 1 else 0
  }

  /** A run of counter values split in two. */
  lemma InRangeSplit(j: nat, lo: nat, mid: nat, hi: nat)
    requires lo <= mid <= hi
    ensures InRange(j, lo, hi) == InRange(j, lo, mid) + InRange(j, mid, hi)
  {
  }

  // ---- what the mapper does to one tree ----

  /** Naming a tree uses one counter value per unnamed variable, leaves no unnamed
      variable, and changes nothing but the names of unnamed variables. */
  lemma {:induction false} NameArgShape(a: Argument, k: nat)
    ensures NameArg(a, k).1 == k + CountUnnamedArg(a)
    ensures CountUnnamedArg(NameArg(a, k).0) == 0
    ensures BlankArg(NameArg(a, k).0) == BlankArg(a)
    decreases a, 1
  {
    match a
    case TypeCast(v, _) => NameArgShape(v, k);
    case RecordInit(_) => NameCompoundShape(a, k);
    case BranchInit(_, _) => NameCompoundShape(a, k);
    case Functor(_, _) => NameCompoundShape(a, k);
    case Aggregator(op, t, body) => NameAggregatorShape(op, t, body, k);
    case _ =>
  }

  /** Records, branch initialisations and functors: their operands in order. */
  lemma {:induction false} NameCompoundShape(a: Argument, k: nat)
    requires a.RecordInit? || a.BranchInit? || a.Functor?
    ensures NameArg(a, k).1 == k + CountUnnamedArg(a)
    ensures CountUnnamedArg(NameArg(a, k).0) == 0
    ensures BlankArg(NameArg(a, k).0) == BlankArg(a)
    decreases a, 0
  {
    NameArgsShape(a.args, k);
  }

  /** The aggregate case: the target is named first, then the body from the counter
      value the target left. */
  lemma {:induction false} NameAggregatorShape(op: string, t: Option<Argument>, body: seq<Literal>, k: nat)
    ensures var a := Aggregator(op, t, body);
      NameArg(a, k).1 == k + CountUnnamedArg(a) &&
      CountUnnamedArg(NameArg(a, k).0) == 0 &&
      BlankArg(NameArg(a, k).0) == BlankArg(a)
    decreases Aggregator(op, t, body), 0
  {
    NameTargetShape(t, k);
    NameLitsShape(body, NameTarget(t, k).1);
  }

  lemma {:induction false} NameTargetShape(t: Option<Argument>, k: nat)
    ensures NameTarget(t, k).1 == k + CountUnnamedTarget(t)
    ensures CountUnnamedTarget(NameTarget(t, k).0) == 0
    ensures BlankTarget(NameTarget(t, k).0) == BlankTarget(t)
    decreases t
  {
    match t
    case None =>
    case Some(x) => NameArgShape(x, k);
  }

  lemma {:induction false} NameArgsShape(xs: seq<Argument>, k: nat)
    ensures NameArgs(xs, k).1 == k + CountUnnamedArgs(xs)
    ensures CountUnnamedArgs(NameArgs(xs, k).0) == 0
    ensures BlankArgs(NameArgs(xs, k).0) == BlankArgs(xs)
    decreases xs
  {
    if |xs| > 0 {
      var (y, k1) := NameArg(xs[0], k);
      var (ys, k2) := NameArgs(xs[1..], k1);
      NameArgShape(xs[0], k);
      NameArgsShape(xs[1..], k1);
      var r := [y] + ys;
      assert NameArgs(xs, k).0 == r;
      assert r[0] == y && r[1..] == ys;
    }
  }

  lemma {:induction false} NameLitShape(l: Literal, k: nat)
    ensures NameLit(l, k).1 == k + CountUnnamedLit(l)
    ensures CountUnnamedLit(NameLit(l, k).0) == 0
    ensures BlankLit(NameLit(l, k).0) == BlankLit(l)
    decreases l, 1
  {
    match l
    case AtomLiteral(a) => NameArgsShape(a.args, k);
    case NegationLiteral(n) => NameArgsShape(n.atom.args, k);
    case BinaryConstraint(op, x, y) => NameConstraintShape(op, x, y, k);
  }

  /** A binary constraint: its left operand, then its right one. */
  lemma {:induction false} NameConstraintShape(op: string, x: Argument, y: Argument, k: nat)
    ensures var l := BinaryConstraint(op, x, y);
      NameLit(l, k).1 == k + CountUnnamedLit(l) &&
      CountUnnamedLit(NameLit(l, k).0) == 0 &&
      BlankLit(NameLit(l, k).0) == BlankLit(l)
    decreases BinaryConstraint(op, x, y), 0
  {
    NameArgShape(x, k);
    NameArgShape(y, NameArg(x, k).1);
  }

  lemma {:induction false} NameLitsShape(xs: seq<Literal>, k: nat)
    ensures NameLits(xs, k).1 == k + CountUnnamedLits(xs)
    ensures CountUnnamedLits(NameLits(xs, k).0) == 0
    ensures BlankLits(NameLits(xs, k).0) == BlankLits(xs)
    decreases xs
  {
    if |xs| > 0 {
      var (y, k1) := NameLit(xs[0], k);
      var (ys, k2) := NameLits(xs[1..], k1);
      NameLitShape(xs[0], k);
      NameLitsShape(xs[1..], k1);
      var r := [y] + ys;
      assert NameLits(xs, k).0 == r;
      assert r[0] == y && r[1..] == ys;
    }
  }

  /** Naming a tree makes each name `UName(j)` with `j` among the counter values used
      occur exactly once more, and leaves the occurrences of every other name alone. */
  lemma {:induction false} NameArgCountVar(a: Argument, k: nat, j: nat)
    ensures CountVarArg(NameArg(a, k).0, UName(j)) ==
      CountVarArg(a, UName(j)) + InRange(j, k, k + CountUnnamedArg(a))
    decreases a, 1
  {
    match a
    case UnnamedVariable => UNameInjective(k, j);
    case TypeCast(v, _) => NameArgCountVar(v, k, j);
    case RecordInit(_) => NameCompoundCountVar(a, k, j);
    case BranchInit(_, _) => NameCompoundCountVar(a, k, j);
    case Functor(_, _) => NameCompoundCountVar(a, k, j);
    case Aggregator(op, t, body) => NameAggregatorCountVar(op, t, body, k, j);
    case _ =>
  }

  lemma {:induction false} NameCompoundCountVar(a: Argument, k: nat, j: nat)
    requires a.RecordInit? || a.BranchInit? || a.Functor?
    ensures CountVarArg(NameArg(a, k).0, UName(j)) ==
      CountVarArg(a, UName(j)) + InRange(j, k, k + CountUnnamedArg(a))
    decreases a, 0
  {
    NameArgsCountVar(a.args, k, j);
  }

  lemma {:induction false} NameAggregatorCountVar(op: string, t: Option<Argument>, body: seq<Literal>, k: nat, j: nat)
    ensures var a := Aggregator(op, t, body);
      CountVarArg(NameArg(a, k).0, UName(j)) ==
        CountVarArg(a, UName(j)) + InRange(j, k, k + CountUnnamedArg(a))
    decreases Aggregator(op, t, body), 0
  {
    NameTargetCountVar(t, k, j);
    NameTargetShape(t, k);
    var k1 := NameTarget(t, k).1;
    NameLitsCountVar(body, k1, j);
    InRangeSplit(j, k, k1, k1 + CountUnnamedLits(body));
  }

  lemma {:induction false} NameTargetCountVar(t: Option<Argument>, k: nat, j: nat)
    ensures CountVarTarget(NameTarget(t, k).0, UName(j)) ==
      CountVarTarget(t, UName(j)) + InRange(j, k, k + CountUnnamedTarget(t))
    decreases t
  {
    match t
    case None =>
    case Some(x) => NameArgCountVar(x, k, j);
  }

  lemma {:induction false} NameArgsCountVar(xs: seq<Argument>, k: nat, j: nat)
    ensures CountVarArgs(NameArgs(xs, k).0, UName(j)) ==
      CountVarArgs(xs, UName(j)) + InRange(j, k, k + CountUnnamedArgs(xs))
    decreases xs
  {
    if |xs| > 0 {
      var (y, k1) := NameArg(xs[0], k);
      var (ys, k2) := NameArgs(xs[1..], k1);
      NameArgCountVar(xs[0], k, j);
      NameArgShape(xs[0], k);
      NameArgsCountVar(xs[1..], k1, j);
      InRangeSplit(j, k, k1, k1 + CountUnnamedArgs(xs[1..]));
      var r := [y] + ys;
      assert NameArgs(xs, k).0 == r;
      assert r[0] == y && r[1..] == ys;
    }
  }

  lemma {:induction false} NameLitCountVar(l: Literal, k: nat, j: nat)
    ensures CountVarLit(NameLit(l, k).0, UName(j)) ==
      CountVarLit(l, UName(j)) + InRange(j, k, k + CountUnnamedLit(l))
    decreases l, 1
  {
    match l
    case AtomLiteral(a) => NameArgsCountVar(a.args, k, j);
    case NegationLiteral(n) => NameArgsCountVar(n.atom.args, k, j);
    case BinaryConstraint(op, x, y) => NameConstraintCountVar(op, x, y, k, j);
  }

  lemma {:induction false} NameConstraintCountVar(op: string, x: Argument, y: Argument, k: nat, j: nat)
    ensures var l := BinaryConstraint(op, x, y);
      CountVarLit(NameLit(l, k).0, UName(j)) ==
        CountVarLit(l, UName(j)) + InRange(j, k, k + CountUnnamedLit(l))
    decreases BinaryConstraint(op, x, y), 0
  {
    NameArgCountVar(x, k, j);
    NameArgShape(x, k);
    var k1 := NameArg(x, k).1;
    NameArgCountVar(y, k1, j);
    InRangeSplit(j, k, k1, k1 + CountUnnamedArg(y));
  }

  lemma {:induction false} NameLitsCountVar(xs: seq<Literal>, k: nat, j: nat)
    ensures CountVarLits(NameLits(xs, k).0, UName(j)) ==
      CountVarLits(xs, UName(j)) + InRange(j, k, k + CountUnnamedLits(xs))
    decreases xs
  {
    if |xs| > 0 {
      var (y, k1) := NameLit(xs[0], k);
      var (ys, k2) := NameLits(xs[1..], k1);
      NameLitCountVar(xs[0], k, j);
      NameLitShape(xs[0], k);
      NameLitsCountVar(xs[1..], k1, j);
      InRangeSplit(j, k, k1, k1 + CountUnnamedLits(xs[1..]));
      var r := [y] + ys;
      assert NameLits(xs, k).0 == r;
      assert r[0] == y && r[1..] == ys;
    }
  }

  /** The same for a clause: head, then body. */
  lemma NameClauseFacts(c: Clause, k: nat, j: nat)
    ensures NameClause(c, k).1 == k + CountUnnamedClause(c)
    ensures CountUnnamedClause(NameClause(c, k).0) == 0
    ensures BlankClause(NameClause(c, k).0) == BlankClause(c)
    ensures CountVarClause(NameClause(c, k).0, UName(j)) ==
      CountVarClause(c, UName(j)) + InRange(j, k, k + CountUnnamedClause(c))
  {
    NameClauseShape(c, k);
    NameClauseCountVar(c, k, j);
  }

  lemma NameClauseShape(c: Clause, k: nat)
    ensures NameClause(c, k).1 == k + CountUnnamedClause(c)
    ensures CountUnnamedClause(NameClause(c, k).0) == 0
    ensures BlankClause(NameClause(c, k).0) == BlankClause(c)
  {
    NameArgsShape(c.head.args, k);
    NameLitsShape(c.body, NameArgs(c.head.args, k).1);
  }

  lemma NameClauseCountVar(c: Clause, k: nat, j: nat)
    ensures CountVarClause(NameClause(c, k).0, UName(j)) ==
      CountVarClause(c, UName(j)) + InRange(j, k, k + CountUnnamedClause(c))
  {
    NameArgsShape(c.head.args, k);
    NameArgsCountVar(c.head.args, k, j);
    var k1 := NameArgs(c.head.args, k).1;
    NameLitsCountVar(c.body, k1, j);
    InRangeSplit(j, k, k1, k1 + CountUnnamedLits(c.body));
  }

  // ---- the pass over the program ----

  /** The occurrences of the variable `name` in a list of clauses. */
  function CountVarClauses(cs: seq<Clause>, name: string): nat
  {
    if |cs| == 0 then 0 else CountVarClause(cs[0], name) + CountVarClauses(cs[1..], name)
  }

  /** Some relation of the list has that name. */
  predicate DeclaredIn(rels: seq<Relation>, name: QualifiedName)
  {
    exists i :: 0 <= i < |rels| && rels[i].name == name
  }

  lemma DeclaredInCons(rels: seq<Relation>, name: QualifiedName)
    requires |rels| > 0
    ensures DeclaredIn(rels, name) <==> rels[0].name == name || DeclaredIn(rels[1..], name)
  {
    if DeclaredIn(rels, name) && rels[0].name != name {
      var i :| 0 <= i < |rels| && rels[i].name == name;
      assert rels[1..][i - 1].name == name;
    }
    if DeclaredIn(rels[1..], name) {
      var i :| 0 <= i < |rels[1..]| && rels[1..][i].name == name;
      assert rels[i + 1].name == name;
    }
  }

  /** One clause of the loop over `getClauses(program, rel)`: named when its head is
      the relation, passed over otherwise. */
  function StepClause(c: Clause, n: QualifiedName, k: nat): (r: (Clause, nat))
    ensures r.0.head.name == c.head.name
    ensures c.head.name != n ==> r == (c, k)
  {
    if c.head.name == n then NameClause(c, k) else (c, k)
  }

  /** `for (clause : getClauses(program, rel)) clause->apply(update)`: the clauses
      whose head is the relation, named in program order, the others passed over. */
  function NameForRelation(cs: seq<Clause>, n: QualifiedName, k: nat): (r: (seq<Clause>, nat))
    ensures |r.0| == |cs|
    ensures forall i :: 0 <= i < |cs| ==> r.0[i].head.name == cs[i].head.name
    ensures forall i :: 0 <= i < |cs| && cs[i].head.name != n ==> r.0[i] == cs[i]
  {
    if |cs| == 0 then ([], k)
    else
      var s := StepClause(cs[0], n, k);
      var rest := NameForRelation(cs[1..], n, s.1);
      assert forall i :: 1 <= i < |cs| ==> ([s.0] + rest.0)[i] == rest.0[i - 1] && cs[1..][i - 1] == cs[i];
      ([s.0] + rest.0, rest.1)
  }

  /** The loop over the declared relations, in declaration order. */
  function NameAll(cs: seq<Clause>, rels: seq<Relation>, k: nat): (r: (seq<Clause>, nat))
    ensures |r.0| == |cs|
    ensures forall i :: 0 <= i < |cs| ==> r.0[i].head.name == cs[i].head.name
    decreases |rels|
  {
    if |rels| == 0 then (cs, k)
    else
      var s := NameForRelation(cs, rels[0].name, k);
      NameAll(s.0, rels[1..], s.1)
  }

  lemma StepClauseShape(c: Clause, n: QualifiedName, k: nat)
    ensures c.head.name == n ==> CountUnnamedClause(StepClause(c, n, k).0) == 0
    ensures BlankClause(StepClause(c, n, k).0) == BlankClause(c)
    ensures StepClause(c, n, k).1 >= k
    ensures StepClause(c, n, k).1 > k <==> c.head.name == n && CountUnnamedClause(c) > 0
  {
    if c.head.name == n {
      NameClauseShape(c, k);
    }
  }

  lemma StepClauseCountVar(c: Clause, n: QualifiedName, k: nat, j: nat)
    ensures CountVarClause(StepClause(c, n, k).0, UName(j)) ==
      CountVarClause(c, UName(j)) + InRange(j, k, StepClause(c, n, k).1)
  {
    if c.head.name == n {
      NameClauseShape(c, k);
      NameClauseCountVar(c, k, j);
    }
  }


  /** A relation's clauses are left without unnamed variables. */
  lemma NameForRelationUnnamed(cs: seq<Clause>, n: QualifiedName, k: nat)
    ensures forall i :: 0 <= i < |cs| && cs[i].head.name == n ==>
      CountUnnamedClause(NameForRelation(cs, n, k).0[i]) == 0
  {
    forall i | 0 <= i < |cs| && cs[i].head.name == n
      ensures CountUnnamedClause(NameForRelation(cs, n, k).0[i]) == 0
    {
      NameForRelationAtIndex(cs, n, k, i);
    }
  }

  /** Only names of unnamed variables change. */
  lemma NameForRelationBlank(cs: seq<Clause>, n: QualifiedName, k: nat)
    ensures forall i :: 0 <= i < |cs| ==>
      BlankClause(NameForRelation(cs, n, k).0[i]) == BlankClause(cs[i])
  {
    forall i | 0 <= i < |cs|
      ensures BlankClause(NameForRelation(cs, n, k).0[i]) == BlankClause(cs[i])
    {
      NameForRelationAtIndex(cs, n, k, i);
    }
  }

  /** The clause at position `i` after the pass over a relation's clauses. */
  lemma {:induction false} NameForRelationAtIndex(cs: seq<Clause>, n: QualifiedName, k: nat, i: nat)
    requires i < |cs|
    ensures cs[i].head.name == n ==> CountUnnamedClause(NameForRelation(cs, n, k).0[i]) == 0
    ensures BlankClause(NameForRelation(cs, n, k).0[i]) == BlankClause(cs[i])
    decreases i
  {
    var s := StepClause(cs[0], n, k);
    var rest := NameForRelation(cs[1..], n, s.1);
    assert NameForRelation(cs, n, k).0 == [s.0] + rest.0;
    if i == 0 {
      StepClauseShape(cs[0], n, k);
    } else {
      NameForRelationAtIndex(cs[1..], n, s.1, i - 1);
      assert ([s.0] + rest.0)[i] == rest.0[i - 1];
      assert cs[1..][i - 1] == cs[i];
    }
  }

  /** The counter grows, and it grows exactly when a clause of the relation has an
      unnamed variable. */
  lemma {:induction false} NameForRelationCounter(cs: seq<Clause>, n: QualifiedName, k: nat)
    ensures NameForRelation(cs, n, k).1 >= k
    ensures NameForRelation(cs, n, k).1 > k <==>
      exists i :: 0 <= i < |cs| && cs[i].head.name == n && CountUnnamedClause(cs[i]) > 0
  {
    if |cs| > 0 {
      var s := StepClause(cs[0], n, k);
      StepClauseShape(cs[0], n, k);
      NameForRelationCounter(cs[1..], n, s.1);
      SomeUnnamedCons(cs, n);
    }
  }

  /** Some clause of the relation has an unnamed variable: the first clause, or one
      of the rest. */
  lemma SomeUnnamedCons(cs: seq<Clause>, n: QualifiedName)
    requires |cs| > 0
    ensures (exists i :: 0 <= i < |cs| && cs[i].head.name == n && CountUnnamedClause(cs[i]) > 0) <==>
      (cs[0].head.name == n && CountUnnamedClause(cs[0]) > 0) ||
      (exists i :: 0 <= i < |cs[1..]| && cs[1..][i].head.name == n && CountUnnamedClause(cs[1..][i]) > 0)
  {
    if exists i :: 0 <= i < |cs| && cs[i].head.name == n && CountUnnamedClause(cs[i]) > 0 {
      var i :| 0 <= i < |cs| && cs[i].head.name == n && CountUnnamedClause(cs[i]) > 0;
      if i > 0 { assert cs[1..][i - 1] == cs[i]; }
    }
    if exists i :: 0 <= i < |cs[1..]| && cs[1..][i].head.name == n && CountUnnamedClause(cs[1..][i]) > 0 {
      var i :| 0 <= i < |cs[1..]| && cs[1..][i].head.name == n && CountUnnamedClause(cs[1..][i]) > 0;
      assert cs[i + 1] == cs[1..][i];
    }
  }

  /** Each counter value used names exactly one new occurrence. */
  lemma {:induction false} NameForRelationCountVar(cs: seq<Clause>, n: QualifiedName, k: nat, j: nat)
    ensures CountVarClauses(NameForRelation(cs, n, k).0, UName(j)) ==
      CountVarClauses(cs, UName(j)) + InRange(j, k, NameForRelation(cs, n, k).1)
  {
    if |cs| > 0 {
      var s := StepClause(cs[0], n, k);
      var rest := NameForRelation(cs[1..], n, s.1);
      StepClauseShape(cs[0], n, k);
      StepClauseCountVar(cs[0], n, k, j);
      NameForRelationCountVar(cs[1..], n, s.1, j);
      NameForRelationCounter(cs[1..], n, s.1);
      var r := [s.0] + rest.0;
      assert r[0] == s.0 && r[1..] == rest.0;
    }
  }

  /** The pass over a clause list: clauses of declared relations are left without
      unnamed variables, the others are untouched. */
  lemma {:induction false} NameAllUnnamed(cs: seq<Clause>, rels: seq<Relation>, k: nat)
    ensures forall i :: 0 <= i < |cs| && !DeclaredIn(rels, cs[i].head.name) ==>
      NameAll(cs, rels, k).0[i] == cs[i]
    ensures forall i :: 0 <= i < |cs| && DeclaredIn(rels, cs[i].head.name) ==>
      CountUnnamedClause(NameAll(cs, rels, k).0[i]) == 0
    decreases |rels|
  {
    if |rels| > 0 {
      var n := rels[0].name;
      var s := NameForRelation(cs, n, k);
      NameForRelationUnnamed(cs, n, k);
      NameAllUnnamed(s.0, rels[1..], s.1);
      forall i | 0 <= i < |cs|
        ensures DeclaredIn(rels, cs[i].head.name) <==> cs[i].head.name == n || DeclaredIn(rels[1..], cs[i].head.name)
      {
        DeclaredInCons(rels, cs[i].head.name);
      }
    }
  }

  /** Only names of unnamed variables change. */
  lemma {:induction false} NameAllBlank(cs: seq<Clause>, rels: seq<Relation>, k: nat)
    ensures forall i :: 0 <= i < |cs| ==> BlankClause(NameAll(cs, rels, k).0[i]) == BlankClause(cs[i])
    decreases |rels|
  {
    if |rels| > 0 {
      var s := NameForRelation(cs, rels[0].name, k);
      NameForRelationBlank(cs, rels[0].name, k);
      NameAllBlank(s.0, rels[1..], s.1);
    }
  }

  /** The counter grows, and it grows exactly when some clause of a declared relation
      has an unnamed variable; this is when the pass reports a change. */
  lemma {:induction false} NameAllCounter(cs: seq<Clause>, rels: seq<Relation>, k: nat)
    ensures NameAll(cs, rels, k).1 >= k
    ensures NameAll(cs, rels, k).1 > k <==>
      exists i :: 0 <= i < |cs| && DeclaredIn(rels, cs[i].head.name) && CountUnnamedClause(cs[i]) > 0
    decreases |rels|
  {
    if |rels| > 0 {
      var n := rels[0].name;
      var s := NameForRelation(cs, n, k);
      var r := NameAll(s.0, rels[1..], s.1);
      NameForRelationCounter(cs, n, k);
      NameForRelationUnnamed(cs, n, k);
      NameAllCounter(s.0, rels[1..], s.1);
      if exists i :: 0 <= i < |cs| && DeclaredIn(rels, cs[i].head.name) && CountUnnamedClause(cs[i]) > 0 {
        var i :| 0 <= i < |cs| && DeclaredIn(rels, cs[i].head.name) && CountUnnamedClause(cs[i]) > 0;
        DeclaredInCons(rels, cs[i].head.name);
        if cs[i].head.name != n {
          assert s.0[i] == cs[i];
          assert DeclaredIn(rels[1..], s.0[i].head.name);
        }
      }
      if r.1 > s.1 {
        var i :| 0 <= i < |s.0| && DeclaredIn(rels[1..], s.0[i].head.name) && CountUnnamedClause(s.0[i]) > 0;
        DeclaredInCons(rels, cs[i].head.name);
        assert cs[i].head.name != n;
        assert s.0[i] == cs[i];
      }
    }
  }

  /** Each counter value the pass uses names exactly one new occurrence, and the
      occurrences of every other generated name are as before. With the counter only
      growing, the names of different replacements differ, within a run and across
      runs. */
  lemma {:induction false} NameAllCountVar(cs: seq<Clause>, rels: seq<Relation>, k: nat, j: nat)
    ensures CountVarClauses(NameAll(cs, rels, k).0, UName(j)) ==
      CountVarClauses(cs, UName(j)) + InRange(j, k, NameAll(cs, rels, k).1)
    decreases |rels|
  {
    if |rels| > 0 {
      var s := NameForRelation(cs, rels[0].name, k);
      NameForRelationCountVar(cs, rels[0].name, k, j);
      NameForRelationCounter(cs, rels[0].name, k);
      NameAllCountVar(s.0, rels[1..], s.1, j);
      NameAllCounter(s.0, rels[1..], s.1);
    }
  }

  /** One step of `NameForRelation` at position `j`. */
  lemma NameForRelationAt(cs: seq<Clause>, j: nat, n: QualifiedName, k: nat)
    requires j < |cs|
    ensures var s := StepClause(cs[j], n, k); var rest := NameForRelation(cs[j + 1..], n, s.1);
      NameForRelation(cs[j..], n, k) == ([s.0] + rest.0, rest.1)
  {
    assert cs[j..][0] == cs[j] && cs[j..][1..] == cs[j + 1..];
  }

  /** The state of the inner loop after `j` clauses: `done` followed by the rest named
      from `count` is the whole list named from `k`. */
  predicate RelationLoop(cs: seq<Clause>, n: QualifiedName, k: nat, done: seq<Clause>, j: nat, count: nat)
  {
    j <= |cs| &&
    NameForRelation(cs, n, k) == (done + NameForRelation(cs[j..], n, count).0, NameForRelation(cs[j..], n, count).1)
  }

  lemma RelationLoopStep(cs: seq<Clause>, n: QualifiedName, k: nat, done: seq<Clause>, j: nat, count: nat)
    requires j < |cs| && RelationLoop(cs, n, k, done, j, count)
    ensures var s := StepClause(cs[j], n, count);
      RelationLoop(cs, n, k, done + [s.0], j + 1, s.1) &&
      s.1 >= count && (s.1 > count <==> cs[j].head.name == n && CountUnnamedClause(cs[j]) > 0)
  {
    NameForRelationAt(cs, j, n, count);
    StepClauseShape(cs[j], n, count);
    var s := StepClause(cs[j], n, count);
    var rest := NameForRelation(cs[j + 1..], n, s.1);
    assert (done + [s.0]) + rest.0 == done + ([s.0] + rest.0);
  }

  lemma RelationLoopEnd(cs: seq<Clause>, n: QualifiedName, k: nat, done: seq<Clause>, count: nat)
    requires RelationLoop(cs, n, k, done, |cs|, count)
    ensures NameForRelation(cs, n, k) == (done, count)
  {
    assert cs[|cs|..] == [];
    assert NameForRelation(cs[|cs|..], n, count) == ([], count);
    assert done + NameForRelation(cs[|cs|..], n, count).0 == done;
  }

  /** The inner loop: every clause of the relation `n`, in program order, gets
      `clause->apply(update)` with a fresh mapper whose `changed` flag is or-ed in. */
  method NameRelationClauses(program: AstProgram, counter: UnderscoreCounter, n: QualifiedName)
    returns (changed: bool)
    modifies program, counter
    ensures var r := NameForRelation(old(program.clauses), n, old(counter.count));
      program.Value() == old(program.Value()).(clauses := r.0) && counter.count == r.1
    ensures counter.count >= old(counter.count)
    ensures changed <==> counter.count > old(counter.count)
  {
    changed := false;
    var cs := program.clauses;
    ghost var k := counter.count;
    var done: seq<Clause> := [];
    var j := 0;
    assert cs[0..] == cs;
    assert done + NameForRelation(cs, n, k).0 == NameForRelation(cs, n, k).0;
    while j < |cs|
      invariant 0 <= j <= |cs| && |done| == j
      invariant program.Value() == old(program.Value())
      invariant RelationLoop(cs, n, k, done, j, counter.count)
      invariant counter.count >= k && (changed <==> counter.count > k)
    {
      RelationLoopStep(cs, n, k, done, j, counter.count);
      ghost var s := StepClause(cs[j], n, counter.count);
      var c := cs[j];
      if c.head.name == n {
        var r := NameClause(c, counter.count);
        changed := changed || r.1 > counter.count;
        c := r.0;
        counter.count := r.1;
      }
      assert c == s.0 && counter.count == s.1;
      done := done + [c];
      j := j + 1;
    }
    RelationLoopEnd(cs, n, k, done, counter.count);
    program.SetClauses(done);
  }

  /** `NameUnnamedVariablesTransformer::transform`: for each declared relation, each
      of its clauses is named with the process-wide counter; the pass reports a
      change exactly when some replacement was made, which is when the counter grew. */
  method Transform(program: AstProgram, counter: UnderscoreCounter) returns (changed: bool)
    modifies program, counter
    ensures var r := NameAll(old(program.clauses), old(program.relations), old(counter.count));
      program.Value() == old(program.Value()).(clauses := r.0) && counter.count == r.1
    ensures changed <==> counter.count > old(counter.count)
  {
    changed := false;
    var rels := program.relations;
    ghost var k0 := counter.count;
    ghost var cs0 := program.clauses;
    var i := 0;
    while i < |rels|
      invariant 0 <= i <= |rels|
      invariant program.Value() == old(program.Value()).(clauses := program.clauses)
      invariant NameAll(program.clauses, rels[i..], counter.count) == NameAll(cs0, rels, k0)
      invariant counter.count >= k0 && (changed <==> counter.count > k0)
    {
      ghost var csi := program.clauses;
      ghost var ki := counter.count;
      var c := NameRelationClauses(program, counter, rels[i].name);
      changed := changed || c;
      assert rels[i..][0] == rels[i] && rels[i..][1..] == rels[i + 1..];
      assert NameAll(csi, rels[i..], ki) == NameAll(program.clauses, rels[i + 1..], counter.count);
      i := i + 1;
    }
    assert rels[i..] == [];
  }
}
