/** Node equality as the repository defines it: `AstNode::operator==` holds when both
    nodes have the same dynamic class and the class's `equal` holds, and `equal`
    compares the fields, with owned children compared through `equal_ptr` (both absent,
    or both present and equal) and owned lists through `equal_targets` (same length and
    pairwise equal). The lemmas show that, for the node kinds modelled here, this is
    exactly equality of the values, which is what makes `clone` equal to the original. */
module Equality {
  import opened Util
  import opened QualifiedNames
  import opened Ast

  function ArgumentEqual(a: Argument, b: Argument): bool
    decreases a
  {
    match (a, b)
    case (TypeCast(v1, t1), TypeCast(v2, t2)) => t1 == t2 && ArgumentEqual(v1, v2)
    case (RecordInit(xs), RecordInit(ys)) => ArgumentsEqual(xs, ys)
    case (BranchInit(c1, xs), BranchInit(c2, ys)) => c1 == c2 && ArgumentsEqual(xs, ys)
    case (Functor(f1, xs), Functor(f2, ys)) => f1 == f2 && ArgumentsEqual(xs, ys)
    case (Aggregator(o1, t1, b1), Aggregator(o2, t2, b2)) =>
      o1 == o2 && TargetEqual(t1, t2) && LiteralsEqual(b1, b2)
    case (Variable(_), Variable(_)) => a == b
    case (UnnamedVariable, UnnamedVariable) => true
    case (NumberConstant(_), NumberConstant(_)) => a == b
    case (StringConstant(_), StringConstant(_)) => a == b
    case (NilConstant, NilConstant) => true
    case _ => false
  }

  /** `equal_ptr` on an optional owned argument. */
  function TargetEqual(a: Option<Argument>, b: Option<Argument>): bool
    decreases a
  {
    match (a, b)
    case (None, None) => true
    case (Some(x), Some(y)) => ArgumentEqual(x, y)
    case _ => false
  }

  /** `equal_targets` on a list of owned arguments. */
  function ArgumentsEqual(xs: seq<Argument>, ys: seq<Argument>): bool
    decreases xs
  {
    |xs| == |ys| && (|xs| == 0 || (ArgumentEqual(xs[0], ys[0]) && ArgumentsEqual(xs[1..], ys[1..])))
  }

  function LiteralEqual(a: Literal, b: Literal): bool
    decreases a
  {
    match (a, b)
    case (AtomLiteral(x), AtomLiteral(y)) => AtomEqual(x, y)
    case (NegationLiteral(x), NegationLiteral(y)) => NegationEqual(x, y)
    case (BinaryConstraint(o1, l1, r1), BinaryConstraint(o2, l2, r2)) =>
      o1 == o2 && ArgumentEqual(l1, l2) && ArgumentEqual(r1, r2)
    case _ => false
  }

  function LiteralsEqual(xs: seq<Literal>, ys: seq<Literal>): bool
    decreases xs
  {
    |xs| == |ys| && (|xs| == 0 || (LiteralEqual(xs[0], ys[0]) && LiteralsEqual(xs[1..], ys[1..])))
  }

  /** `AstAtom::equal`: the same qualified name and pairwise-equal arguments. */
  function AtomEqual(a: Atom, b: Atom): bool
    decreases a
  {
    a.name == b.name && ArgumentsEqual(a.args, b.args)
  }

  /** `AstNegation::equal`: the wrapped atoms are equal. */
  function NegationEqual(a: Negation, b: Negation): bool
    decreases a
  {
    AtomEqual(a.atom, b.atom)
  }

  function OrderEqual(a: ExecutionOrder, b: ExecutionOrder): bool
  {
    a.order == b.order
  }

  /** `equal_targets` on the version map: the same versions in the same order, each
      with an equal order. */
  function PlanEntriesEqual(xs: seq<PlanEntry>, ys: seq<PlanEntry>): bool
    decreases xs
  {
    |xs| == |ys| &&
    (|xs| == 0 ||
     (xs[0].version == ys[0].version && OrderEqual(xs[0].order, ys[0].order) &&
      PlanEntriesEqual(xs[1..], ys[1..])))
  }

  function PlanEqual(a: ExecutionPlan, b: ExecutionPlan): bool
  {
    PlanEntriesEqual(a.entries, b.entries)
  }

  /** `equal_ptr` on an optional plan. */
  function OptionPlanEqual(a: Option<ExecutionPlan>, b: Option<ExecutionPlan>): bool
  {
    match (a, b)
    case (None, None) => true
    case (Some(x), Some(y)) => PlanEqual(x, y)
    case _ => false
  }

  /** `AstClause::equal`: equal heads, pairwise-equal bodies and equal plans. */
  function ClauseEqual(a: Clause, b: Clause): bool
  {
    AtomEqual(a.head, b.head) && LiteralsEqual(a.body, b.body) && OptionPlanEqual(a.plan, b.plan)
  }

  function ClausesEqual(xs: seq<Clause>, ys: seq<Clause>): bool
    decreases xs
  {
    |xs| == |ys| && (|xs| == 0 || (ClauseEqual(xs[0], ys[0]) && ClausesEqual(xs[1..], ys[1..])))
  }

  /** Argument equality is equality of the argument trees. */
  lemma {:induction false} ArgumentEqualIsIdentity(a: Argument, b: Argument)
    ensures ArgumentEqual(a, b) <==> a == b
    decreases a
  {
    match (a, b)
    case (TypeCast(v1, t1), TypeCast(v2, t2)) => ArgumentEqualIsIdentity(v1, v2);
    case (RecordInit(xs), RecordInit(ys)) => ArgumentsEqualIsIdentity(xs, ys);
    case (BranchInit(c1, xs), BranchInit(c2, ys)) => ArgumentsEqualIsIdentity(xs, ys);
    case (Functor(f1, xs), Functor(f2, ys)) => ArgumentsEqualIsIdentity(xs, ys);
    case (Aggregator(o1, t1, b1), Aggregator(o2, t2, b2)) =>
      TargetEqualIsIdentity(t1, t2);
      LiteralsEqualIsIdentity(b1, b2);
    case _ =>
  }

  lemma {:induction false} TargetEqualIsIdentity(a: Option<Argument>, b: Option<Argument>)
    ensures TargetEqual(a, b) <==> a == b
    decreases a
  {
    match (a, b)
    case (Some(x), Some(y)) => ArgumentEqualIsIdentity(x, y);
    case _ =>
  }

  lemma {:induction false} ArgumentsEqualIsIdentity(xs: seq<Argument>, ys: seq<Argument>)
    ensures ArgumentsEqual(xs, ys) <==> xs == ys
    decreases xs
  {
    if |xs| == |ys| && |xs| > 0 {
      ArgumentEqualIsIdentity(xs[0], ys[0]);
      ArgumentsEqualIsIdentity(xs[1..], ys[1..]);
      assert xs == [xs[0]] + xs[1..] && ys == [ys[0]] + ys[1..];
    }
  }

  lemma {:induction false} LiteralEqualIsIdentity(a: Literal, b: Literal)
    ensures LiteralEqual(a, b) <==> a == b
    decreases a
  {
    match (a, b)
    case (AtomLiteral(x), AtomLiteral(y)) => AtomEqualIsIdentity(x, y);
    case (NegationLiteral(x), NegationLiteral(y)) => NegationEqualIsIdentity(x, y);
    case (BinaryConstraint(o1, l1, r1), BinaryConstraint(o2, l2, r2)) =>
      ArgumentEqualIsIdentity(l1, l2);
      ArgumentEqualIsIdentity(r1, r2);
    case _ =>
  }

  lemma {:induction false} LiteralsEqualIsIdentity(xs: seq<Literal>, ys: seq<Literal>)
    ensures LiteralsEqual(xs, ys) <==> xs == ys
    decreases xs
  {
    if |xs| == |ys| && |xs| > 0 {
      LiteralEqualIsIdentity(xs[0], ys[0]);
      LiteralsEqualIsIdentity(xs[1..], ys[1..]);
      assert xs == [xs[0]] + xs[1..] && ys == [ys[0]] + ys[1..];
    }
  }

  /** Two atoms are equal exactly when they have the same name and equal arguments. */
  lemma {:induction false} AtomEqualIsIdentity(a: Atom, b: Atom)
    ensures AtomEqual(a, b) <==> a == b
    decreases a
  {
    ArgumentsEqualIsIdentity(a.args, b.args);
  }

  /** Two negations are equal exactly when their atoms are. */
  lemma {:induction false} NegationEqualIsIdentity(a: Negation, b: Negation)
    ensures NegationEqual(a, b) <==> a == b
    decreases a
  {
    AtomEqualIsIdentity(a.atom, b.atom);
  }

  lemma {:induction false} PlanEntriesEqualIsIdentity(xs: seq<PlanEntry>, ys: seq<PlanEntry>)
    ensures PlanEntriesEqual(xs, ys) <==> xs == ys
    decreases xs
  {
    if |xs| == |ys| && |xs| > 0 {
      PlanEntriesEqualIsIdentity(xs[1..], ys[1..]);
      assert xs == [xs[0]] + xs[1..] && ys == [ys[0]] + ys[1..];
    }
  }

  /** Two plans are equal exactly when they hold the same orders for the same versions. */
  lemma PlanEqualIsIdentity(a: ExecutionPlan, b: ExecutionPlan)
    ensures PlanEqual(a, b) <==> a == b
  {
    PlanEntriesEqualIsIdentity(a.entries, b.entries);
  }

  /** Two clauses are equal exactly when head, body and plan are. */
  lemma ClauseEqualIsIdentity(a: Clause, b: Clause)
    ensures ClauseEqual(a, b) <==> a == b
  {
    AtomEqualIsIdentity(a.head, b.head);
    LiteralsEqualIsIdentity(a.body, b.body);
    match (a.plan, b.plan)
    case (Some(x), Some(y)) => PlanEqualIsIdentity(x, y);
    case _ =>
  }

  lemma {:induction false} ClausesEqualIsIdentity(xs: seq<Clause>, ys: seq<Clause>)
    ensures ClausesEqual(xs, ys) <==> xs == ys
    decreases xs
  {
    if |xs| == |ys| && |xs| > 0 {
      ClauseEqualIsIdentity(xs[0], ys[0]);
      ClausesEqualIsIdentity(xs[1..], ys[1..]);
      assert xs == [xs[0]] + xs[1..] && ys == [ys[0]] + ys[1..];
    }
  }
}
