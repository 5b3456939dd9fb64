/** The empty-relation remover (`RemoveEmptyRelations.cpp`). A relation is empty when
    no clause defines it and it is not an input. The declaration of an empty relation
    goes away unless an aggregate body uses it or it is an output; then, for each
    empty relation in name order, every clause whose body holds a positive atom of it
    is dropped, and every other clause that negates it is replaced, at the end of the
    clause list, by a copy without those negations. The clauses of the components are
    visited as well, and first: they stay in their components, but the copies made
    from them join the program's own clause list.

    Of the helpers the pass calls, `removeRelation` is taken to remove the
    declarations of the name, `cloneHead` to copy the head and the execution plan of a
    clause into a clause without body literals, and `removeClause` to look for the
    clause among the program's own clauses only. The IO classification is the
    `IOTypes.IOType` analysis. A clause is identified by its position in the clause
    list, which stands for its address. */
module RemoveEmptyRelations {
  import opened Util
  import opened Orders
  import opened QualifiedNames
  import opened Ast
  import opened Clauses
  import opened Programs
  import IOTypes

  // ---- atoms inside aggregate bodies ----

  /** An atom of relation `n` occurs somewhere in the argument. */
  predicate MentionsArg(a: Argument, n: QualifiedName)
    decreases a
  {
    match a
    case TypeCast(v, _) => MentionsArg(v, n)
    case RecordInit(xs) => MentionsArgs(xs, n)
    case BranchInit(_, xs) => MentionsArgs(xs, n)
    case Functor(_, xs) => MentionsArgs(xs, n)
    case Aggregator(_, t, body) => MentionsTarget(t, n) || MentionsLits(body, n)
    case _ => false
  }

  predicate MentionsTarget(t: Option<Argument>, n: QualifiedName)
    decreases t
  {
    match t
    case None => false
    case Some(x) => MentionsArg(x, n)
  }

  predicate MentionsArgs(xs: seq<Argument>, n: QualifiedName)
    decreases xs
  {
    |xs| > 0 && (MentionsArg(xs[0], n) || MentionsArgs(xs[1..], n))
  }

  predicate MentionsAtom(at: Atom, n: QualifiedName)
    decreases at
  {
    at.name == n || MentionsArgs(at.args, n)
  }

  predicate MentionsLit(l: Literal, n: QualifiedName)
    decreases l
  {
    match l
    case AtomLiteral(at) => MentionsAtom(at, n)
    case NegationLiteral(neg) => MentionsAtom(neg.atom, n)
    case BinaryConstraint(_, x, y) => MentionsArg(x, n) || MentionsArg(y, n)
  }

  predicate MentionsLits(ls: seq<Literal>, n: QualifiedName)
    decreases ls
  {
    |ls| > 0 && (MentionsLit(ls[0], n) || MentionsLits(ls[1..], n))
  }

  /** Some aggregator in the argument has an atom of `n` in its body, at any depth. */
  predicate AggUseArg(a: Argument, n: QualifiedName)
    decreases a
  {
    match a
    case TypeCast(v, _) => AggUseArg(v, n)
    case RecordInit(xs) => AggUseArgs(xs, n)
    case BranchInit(_, xs) => AggUseArgs(xs, n)
    case Functor(_, xs) => AggUseArgs(xs, n)
    case Aggregator(_, t, body) => MentionsLits(body, n) || AggUseTarget(t, n)
    case _ => false
  }

  predicate AggUseTarget(t: Option<Argument>, n: QualifiedName)
    decreases t
  {
    match t
    case None => false
    case Some(x) => AggUseArg(x, n)
  }

  predicate AggUseArgs(xs: seq<Argument>, n: QualifiedName)
    decreases xs
  {
    |xs| > 0 && (AggUseArg(xs[0], n) || AggUseArgs(xs[1..], n))
  }

  predicate AggUseLit(l: Literal, n: QualifiedName)
    decreases l
  {
    match l
    case AtomLiteral(at) => AggUseArgs(at.args, n)
    case NegationLiteral(neg) => AggUseArgs(neg.atom.args, n)
    case BinaryConstraint(_, x, y) => AggUseArg(x, n) || AggUseArg(y, n)
  }

  predicate AggUseLits(ls: seq<Literal>, n: QualifiedName)
    decreases ls
  {
    |ls| > 0 && (AggUseLit(ls[0], n) || AggUseLits(ls[1..], n))
  }

  predicate AggUseClause(c: Clause, n: QualifiedName)
  {
    AggUseArgs(c.head.args, n) || AggUseLits(c.body, n)
  }

  predicate AggUseClauses(cs: seq<Clause>, n: QualifiedName)
  {
    exists i :: 0 <= i < |cs| && AggUseClause(cs[i], n)
  }

  predicate AggUseComponent(comp: Component, n: QualifiedName)
    decreases comp
  {
    AggUseComponents(comp.components, n) || AggUseClauses(comp.clauses, n)
  }

  predicate AggUseComponents(cs: seq<Component>, n: QualifiedName)
    decreases cs
  {
    |cs| > 0 && (AggUseComponent(cs[0], n) || AggUseComponents(cs[1..], n))
  }

  /** The visit of the whole program, its components included, for an aggregate
      body that holds an atom of `n`. */
  predicate UsedInAggregate(components: seq<Component>, clauses: seq<Clause>, n: QualifiedName)
  {
    AggUseComponents(components, n) || AggUseClauses(clauses, n)
  }

  /** What an aggregate uses, its clause mentions. */
  lemma {:induction false} AggUseArgMentions(a: Argument, n: QualifiedName)
    requires AggUseArg(a, n)
    ensures MentionsArg(a, n)
    decreases a
  {
    match a
    case TypeCast(v, _) => AggUseArgMentions(v, n);
    case RecordInit(xs) => AggUseArgsMentions(xs, n);
    case BranchInit(_, xs) => AggUseArgsMentions(xs, n);
    case Functor(_, xs) => AggUseArgsMentions(xs, n);
    case Aggregator(_, t, body) =>
      if !MentionsLits(body, n) {
        var x :| t == Some(x);
        AggUseArgMentions(x, n);
      }
  }

  lemma {:induction false} AggUseArgsMentions(xs: seq<Argument>, n: QualifiedName)
    requires AggUseArgs(xs, n)
    ensures MentionsArgs(xs, n)
    decreases xs
  {
    if AggUseArg(xs[0], n) {
      AggUseArgMentions(xs[0], n);
    } else {
      AggUseArgsMentions(xs[1..], n);
    }
  }

  // ---- the first phase: classification and declarations ----

  /** `getClauses(program, rel).empty() && !isInput(rel)`. */
  predicate IsEmptyRelation(clauses: seq<Clause>, inputs: set<QualifiedName>, n: QualifiedName)
  {
    ClausesOf(clauses, n) == [] && n !in inputs
  }

  /** An empty relation whose declaration is removed. */
  predicate Doomed(components: seq<Component>, clauses: seq<Clause>, inputs: set<QualifiedName>,
                   outputs: set<QualifiedName>, n: QualifiedName)
  {
    IsEmptyRelation(clauses, inputs, n) && !UsedInAggregate(components, clauses, n) && n !in outputs
  }

  /** The names of the doomed relations among `rels`. */
  function DoomedNames(rels: seq<Relation>, components: seq<Component>, clauses: seq<Clause>,
                       inputs: set<QualifiedName>, outputs: set<QualifiedName>): set<QualifiedName>
  {
    if |rels| == 0 then {}
    else
      var r := rels[|rels| - 1];
      DoomedNames(rels[..|rels| - 1], components, clauses, inputs, outputs)
        + (if Doomed(components, clauses, inputs, outputs, r.name) then {r.name} else {})
  }

  lemma {:induction false} DoomedNamesMembers(rels: seq<Relation>, components: seq<Component>, clauses: seq<Clause>,
                                              inputs: set<QualifiedName>, outputs: set<QualifiedName>, x: QualifiedName)
    ensures x in DoomedNames(rels, components, clauses, inputs, outputs) <==>
      Doomed(components, clauses, inputs, outputs, x) && exists i :: 0 <= i < |rels| && rels[i].name == x
  {
    if |rels| > 0 {
      var pre := rels[..|rels| - 1];
      DoomedNamesMembers(pre, components, clauses, inputs, outputs, x);
      if exists i :: 0 <= i < |rels| && rels[i].name == x {
        var i :| 0 <= i < |rels| && rels[i].name == x;
        if i < |pre| { assert pre[i].name == x; }
      }
      if exists i :: 0 <= i < |pre| && pre[i].name == x {
        var i :| 0 <= i < |pre| && pre[i].name == x;
        assert rels[i].name == x;
      }
    }
  }

  /** The relation list without the declarations of the names in `gone`, in order. */
  function Kept(rels: seq<Relation>, gone: set<QualifiedName>): (r: seq<Relation>)
    ensures forall x :: x in r <==> x in rels && x.name !in gone
  {
    if |rels| == 0 then []
    else (if rels[0].name in gone then [] else [rels[0]]) + Kept(rels[1..], gone)
  }

  /** Removing the declarations of one more name. */
  lemma {:induction false} KeptStep(rels: seq<Relation>, gone: set<QualifiedName>, name: QualifiedName)
    ensures WithoutRelation(Kept(rels, gone), name) == Kept(rels, gone + {name})
  {
    if |rels| > 0 {
      KeptStep(rels[1..], gone, name);
      var head := if rels[0].name in gone then [] else [rels[0]];
      assert Kept(rels, gone) == head + Kept(rels[1..], gone);
      WithoutRelationAppend(head, Kept(rels[1..], gone), name);
    }
  }

  lemma {:induction false} WithoutRelationAppend(a: seq<Relation>, b: seq<Relation>, name: QualifiedName)
    ensures WithoutRelation(a + b, name) == WithoutRelation(a, name) + WithoutRelation(b, name)
  {
    if |a| > 0 {
      var head := if a[0].name == name then [] else [a[0]];
      assert (a + b)[0] == a[0] && (a + b)[1..] == a[1..] + b;
      assert WithoutRelation(a + b, name) == head + WithoutRelation(a[1..] + b, name);
      WithoutRelationAppend(a[1..], b, name);
      AppendAssociative(head, WithoutRelation(a[1..], name), WithoutRelation(b, name));
    } else {
      assert a + b == b;
    }
  }

  lemma KeptNothing(rels: seq<Relation>)
    ensures Kept(rels, {}) == rels
  {
    if |rels| > 0 {
      KeptNothing(rels[1..]);
      assert rels == [rels[0]] + rels[1..];
    }
  }

  /** `emptyRelations`: the names of the empty relations among `rels`, ascending. */
  function EmptyNames(rels: seq<Relation>, clauses: seq<Clause>, inputs: set<QualifiedName>): (r: seq<QualifiedName>)
    ensures StrictlySorted(r, Less)
  {
    LessIsStrictTotalOrder();
    if |rels| == 0 then []
    else
      var pre := EmptyNames(rels[..|rels| - 1], clauses, inputs);
      var n := rels[|rels| - 1].name;
      if IsEmptyRelation(clauses, inputs, n) then Insert(pre, n, Less) else pre
  }

  lemma {:induction false} EmptyNamesMembers(rels: seq<Relation>, clauses: seq<Clause>, inputs: set<QualifiedName>,
                                             x: QualifiedName)
    ensures x in EmptyNames(rels, clauses, inputs) <==>
      IsEmptyRelation(clauses, inputs, x) && exists i :: 0 <= i < |rels| && rels[i].name == x
  {
    LessIsStrictTotalOrder();
    if |rels| > 0 {
      var pre := rels[..|rels| - 1];
      EmptyNamesMembers(pre, clauses, inputs, x);
      if exists i :: 0 <= i < |rels| && rels[i].name == x {
        var i :| 0 <= i < |rels| && rels[i].name == x;
        if i < |pre| { assert pre[i].name == x; }
      }
      if exists i :: 0 <= i < |pre| && pre[i].name == x {
        var i :| 0 <= i < |pre| && pre[i].name == x;
        assert rels[i].name == x;
      }
    }
  }

  // ---- the second phase: the uses of one empty relation ----

  /** The body holds a positive atom of `n` (at the top level). */
  predicate UsesAtom(c: Clause, n: QualifiedName)
  {
    exists i :: 0 <= i < |c.body| && c.body[i].AtomLiteral? && c.body[i].atom.name == n
  }

  predicate IsNegationOf(l: Literal, n: QualifiedName)
  {
    l.NegationLiteral? && l.negation.atom.name == n
  }

  /** The body holds a negation of `n` (at the top level). */
  predicate NegatesAtom(c: Clause, n: QualifiedName)
  {
    exists i :: 0 <= i < |c.body| && IsNegationOf(c.body[i], n)
  }

  predicate Touches(c: Clause, n: QualifiedName)
  {
    UsesAtom(c, n) || NegatesAtom(c, n)
  }

  /** The body without the negations of `n`, the other literals in order. */
  function DropNegations(body: seq<Literal>, n: QualifiedName): seq<Literal>
  {
    if |body| == 0 then []
    else
      var l := body[|body| - 1];
      DropNegations(body[..|body| - 1], n) + (if IsNegationOf(l, n) then [] else [l])
  }

  /** Exactly the literals that are not negations of `n` are kept. */
  lemma {:induction false} DropNegationsMembers(body: seq<Literal>, n: QualifiedName, l: Literal)
    ensures l in DropNegations(body, n) <==> l in body && !IsNegationOf(l, n)
  {
    if |body| > 0 {
      var pre := body[..|body| - 1];
      DropNegationsMembers(pre, n, l);
      assert body == pre + [body[|body| - 1]];
    }
  }

  /** `xs` is `ys` with some elements left out, the rest in their order. */
  predicate Subsequence<T(==)>(xs: seq<T>, ys: seq<T>)
    decreases |ys|
  {
    if |xs| == 0 then true
    else if |ys| == 0 then false
    else if xs[|xs| - 1] == ys[|ys| - 1] then Subsequence(xs[..|xs| - 1], ys[..|ys| - 1])
    else Subsequence(xs, ys[..|ys| - 1])
  }

  /** The kept literals keep their relative order. */
  lemma {:induction false} DropNegationsSubsequence(body: seq<Literal>, n: QualifiedName)
    ensures Subsequence(DropNegations(body, n), body)
  {
    if |body| > 0 {
      var pre := body[..|body| - 1];
      var l := body[|body| - 1];
      var d := DropNegations(pre, n);
      DropNegationsSubsequence(pre, n);
      if IsNegationOf(l, n) {
        if |d| > 0 {
          DropNegationsMembers(pre, n, d[|d| - 1]);
          assert d[|d| - 1] in d;
          assert d[|d| - 1] != l;
          assert Subsequence(d, body) == Subsequence(d, pre);
        }
        assert DropNegations(body, n) == d;
      } else {
        assert (d + [l])[..|d|] == d;
        assert Subsequence(d + [l], body) == Subsequence(d, pre);
      }
    }
  }

  /** `cloneHead` and the copy loop: the head and plan with the body without the
      negations of `n`. */
  function Rewrite(c: Clause, n: QualifiedName): Clause
  {
    Clause(c.head, DropNegations(c.body, n), c.plan)
  }

  /** The clauses that neither use nor negate `n`, in order. */
  function Untouched(cs: seq<Clause>, n: QualifiedName): seq<Clause>
  {
    if |cs| == 0 then []
    else
      var c := cs[|cs| - 1];
      Untouched(cs[..|cs| - 1], n) + (if Touches(c, n) then [] else [c])
  }

  /** The copies of the clauses that negate `n` without using it, in order. */
  function Rewrites(cs: seq<Clause>, n: QualifiedName): seq<Clause>
  {
    if |cs| == 0 then []
    else
      var c := cs[|cs| - 1];
      Rewrites(cs[..|cs| - 1], n) + (if !UsesAtom(c, n) && NegatesAtom(c, n) then [Rewrite(c, n)] else [])
  }

  /** The clauses of the components in the order a depth-first visit of the program
      meets them: component by component, the nested components' clauses before the
      component's own. The components come before the program's own clauses among
      its children, so these clauses are met first. */
  function ComponentClauses(comps: seq<Component>): seq<Clause>
    decreases comps
  {
    if |comps| == 0 then [] else ClausesIn(comps[0]) + ComponentClauses(comps[1..])
  }

  function ClausesIn(comp: Component): seq<Clause>
    decreases comp
  {
    ComponentClauses(comp.components) + comp.clauses
  }

  /** No clause inside the components uses or negates `m`. */
  predicate ComponentsClean(comps: seq<Component>, m: QualifiedName)
  {
    forall d :: d in ComponentClauses(comps) ==> !Touches(d, m)
  }

  /** `removeEmptyRelationUses` on the program's clause list: its untouched clauses in
      order, then the rewritten copies of the component clauses, then those of its own
      clauses. A component clause stays in its component: `removeClause` looks only
      among the program's own clauses. */
  function RemoveUses(comps: seq<Component>, cs: seq<Clause>, n: QualifiedName): seq<Clause>
  {
    Untouched(cs, n) + Rewrites(ComponentClauses(comps), n) + Rewrites(cs, n)
  }

  lemma {:induction false} UntouchedMembers(cs: seq<Clause>, n: QualifiedName, c: Clause)
    ensures c in Untouched(cs, n) <==> c in cs && !Touches(c, n)
  {
    if |cs| > 0 {
      UntouchedMembers(cs[..|cs| - 1], n, c);
      assert cs == cs[..|cs| - 1] + [cs[|cs| - 1]];
    }
  }

  lemma {:induction false} RewritesMembers(cs: seq<Clause>, n: QualifiedName, c: Clause)
    ensures c in Rewrites(cs, n) <==> exists d :: d in cs && !UsesAtom(d, n) && NegatesAtom(d, n) && c == Rewrite(d, n)
  {
    if |cs| > 0 {
      var pre := cs[..|cs| - 1];
      RewritesMembers(pre, n, c);
      assert cs == pre + [cs[|cs| - 1]];
      if exists d :: d in cs && !UsesAtom(d, n) && NegatesAtom(d, n) && c == Rewrite(d, n) {
        var d :| d in cs && !UsesAtom(d, n) && NegatesAtom(d, n) && c == Rewrite(d, n);
        if d != cs[|cs| - 1] { assert d in pre; }
      }
    }
  }

  /** A copy holds no negation of `n`, and no positive atom that its original did not. */
  lemma RewriteClean(c: Clause, n: QualifiedName, m: QualifiedName)
    ensures !NegatesAtom(Rewrite(c, n), n)
    ensures UsesAtom(Rewrite(c, n), m) ==> UsesAtom(c, m)
    ensures NegatesAtom(Rewrite(c, n), m) ==> NegatesAtom(c, m)
  {
    var b := Rewrite(c, n).body;
    forall i | 0 <= i < |b| ensures b[i] in c.body && !IsNegationOf(b[i], n) {
      DropNegationsMembers(c.body, n, b[i]);
    }
    if UsesAtom(Rewrite(c, n), m) {
      var i :| 0 <= i < |b| && b[i].AtomLiteral? && b[i].atom.name == m;
      var j :| 0 <= j < |c.body| && c.body[j] == b[i];
    }
    if NegatesAtom(Rewrite(c, n), m) {
      var i :| 0 <= i < |b| && IsNegationOf(b[i], m);
      var j :| 0 <= j < |c.body| && c.body[j] == b[i];
    }
  }

  /** A copy of a clause of `ds` that does not use or negate `m` does not either, and
      no copy uses or negates `n`. */
  lemma RewritesClean(ds: seq<Clause>, n: QualifiedName, m: QualifiedName, c: Clause)
    requires c in Rewrites(ds, n)
    ensures !Touches(c, n)
    ensures (forall d :: d in ds ==> !Touches(d, m)) ==> !Touches(c, m)
  {
    RewritesMembers(ds, n, c);
    var d :| d in ds && !UsesAtom(d, n) && NegatesAtom(d, n) && c == Rewrite(d, n);
    RewriteClean(d, n, n);
    RewriteClean(d, n, m);
  }

  /** Afterwards no clause of the program uses or negates `n`. */
  lemma RemoveUsesClean(comps: seq<Component>, cs: seq<Clause>, n: QualifiedName)
    ensures forall c :: c in RemoveUses(comps, cs, n) ==> !Touches(c, n)
  {
    forall c | c in RemoveUses(comps, cs, n) ensures !Touches(c, n) {
      UntouchedMembers(cs, n, c);
      if c in Rewrites(ComponentClauses(comps), n) {
        RewritesClean(ComponentClauses(comps), n, n, c);
      } else if c in Rewrites(cs, n) {
        RewritesClean(cs, n, n, c);
      }
    }
  }

  /** A clause list that does not use or negate `m`, in a program whose components do
      not either, still does not afterwards. */
  lemma RemoveUsesKeepsClean(comps: seq<Component>, cs: seq<Clause>, n: QualifiedName, m: QualifiedName)
    requires forall c :: c in cs ==> !Touches(c, m)
    requires ComponentsClean(comps, m)
    ensures forall c :: c in RemoveUses(comps, cs, n) ==> !Touches(c, m)
  {
    forall c | c in RemoveUses(comps, cs, n) ensures !Touches(c, m) {
      UntouchedMembers(cs, n, c);
      if c in Rewrites(ComponentClauses(comps), n) {
        RewritesClean(ComponentClauses(comps), n, m, c);
      } else if c in Rewrites(cs, n) {
        RewritesClean(cs, n, m, c);
      }
    }
  }

  lemma {:induction false} UntouchedAll(cs: seq<Clause>, n: QualifiedName)
    requires forall c :: c in cs ==> !Touches(c, n)
    ensures Untouched(cs, n) == cs && Rewrites(cs, n) == []
  {
    UntouchedKeepsAll(cs, n);
    RewritesNone(cs, n);
  }

  lemma {:induction false} UntouchedKeepsAll(cs: seq<Clause>, n: QualifiedName)
    requires forall c :: c in cs ==> !Touches(c, n)
    ensures Untouched(cs, n) == cs
  {
    if |cs| > 0 {
      var pre, last := cs[..|cs| - 1], cs[|cs| - 1];
      forall c | c in pre ensures !Touches(c, n) {
        assert c in cs;
      }
      UntouchedKeepsAll(pre, n);
      assert !Touches(last, n) by { assert last in cs; }
      assert cs == pre + [last];
    }
  }

  lemma {:induction false} RewritesNone(cs: seq<Clause>, n: QualifiedName)
    requires forall c :: c in cs ==> !Touches(c, n)
    ensures Rewrites(cs, n) == []
  {
    if |cs| > 0 {
      var pre, last := cs[..|cs| - 1], cs[|cs| - 1];
      forall c | c in pre ensures !Touches(c, n) {
        assert c in cs;
      }
      RewritesNone(pre, n);
      assert !Touches(last, n) by { assert last in cs; }
    }
  }

  /** Without uses of `n`, in the components or outside them, the clause list stays
      exactly as it was. */
  lemma RemoveUsesIdentity(comps: seq<Component>, cs: seq<Clause>, n: QualifiedName)
    requires forall c :: c in cs ==> !Touches(c, n)
    requires ComponentsClean(comps, n)
    ensures RemoveUses(comps, cs, n) == cs
  {
    UntouchedAll(cs, n);
    RewritesNone(ComponentClauses(comps), n);
  }

  /** The pass removes the uses of every empty relation in turn. The components do not
      change: each turn visits their clauses again. */
  function RemoveAllUses(comps: seq<Component>, cs: seq<Clause>, names: seq<QualifiedName>): seq<Clause>
  {
    if |names| == 0 then cs
    else RemoveUses(comps, RemoveAllUses(comps, cs, names[..|names| - 1]), names[|names| - 1])
  }

  /** Some call changed something: a clause, in the components or in the program's
      list as the earlier calls left it, used or negated its relation. */
  predicate AnyUsesChanged(comps: seq<Component>, cs: seq<Clause>, names: seq<QualifiedName>)
  {
    if |names| == 0 then false
    else
      var pre := names[..|names| - 1];
      AnyUsesChanged(comps, cs, pre)
      || (exists c :: c in ComponentClauses(comps) && Touches(c, names[|names| - 1]))
      || (exists c :: c in RemoveAllUses(comps, cs, pre) && Touches(c, names[|names| - 1]))
  }

  /** After the pass no clause of the program uses or negates an empty relation that
      the components do not use or negate. For one that they do, see
      `ComponentCopyKeepsNegation`. */
  lemma {:induction false} RemoveAllUsesClean(comps: seq<Component>, cs: seq<Clause>, names: seq<QualifiedName>)
    ensures forall c, m :: c in RemoveAllUses(comps, cs, names) && m in names && ComponentsClean(comps, m) ==> !Touches(c, m)
  {
    if |names| > 0 {
      var pre := names[..|names| - 1];
      var last := names[|names| - 1];
      RemoveAllUsesClean(comps, cs, pre);
      var before := RemoveAllUses(comps, cs, pre);
      RemoveUsesClean(comps, before, last);
      forall m | m in pre && ComponentsClean(comps, m)
        ensures forall c :: c in RemoveUses(comps, before, last) ==> !Touches(c, m)
      {
        RemoveUsesKeepsClean(comps, before, last, m);
      }
      assert names == pre + [last];
    }
  }

  /** The side condition of `RemoveAllUsesClean` is needed. A component clause `k`
      negating two empty relations `e` and then `f` (say `a(x) :- b(x), !e(x), !f(x).`)
      is copied once per relation, and the copy made for `f` still negates `e`, which
      the pass has already handled. */
  lemma ComponentCopyKeepsNegation(comp: Component, k: Clause, e: QualifiedName, f: QualifiedName)
    requires comp.components == [] && comp.clauses == [k] && e != f
    requires !UsesAtom(k, e) && NegatesAtom(k, e) && !UsesAtom(k, f) && NegatesAtom(k, f)
    ensures Rewrite(k, f) in RemoveAllUses([comp], [], [e, f])
    ensures NegatesAtom(Rewrite(k, f), e) && !ComponentsClean([comp], e)
  {
    assert ComponentClauses([comp]) == [k] by {
      assert ClausesIn(comp) == [k];
    }
    assert [e, f][..1] == [e];
    assert Rewrites([k], f) == [Rewrite(k, f)];
    var i :| 0 <= i < |k.body| && IsNegationOf(k.body[i], e);
    DropNegationsMembers(k.body, f, k.body[i]);
    var b := Rewrite(k, f).body;
    var j :| 0 <= j < |b| && b[j] == k.body[i];
    assert k in ComponentClauses([comp]) && Touches(k, e);
  }

  // ---- the methods ----

  /** The first loop over the body: a positive atom of `n`. */
  method FindAtomUse(c: Clause, n: QualifiedName) returns (found: bool)
    ensures found <==> UsesAtom(c, n)
  {
    found := false;
    var i := 0;
    while i < |c.body|
      invariant 0 <= i <= |c.body|
      invariant !found
      invariant forall j :: 0 <= j < i ==> !(c.body[j].AtomLiteral? && c.body[j].atom.name == n)
    {
      if c.body[i].AtomLiteral? && c.body[i].atom.name == n {
        found := true;
        return;
      }
      i := i + 1;
    }
  }

  /** The second loop over the body: a negation of `n`. */
  method FindNegation(c: Clause, n: QualifiedName) returns (found: bool)
    ensures found <==> NegatesAtom(c, n)
  {
    found := false;
    var i := 0;
    while i < |c.body|
      invariant 0 <= i <= |c.body|
      invariant !found
      invariant forall j :: 0 <= j < i ==> !IsNegationOf(c.body[j], n)
    {
      if c.body[i].NegationLiteral? && c.body[i].negation.atom.name == n {
        found := true;
        return;
      }
      i := i + 1;
    }
  }

  /** `cloneHead` and the copy loop, building the new clause with `addToBody`. */
  method CloneWithoutNegations(c: Clause, n: QualifiedName) returns (res: Clause)
    ensures res == Rewrite(c, n)
  {
    var copy := new AstClause(c.head, [], c.plan);
    var i := 0;
    while i < |c.body|
      invariant 0 <= i <= |c.body|
      invariant copy.Value() == Clause(c.head, DropNegations(c.body[..i], n), c.plan)
    {
      assert c.body[..i + 1][..i] == c.body[..i];
      var lit := c.body[i];
      if lit.NegationLiteral? {
        if lit.negation.atom.name != n {
          copy.AddToBody(lit);
        }
      } else {
        copy.AddToBody(lit);
      }
      i := i + 1;
    }
    assert c.body[..i] == c.body;
    res := copy.Value();
  }

  lemma FoldStep(cs: seq<Clause>, i: nat, n: QualifiedName)
    requires i < |cs|
    ensures Untouched(cs[..i + 1], n) == Untouched(cs[..i], n) + (if Touches(cs[i], n) then [] else [cs[i]])
    ensures Rewrites(cs[..i + 1], n) ==
      Rewrites(cs[..i], n) + (if !UsesAtom(cs[i], n) && NegatesAtom(cs[i], n) then [Rewrite(cs[i], n)] else [])
  {
    assert cs[..i + 1][..i] == cs[..i];
  }

  /** One turn of the loop of `removeEmptyRelationUses`, on the clause `cl` at
      position `pos`, between the clauses already kept (`kept`) and the rest. */
  method UpdateClause(program: AstProgram, pos: nat, cl: Clause, n: QualifiedName,
                      ghost kept: seq<Clause>, ghost rest: seq<Clause>)
    returns (changed: bool)
    modifies program
    requires program.clauses == kept + [cl] + rest && pos == |kept|
    ensures changed <==> Touches(cl, n)
    ensures program.Value() == old(program.Value()).(clauses :=
      kept + (if Touches(cl, n) then [] else [cl]) + rest
      + (if !UsesAtom(cl, n) && NegatesAtom(cl, n) then [Rewrite(cl, n)] else []))
  {
    assert program.clauses[..pos] == kept;
    assert program.clauses[pos + 1..] == rest;
    var removed := FindAtomUse(cl, n);
    changed := false;
    if removed {
      program.RemoveClauseAt(pos);
      changed := true;
    } else {
      var rewrite := FindNegation(cl, n);
      if rewrite {
        var res := CloneWithoutNegations(cl, n);
        program.RemoveClauseAt(pos);
        program.AddClause(res);
        changed := true;
      }
    }
  }

  /** One turn of the loop on a clause `cl` of a component. `removeClause` does not
      find it among the program's own clauses and removes nothing, but the turn still
      counts as a change, and a clause negating `n` without using it still has its
      rewritten copy added at the end of the program's clause list. */
  method UpdateComponentClause(program: AstProgram, cl: Clause, n: QualifiedName) returns (changed: bool)
    modifies program
    ensures changed <==> Touches(cl, n)
    ensures program.Value() == old(program.Value()).(clauses :=
      old(program.clauses) + (if !UsesAtom(cl, n) && NegatesAtom(cl, n) then [Rewrite(cl, n)] else []))
  {
    var removed := FindAtomUse(cl, n);
    changed := false;
    if removed {
      changed := true;
    } else {
      var rewrite := FindNegation(cl, n);
      if rewrite {
        var res := CloneWithoutNegations(cl, n);
        program.AddClause(res);
        changed := true;
      }
    }
  }

  /** `UpdateComponentClause` on `inner[i]` adds the copy of that clause, if any, after
      the copies of the `i` before it. */
  method ComponentStep(program: AstProgram, inner: seq<Clause>, i: nat, n: QualifiedName,
                       ghost snap: seq<Clause>, ghost start: Program)
    returns (changed: bool)
    modifies program
    requires i < |inner|
    requires program.Value() == start.(clauses := snap + Rewrites(inner[..i], n))
    ensures changed <==> Touches(inner[i], n)
    ensures program.Value() == start.(clauses := snap + Rewrites(inner[..i + 1], n))
  {
    FoldStep(inner, i, n);
    var c := inner[i];
    changed := UpdateComponentClause(program, c, n);
    assert snap + Rewrites(inner[..i], n) + (if !UsesAtom(c, n) && NegatesAtom(c, n) then [Rewrite(c, n)] else [])
      == snap + Rewrites(inner[..i + 1], n);
  }

  /** The loop state of `removeEmptyRelationUses` after the first `i` clauses of `snap`,
      where `mid` holds the copies made for the component clauses. */
  function UsesState(snap: seq<Clause>, i: nat, mid: seq<Clause>, n: QualifiedName): seq<Clause>
    requires i <= |snap|
  {
    Untouched(snap[..i], n) + snap[i..] + mid + Rewrites(snap[..i], n)
  }

  /** `UpdateClause` on `snap[i]` turns the state after `i` clauses into the state
      after `i + 1`. */
  method UsesStep(program: AstProgram, snap: seq<Clause>, i: nat, ghost mid: seq<Clause>, n: QualifiedName,
                  ghost start: Program)
    returns (changed: bool)
    modifies program
    requires i < |snap|
    requires program.Value() == start.(clauses := UsesState(snap, i, mid, n))
    ensures changed <==> Touches(snap[i], n)
    ensures program.Value() == start.(clauses := UsesState(snap, i + 1, mid, n))
  {
    UsesStateStep(snap, i, mid, n);
    changed := UpdateClause(program, |Untouched(snap[..i], n)|, snap[i], n,
                            Untouched(snap[..i], n), snap[i + 1..] + mid + Rewrites(snap[..i], n));
  }

  /** The loop state before and after clause `i`, split around that clause. */
  lemma UsesStateStep(snap: seq<Clause>, i: nat, mid: seq<Clause>, n: QualifiedName)
    requires i < |snap|
    ensures var u, r, c := Untouched(snap[..i], n), Rewrites(snap[..i], n), snap[i];
      && UsesState(snap, i, mid, n) == u + [c] + (snap[i + 1..] + mid + r)
      && UsesState(snap, i + 1, mid, n) == u + (if Touches(c, n) then [] else [c]) + (snap[i + 1..] + mid + r)
           + (if !UsesAtom(c, n) && NegatesAtom(c, n) then [Rewrite(c, n)] else [])
  {
    FoldStep(snap, i, n);
    assert snap[i..] == [snap[i]] + snap[i + 1..];
  }

  /** The clauses of the components, visited first, only add copies. */
  method ComponentClausesPass(program: AstProgram, inner: seq<Clause>, n: QualifiedName) returns (changed: bool)
    modifies program
    ensures program.Value() == old(program.Value()).(clauses := old(program.clauses) + Rewrites(inner, n))
    ensures changed <==> exists c :: c in inner && Touches(c, n)
  {
    ghost var snap := program.clauses;
    ghost var start := program.Value();
    changed := false;
    assert inner[..0] == [];
    var i := 0;
    while i < |inner|
      invariant 0 <= i <= |inner|
      invariant program.Value() == start.(clauses := snap + Rewrites(inner[..i], n))
      invariant changed <==> TouchedBefore(inner, i, n)
    {
      var c := ComponentStep(program, inner, i, n, snap, start);
      TouchedBeforeStep(inner, i, n);
      changed := changed || c;
      i := i + 1;
    }
    assert inner[..i] == inner;
    TouchedBeforeAll(inner, n);
  }

  /** The program's own clauses, visited next, each in its original order: a clause
      with a positive atom of `n` is removed, and a clause negating `n` is removed and
      its rewritten copy added at the end. */
  method OwnClausesPass(program: AstProgram, n: QualifiedName, ghost mid: seq<Clause>, snap: seq<Clause>)
    returns (changed: bool)
    modifies program
    requires program.clauses == snap + mid
    ensures program.Value() == old(program.Value()).(clauses :=
      Untouched(snap, n) + mid + Rewrites(snap, n))
    ensures changed <==> exists c :: c in snap && Touches(c, n)
  {
    ghost var start := program.Value();
    changed := false;
    assert snap[..0] == [] && snap[0..] == snap;
    assert program.clauses == UsesState(snap, 0, mid, n);
    var i := 0;
    while i < |snap|
      invariant 0 <= i <= |snap|
      invariant program.Value() == start.(clauses := UsesState(snap, i, mid, n))
      invariant changed <==> TouchedBefore(snap, i, n)
    {
      var c := UsesStep(program, snap, i, mid, n, start);
      TouchedBeforeStep(snap, i, n);
      changed := changed || c;
      i := i + 1;
    }
    assert UsesState(snap, i, mid, n) == Untouched(snap, n) + mid + Rewrites(snap, n) by {
      assert snap[..i] == snap;
      assert snap[i..] == [];
    }
    TouchedBeforeAll(snap, n);
  }

  /** `removeEmptyRelationUses`: every clause of the program, its components' clauses
      first, is visited in its original order. A clause with a positive atom of `n` is
      removed, and a clause negating `n` is removed and its rewritten copy added at the
      end of the program's clause list; a component clause is not found by
      `removeClause` and stays, but its copy is added all the same. */
  method RemoveEmptyRelationUses(program: AstProgram, n: QualifiedName) returns (changed: bool)
    modifies program
    ensures program.Value() == old(program.Value()).(clauses := RemoveUses(old(program.components), old(program.clauses), n))
    ensures changed <==> exists c :: (c in ComponentClauses(old(program.components)) || c in old(program.clauses)) && Touches(c, n)
  {
    var inner, snap := ComponentClauses(program.components), program.clauses;
    var fromComponents := ComponentClausesPass(program, inner, n);
    var fromOwn := OwnClausesPass(program, n, Rewrites(inner, n), snap);
    changed := fromComponents || fromOwn;
  }

  /** Some clause among the first `i` of `snap` is touched. */
  predicate TouchedBefore(snap: seq<Clause>, i: nat, n: QualifiedName)
    requires i <= |snap|
  {
    exists j :: 0 <= j < i && Touches(snap[j], n)
  }

  lemma TouchedBeforeStep(snap: seq<Clause>, i: nat, n: QualifiedName)
    requires i < |snap|
    ensures TouchedBefore(snap, i + 1, n) <==> TouchedBefore(snap, i, n) || Touches(snap[i], n)
  {
    if TouchedBefore(snap, i + 1, n) && !Touches(snap[i], n) {
      var j :| 0 <= j < i + 1 && Touches(snap[j], n);
      assert j < i;
    }
  }

  lemma TouchedBeforeAll(snap: seq<Clause>, n: QualifiedName)
    ensures TouchedBefore(snap, |snap|, n) <==> exists c :: c in snap && Touches(c, n)
  {
    if exists c :: c in snap && Touches(c, n) {
      var c :| c in snap && Touches(c, n);
      var j :| 0 <= j < |snap| && snap[j] == c;
    }
  }

  lemma DoomedNamesStep(rels: seq<Relation>, i: nat, components: seq<Component>, clauses: seq<Clause>,
                        inputs: set<QualifiedName>, outputs: set<QualifiedName>)
    requires i < |rels|
    ensures DoomedNames(rels[..i + 1], components, clauses, inputs, outputs) ==
      DoomedNames(rels[..i], components, clauses, inputs, outputs)
      + (if Doomed(components, clauses, inputs, outputs, rels[i].name) then {rels[i].name} else {})
  {
    assert rels[..i + 1][..i] == rels[..i];
  }

  /** The tests of the loop body: is the relation empty, and is its declaration to go. */
  method Classify(components: seq<Component>, clauses: seq<Clause>, inputs: set<QualifiedName>,
                  outputs: set<QualifiedName>, name: QualifiedName)
    returns (empty: bool, doomed: bool)
    ensures empty == IsEmptyRelation(clauses, inputs, name)
    ensures doomed == Doomed(components, clauses, inputs, outputs, name)
  {
    empty := ClausesOf(clauses, name) == [] && name !in inputs;
    doomed := false;
    if empty {
      var usedInAggregate := UsedInAggregate(components, clauses, name);
      doomed := !usedInAggregate && name !in outputs;
    }
  }

  /** One turn of the loop over the relations, on `rels[i]`. */
  method VisitRelation(program: AstProgram, rels: seq<Relation>, i: nat, inputs: set<QualifiedName>,
                       outputs: set<QualifiedName>, emptyBefore: seq<QualifiedName>)
    returns (emptyAfter: seq<QualifiedName>, removed: bool)
    modifies program
    requires i < |rels|
    requires program.relations == Kept(rels, DoomedNames(rels[..i], program.components, program.clauses, inputs, outputs))
    requires emptyBefore == EmptyNames(rels[..i], program.clauses, inputs)
    ensures program.Value() == old(program.Value()).(relations :=
      Kept(rels, DoomedNames(rels[..i + 1], old(program.components), old(program.clauses), inputs, outputs)))
    ensures emptyAfter == EmptyNames(rels[..i + 1], old(program.clauses), inputs)
    ensures removed <==> Doomed(old(program.components), old(program.clauses), inputs, outputs, rels[i].name)
  {
    LessIsStrictTotalOrder();
    assert rels[..i + 1][..i] == rels[..i];
    var name := rels[i].name;
    ghost var gone := DoomedNames(rels[..i], program.components, program.clauses, inputs, outputs);
    DoomedNamesStep(rels, i, program.components, program.clauses, inputs, outputs);
    var empty, doomed := Classify(program.components, program.clauses, inputs, outputs, name);
    emptyAfter := if empty then Insert(emptyBefore, name, Less) else emptyBefore;
    removed := doomed;
    if doomed {
      KeptStep(rels, gone, name);
      var _ := program.RemoveRelationDecl(name);
    } else {
      assert gone + {} == gone;
    }
  }

  /** The loop over the relations of `removeEmptyRelations`: the declarations of the
      doomed relations go, and the names of the empty ones are collected in order. */
  method RemoveDeclarations(program: AstProgram, inputs: set<QualifiedName>, outputs: set<QualifiedName>)
    returns (emptyRelations: seq<QualifiedName>, changed: bool)
    modifies program
    ensures var rels, cls, comps := old(program.relations), old(program.clauses), old(program.components);
      var doomed := DoomedNames(rels, comps, cls, inputs, outputs);
      && program.Value() == old(program.Value()).(relations := Kept(rels, doomed))
      && emptyRelations == EmptyNames(rels, cls, inputs)
      && (changed <==> doomed != {})
  {
    var rels := program.relations;
    ghost var clauses, components := program.clauses, program.components;
    emptyRelations := [];
    changed := false;
    KeptNothing(rels);
    var i := 0;
    while i < |rels|
      invariant 0 <= i <= |rels|
      invariant program.Value() == old(program.Value()).(relations := program.relations)
      invariant program.relations == Kept(rels, DoomedNames(rels[..i], components, clauses, inputs, outputs))
      invariant emptyRelations == EmptyNames(rels[..i], clauses, inputs)
      invariant changed <==> DoomedNames(rels[..i], components, clauses, inputs, outputs) != {}
    {
      DoomedNamesStep(rels, i, components, clauses, inputs, outputs);
      var removed;
      emptyRelations, removed := VisitRelation(program, rels, i, inputs, outputs, emptyRelations);
      changed := changed || removed;
      i := i + 1;
    }
    assert rels[..i] == rels;
  }

  /** The loop over `emptyRelations`: the uses of each name in turn. */
  method RemoveAllEmptyUses(program: AstProgram, names: seq<QualifiedName>) returns (changed: bool)
    modifies program
    ensures program.Value() == old(program.Value()).(clauses :=
      RemoveAllUses(old(program.components), old(program.clauses), names))
    ensures changed <==> AnyUsesChanged(old(program.components), old(program.clauses), names)
  {
    ghost var clauses, comps := old(program.clauses), old(program.components);
    changed := false;
    var k := 0;
    while k < |names|
      invariant 0 <= k <= |names|
      invariant program.Value() == old(program.Value()).(clauses := program.clauses)
      invariant program.clauses == RemoveAllUses(comps, clauses, names[..k])
      invariant changed <==> AnyUsesChanged(comps, clauses, names[..k])
    {
      assert names[..k + 1][..k] == names[..k];
      var c := RemoveEmptyRelationUses(program, names[k]);
      changed := changed || c;
      k := k + 1;
    }
    assert names[..k] == names;
  }

  /** `removeEmptyRelations` (what `transform` runs): the declarations of the doomed
      relations go, then the uses of every empty relation, in name order. The result
      tells whether a declaration or a clause was removed or a clause rewritten. */
  method Transform(program: AstProgram, io: IOTypes.IOType) returns (changed: bool)
    modifies program
    ensures var rels, cls, comps := old(program.relations), old(program.clauses), old(program.components);
      var doomed := DoomedNames(rels, comps, cls, io.inputRelations, io.outputRelations);
      var empties := EmptyNames(rels, cls, io.inputRelations);
      && program.Value() == old(program.Value()).(relations := Kept(rels, doomed),
                                                  clauses := RemoveAllUses(comps, cls, empties))
      && (changed <==> doomed != {} || AnyUsesChanged(comps, cls, empties))
  {
    var emptyRelations, removed := RemoveDeclarations(program, io.inputRelations, io.outputRelations);
    var rewritten := RemoveAllEmptyUses(program, emptyRelations);
    changed := removed || rewritten;
  }
}
