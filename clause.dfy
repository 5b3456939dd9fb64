/** `AstClause` (`Clause.h`): a head atom, a list of body literals and an optional
    user-defined execution plan, each replaceable in place. */
module Clauses {
  import opened Util
  import opened Ast
  import opened Equality
  import opened Printing

  class AstClause {
    var head: Atom
    var body: seq<Literal>
    var plan: Option<ExecutionPlan>

    constructor (head: Atom, body: seq<Literal>, plan: Option<ExecutionPlan>)
      ensures Value() == Clause(head, body, plan)
    {
      this.head := head;
      this.body := body;
      this.plan := plan;
    }

    function Value(): Clause
      reads this
    {
      Clause(head, body, plan)
    }

    /** `addToBody`: the literal goes at the end of the body; the head, the plan and
        the earlier literals stay. */
    method AddToBody(literal: Literal)
      modifies this
      ensures Value() == old(Value()).(body := old(body) + [literal])
    {
      body := body + [literal];
    }

    /** `setHead`: only the head changes. */
    method SetHead(h: Atom)
      modifies this
      ensures Value() == old(Value()).(head := h)
    {
      head := h;
    }

    /** `setBodyLiterals`: only the body changes. */
    method SetBodyLiterals(literals: seq<Literal>)
      modifies this
      ensures Value() == old(Value()).(body := literals)
    {
      body := literals;
    }

    /** `setExecutionPlan`: the plan is replaced. */
    method SetExecutionPlan(p: ExecutionPlan)
      modifies this
      ensures Value() == old(Value()).(plan := Some(p))
    {
      plan := Some(p);
    }

    /** `clearExecutionPlan`: the plan becomes absent. */
    method ClearExecutionPlan()
      modifies this
      ensures Value() == old(Value()).(plan := None)
    {
      plan := None;
    }

    /** `clone`: a new clause equal to this one. */
    method Clone() returns (res: AstClause)
      ensures fresh(res)
      ensures ClauseEqual(res.Value(), Value())
    {
      res := new AstClause(head, body, plan);
      ClauseEqualIsIdentity(res.Value(), Value());
    }

    /** `apply`: the head and then every body literal are replaced in place by their
        images; the plan is not touched. */
    method Apply(atomMapper: Atom -> Atom, literalMapper: Literal -> Literal)
      modifies this
      ensures head == atomMapper(old(head))
      ensures |body| == |old(body)|
      ensures forall i :: 0 <= i < |body| ==> body[i] == literalMapper(old(body)[i])
      ensures plan == old(plan)
    {
      head := atomMapper(head);
      body := MapEach(body, literalMapper);
    }

    /** `getChildNodes`: the head, then the body literals in order; the plan is not a
        child. */
    method ChildNodes() returns (res: seq<Node>)
      ensures |res| == 1 + |body|
      ensures res[0] == AtomNode(head)
      ensures forall i :: 0 <= i < |body| ==> res[i + 1] == LiteralNode(body[i])
    {
      res := [AtomNode(head)];
      var i := 0;
      while i < |body|
        invariant 0 <= i <= |body|
        invariant |res| == 1 + i && res[0] == AtomNode(head)
        invariant forall j :: 0 <= j < i ==> res[j + 1] == LiteralNode(body[j])
      {
        res := res + [LiteralNode(body[i])];
        i := i + 1;
      }
    }

    /** `print`, see `Printing.ClauseText`. */
    function Print(): string
      reads this
    {
      ClauseText(Value())
    }

    /** `operator==` between clauses: equal heads, pairwise-equal bodies, equal plans. */
    predicate Equals(other: AstClause)
      reads this, other
      ensures Equals(other) <==> head == other.head && body == other.body && plan == other.plan
    {
      ClauseEqualIsIdentity(Value(), other.Value());
      ClauseEqual(Value(), other.Value())
    }
  }
}
