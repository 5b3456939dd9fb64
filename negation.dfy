/** `AstNegation` (`Negation.h`): a negated atom. */
module Negations {
  import opened Ast
  import opened Equality

  class AstNegation {
    var atom: Atom

    /** A negation is built around exactly one atom. */
    constructor (atom: Atom)
      ensures Value() == Negation(atom)
    {
      this.atom := atom;
    }

    function Value(): Negation
      reads this
    {
      Negation(atom)
    }

    /** `getAtom`: the wrapped atom. */
    method GetAtom() returns (a: Atom)
      ensures Value() == Negation(a)
    {
      a := atom;
    }

    /** `clone`: a new negation equal to this one. */
    method Clone() returns (res: AstNegation)
      ensures fresh(res)
      ensures NegationEqual(res.Value(), Value())
    {
      res := new AstNegation(atom);
      NegationEqualIsIdentity(res.Value(), Value());
    }

    /** `apply`: the wrapped atom, and nothing else, is replaced by its image. */
    method Apply(mapper: Atom -> Atom)
      modifies this
      ensures Value() == Negation(mapper(old(atom)))
    {
      atom := mapper(atom);
    }

    /** `getChildNodes`: the wrapped atom is the only child. */
    method ChildNodes() returns (res: seq<Node>)
      ensures res == [AtomNode(Value().atom)]
    {
      res := [AtomNode(atom)];
    }

    /** `operator==` between negations: it holds exactly when the wrapped atoms are equal. */
    predicate Equals(other: AstNegation)
      reads this, other
      ensures Equals(other) <==> atom == other.atom
    {
      NegationEqualIsIdentity(Value(), other.Value());
      NegationEqual(Value(), other.Value())
    }
  }
}
