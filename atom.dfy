/** `AstAtom` (`Atom.h`): a relation name applied to a list of arguments, whose name
    and arguments are updated in place. */
module Atoms {
  import opened Util
  import opened QualifiedNames
  import opened Ast
  import opened Equality

  class AstAtom {
    var name: QualifiedName
    var arguments: seq<Argument>

    constructor (name: QualifiedName, arguments: seq<Argument>)
      ensures Value() == Atom(name, arguments)
    {
      this.name := name;
      this.arguments := arguments;
    }

    function Value(): Atom
      reads this
    {
      Atom(name, arguments)
    }

    /** `getArity`: the number of arguments. */
    method GetArity() returns (n: nat)
      ensures n == |Value().args|
    {
      n := |arguments|;
    }

    /** `setQualifiedName`: only the name changes. */
    method SetQualifiedName(n: QualifiedName)
      modifies this
      ensures Value() == old(Value()).(name := n)
    {
      name := n;
    }

    /** `addArgument`: one more argument at the end; the name and the earlier
        arguments stay, and the arity grows by one. */
    method AddArgument(arg: Argument)
      modifies this
      ensures Value() == old(Value()).(args := old(arguments) + [arg])
      ensures |arguments| == |old(arguments)| + 1
    {
      arguments := arguments + [arg];
    }

    /** `clone`: a new atom equal to this one. */
    method Clone() returns (res: AstAtom)
      ensures fresh(res)
      ensures AtomEqual(res.Value(), Value())
    {
      res := new AstAtom(name, arguments);
      AtomEqualIsIdentity(res.Value(), Value());
    }

    /** `apply`: every argument is replaced by its image under the mapper, in place;
        the name and the number of arguments stay. */
    method Apply(mapper: Argument -> Argument)
      modifies this
      ensures name == old(name)
      ensures |arguments| == |old(arguments)|
      ensures forall i :: 0 <= i < |arguments| ==> arguments[i] == mapper(old(arguments)[i])
    {
      arguments := MapEach(arguments, mapper);
    }

    /** `getChildNodes`: the arguments, in order. */
    method ChildNodes() returns (res: seq<Node>)
      ensures |res| == |arguments|
      ensures forall i :: 0 <= i < |res| ==> res[i] == ArgumentNode(arguments[i])
    {
      res := MapEach(arguments, (a: Argument) => ArgumentNode(a));
    }

    /** `operator==` between atoms: it holds exactly when the two atoms have the same
        name and the same arguments. */
    predicate Equals(other: AstAtom)
      reads this, other
      ensures Equals(other) <==> name == other.name && arguments == other.arguments
    {
      AtomEqualIsIdentity(Value(), other.Value());
      AtomEqual(Value(), other.Value())
    }
  }
}
