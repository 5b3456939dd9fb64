/** `AstTerm` (`Term.h`) and its subclass `AstBranchInit` (`BranchInit.h`): an argument
    built from a list of operand arguments. Which subclass a term belongs to is fixed
    when it is built; only its operand list changes afterwards. */
module Terms {
  import opened Util
  import opened Ast
  import opened Equality

  /** The subclass of a term: a record, a functor with its operator, or an ADT branch
      with its constructor name. */
  datatype TermKind = RecordKind | FunctorKind(op: string) | BranchKind(ctorName: string)

  /** `asVec`: the operands moved one by one into a new list, in the order given. */
  method AsVec(operands: seq<Argument>) returns (xs: seq<Argument>)
    ensures xs == operands
  {
    xs := [];
    var i := 0;
    while i < |operands|
      invariant 0 <= i <= |operands|
      invariant xs == operands[..i]
    {
      xs := xs + [operands[i]];
      i := i + 1;
    }
  }

  class AstTerm {
    const kind: TermKind
    var args: seq<Argument>

    constructor (kind: TermKind, operands: seq<Argument>)
      ensures this.kind == kind && args == operands
    {
      this.kind := kind;
      var xs := AsVec(operands);
      args := xs;
    }

    /** The `AstBranchInit` constructor: an ADT branch with its constructor name. */
    constructor BranchInit(ctorName: string, operands: seq<Argument>)
      ensures Value() == Argument.BranchInit(ctorName, operands)
    {
      kind := BranchKind(ctorName);
      args := operands;
    }

    function Value(): Argument
      reads this
    {
      match kind
      case RecordKind => RecordInit(args)
      case FunctorKind(op) => Functor(op, args)
      case BranchKind(c) => Argument.BranchInit(c, args)
    }

    /** `getConstructor` of a branch initialisation: the name it was built with. */
    method GetConstructor() returns (c: string)
      requires kind.BranchKind?
      ensures Value().BranchInit? && Value().ctorName == c
    {
      c := kind.ctorName;
    }

    /** `addArgument`: one more operand at the end, the earlier ones unchanged. */
    method AddArgument(arg: Argument)
      modifies this
      ensures args == old(args) + [arg]
      ensures args[..|old(args)|] == old(args)
    {
      args := args + [arg];
    }

    /** `getChildNodes`: the children of a plain argument (none), then the operands. */
    method ChildNodes() returns (res: seq<Node>)
      ensures |res| == |args|
      ensures forall i :: 0 <= i < |res| ==> res[i] == ArgumentNode(args[i])
    {
      res := [];
      var i := 0;
      while i < |args|
        invariant 0 <= i <= |args|
        invariant |res| == i
        invariant forall j :: 0 <= j < i ==> res[j] == ArgumentNode(args[j])
      {
        res := res + [ArgumentNode(args[i])];
        i := i + 1;
      }
    }

    /** `apply`: each operand is replaced in place by its image; the count stays. */
    method Apply(mapper: Argument -> Argument)
      modifies this
      ensures |args| == |old(args)|
      ensures forall i :: 0 <= i < |args| ==> args[i] == mapper(old(args)[i])
    {
      args := MapEach(args, mapper);
    }

    /** `clone` (of `AstBranchInit` and the other subclasses): the same kind, with
        equal operands. */
    method Clone() returns (res: AstTerm)
      ensures fresh(res)
      ensures res.kind == kind
      ensures ArgumentsEqual(res.args, args)
    {
      res := new AstTerm(kind, args);
      ArgumentsEqualIsIdentity(res.args, args);
    }

    /** `operator==` between terms of the same kind: pairwise equality of the operand
        lists, plus, for branch initialisations, the same constructor name. */
    predicate Equals(other: AstTerm)
      reads this, other
      ensures Equals(other) <==> kind == other.kind && args == other.args
    {
      ArgumentEqualIsIdentity(Value(), other.Value());
      ArgumentEqual(Value(), other.Value())
    }
  }
}
