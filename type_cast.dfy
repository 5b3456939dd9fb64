/** `AstTypeCast` (`TypeCast.h`): an argument converted to a named type. */
module TypeCasts {
  import opened QualifiedNames
  import opened Ast
  import opened Equality

  class AstTypeCast {
    var value: Argument
    var castType: QualifiedName

    constructor (value: Argument, castType: QualifiedName)
      ensures Value() == TypeCast(value, castType)
    {
      this.value := value;
      this.castType := castType;
    }

    function Value(): Argument
      reads this
    {
      TypeCast(value, castType)
    }

    /** `getValue` and `getType`: the two parts of the cast. */
    method GetValue() returns (v: Argument, t: QualifiedName)
      ensures Value() == TypeCast(v, t)
    {
      v, t := value, castType;
    }

    /** `setType`: only the target type changes. */
    method SetType(t: QualifiedName)
      modifies this
      ensures Value() == TypeCast(old(value), t)
    {
      castType := t;
    }

    /** `getChildNodes`: the children of a plain argument (none), then the value. */
    method ChildNodes() returns (res: seq<Node>)
      ensures res == [ArgumentNode(value)]
    {
      res := [];
      res := res + [ArgumentNode(value)];
    }

    /** `clone`: a new cast equal to this one. */
    method Clone() returns (res: AstTypeCast)
      ensures fresh(res)
      ensures ArgumentEqual(res.Value(), Value())
    {
      res := new AstTypeCast(value, castType);
      ArgumentEqualIsIdentity(res.Value(), Value());
    }

    /** `apply`: the value, and only the value, is replaced by its image. */
    method Apply(mapper: Argument -> Argument)
      modifies this
      ensures Value() == TypeCast(mapper(old(value)), old(castType))
    {
      value := mapper(value);
    }

    /** `operator==` between casts: the same type name and an equal value. */
    predicate Equals(other: AstTypeCast)
      reads this, other
      ensures Equals(other) <==> castType == other.castType && value == other.value
    {
      ArgumentEqualIsIdentity(Value(), other.Value());
      ArgumentEqual(Value(), other.Value())
    }
  }
}
