/** Qualified names (`QualifiedName.h`): a sequence of qualifiers that identifies a
    relation, type or component, printed with "_" between the qualifiers and ordered
    lexicographically so that it can key ordered containers. */
module QualifiedNames {
  import opened Util
  import opened Orders

  datatype QualifiedName = QualifiedName(qualifiers: seq<string>)

  /** The name built from one string (the one-argument constructor). */
  function Simple(name: string): QualifiedName
  {
    QualifiedName([name])
  }

  /** `empty()`: the name has no qualifiers, that is, it is the default-constructed name. */
  function IsEmpty(n: QualifiedName): (r: bool)
    ensures r <==> n == QualifiedName([])
  {
    |n.qualifiers| == 0
  }

  /** `toString()` and `print`: the qualifiers joined by "_". */
  function ToString(n: QualifiedName): string
  {
    Join(n.qualifiers, "_")
  }

  /** No qualifier contains the separator, so the printed text can be read back. */
  predicate Unambiguous(n: QualifiedName)
  {
    |n.qualifiers| >= 1 && forall i :: 0 <= i < |n.qualifiers| ==> '_' !in n.qualifiers[i]
  }

  /** Splitting the printed text of an unambiguous name at "_" gives its qualifiers back. */
  lemma ToStringRoundTrip(n: QualifiedName)
    requires Unambiguous(n)
    ensures Split(ToString(n), '_') == n.qualifiers
  {
    SplitJoin(n.qualifiers, '_');
  }

  /** Unambiguous names print differently exactly when they differ. */
  lemma ToStringInjective(a: QualifiedName, b: QualifiedName)
    requires Unambiguous(a) && Unambiguous(b)
    requires ToString(a) == ToString(b)
    ensures a == b
  {
    ToStringRoundTrip(a);
    ToStringRoundTrip(b);
  }

  /** Without the side condition the printed text is not injective: `a_b` is the text
      of the one-qualifier name "a_b" and of the two-qualifier name a.b. */
  lemma ToStringCollision()
    ensures ToString(QualifiedName(["a_b"])) == ToString(QualifiedName(["a", "b"]))
    ensures QualifiedName(["a_b"]) != QualifiedName(["a", "b"])
  {
    assert QualifiedName(["a_b"]).qualifiers != QualifiedName(["a", "b"]).qualifiers by {
      assert |["a_b"]| != |["a", "b"]|;
    }
  }

  function CharLess(a: char, b: char): bool
  {
    a < b
  }

  /** `std::string`'s `<`: character-wise lexicographic. */
  function StringLess(a: string, b: string): bool
  {
    LexLess(a, b, CharLess)
  }

  /** `operator<`: `std::lexicographical_compare` over the qualifiers. */
  function Less(a: QualifiedName, b: QualifiedName): bool
  {
    LexLess(a.qualifiers, b.qualifiers, StringLess)
  }

  lemma StringLessIsStrictTotalOrder()
    ensures StrictTotalOrder(StringLess)
  {
    forall a: string ensures !StringLess(a, a) {
      LexIrreflexive(a, CharLess);
    }
    forall a: string, b: string, c: string | StringLess(a, b) && StringLess(b, c)
      ensures StringLess(a, c)
    {
      LexTransitive(a, b, c, CharLess);
    }
    forall a: string, b: string | a != b ensures StringLess(a, b) || StringLess(b, a) {
      LexTotal(a, b, CharLess);
    }
  }

  /** `<` is irreflexive and transitive, and together with `==` it is total: a valid
      key order for `std::set` and `std::map`. */
  lemma LessIsStrictTotalOrder()
    ensures StrictTotalOrder(Less)
  {
    StringLessIsStrictTotalOrder();
    forall a: QualifiedName ensures !Less(a, a) {
      LexIrreflexive(a.qualifiers, StringLess);
    }
    forall a: QualifiedName, b: QualifiedName, c: QualifiedName | Less(a, b) && Less(b, c)
      ensures Less(a, c)
    {
      LexTransitive(a.qualifiers, b.qualifiers, c.qualifiers, StringLess);
    }
    forall a: QualifiedName, b: QualifiedName | a != b ensures Less(a, b) || Less(b, a) {
      LexTotal(a.qualifiers, b.qualifiers, StringLess);
    }
  }

  /** The mutable name object with its in-place `append` and `prepend`. */
  class AstQualifiedName {
    var qualifiers: seq<string>

    constructor (qualifiers: seq<string>)
      ensures this.qualifiers == qualifiers
    {
      this.qualifiers := qualifiers;
    }

    function Value(): QualifiedName
      reads this
    {
      QualifiedName(qualifiers)
    }

    /** `append`: the name goes at the end. */
    method Append(name: string)
      modifies this
      ensures qualifiers == old(qualifiers) + [name]
      ensures |qualifiers| == |old(qualifiers)| + 1
    {
      qualifiers := qualifiers + [name];
    }

    /** `prepend`: the name goes at the front, the others keep their order. */
    method Prepend(name: string)
      modifies this
      ensures qualifiers == [name] + old(qualifiers)
      ensures qualifiers[1..] == old(qualifiers)
    {
      qualifiers := [name] + qualifiers;
    }
  }

  /** `name + id`: a copy of `id` with `name` prepended; `id` itself is a value and
      stays as it was. */
  method Plus(name: string, id: QualifiedName) returns (res: QualifiedName)
    ensures res.qualifiers == [name] + id.qualifiers
    ensures |res.qualifiers| == |id.qualifiers| + 1 && res.qualifiers[0] == name
  {
    var copy := new AstQualifiedName(id.qualifiers);
    copy.Prepend(name);
    res := copy.Value();
  }
}
