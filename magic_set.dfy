/** The adornment work queue of the magic-set transformation (`MagicSet.h`,
    `AdornDatabaseTransformer`): adorned predicates still to be processed are kept in
    an ordered set, guarded by the set of adornment identifiers already seen, so that
    each identifier enters the queue at most once. `getAdornmentID` is declared but
    not defined in `MagicSet.h`; it is a parameter of the object here. */
module MagicSets {
  import opened Orders
  import opened QualifiedNames

  /** `adorned_predicate`: a relation name with its adornment marker. */
  datatype Adornment = Adornment(relName: QualifiedName, marker: string)

  /** `std::pair`'s `<`: by relation name, then by marker. */
  function AdornmentLess(a: Adornment, b: Adornment): bool
  {
    Less(a.relName, b.relName) || (!Less(b.relName, a.relName) && StringLess(a.marker, b.marker))
  }

  lemma AdornmentLessIsStrictTotalOrder()
    ensures StrictTotalOrder(AdornmentLess)
  {
    LessIsStrictTotalOrder();
    StringLessIsStrictTotalOrder();
  }

  class AdornDatabaseTransformer {
    /** `headAdornmentsToDo`, in ascending order. */
    var headAdornmentsToDo: seq<Adornment>
    /** `headAdornmentsSeen`. */
    var headAdornmentsSeen: set<QualifiedName>
    /** `getAdornmentID`. */
    const adornmentId: (QualifiedName, string) -> QualifiedName
    /** The identifiers in the order they were queued. */
    ghost var queued: seq<QualifiedName>

    /** The to-do set is an ordered set; every queued adornment's identifier has been
        seen; the seen identifiers are exactly those ever queued, each once. */
    ghost predicate Valid()
      reads this
    {
      StrictTotalOrder(AdornmentLess) &&
      StrictlySorted(headAdornmentsToDo, AdornmentLess) &&
      (forall a :: a in headAdornmentsToDo ==> adornmentId(a.relName, a.marker) in headAdornmentsSeen) &&
      (forall x :: x in queued <==> x in headAdornmentsSeen) &&
      (forall i, j :: 0 <= i < j < |queued| ==> queued[i] != queued[j])
    }

    constructor (adornmentId: (QualifiedName, string) -> QualifiedName)
      ensures Valid()
      ensures headAdornmentsToDo == [] && headAdornmentsSeen == {} && this.adornmentId == adornmentId
    {
      this.adornmentId := adornmentId;
      headAdornmentsToDo := [];
      headAdornmentsSeen := {};
      queued := [];
      AdornmentLessIsStrictTotalOrder();
    }

    /** `queueAdornment`: the adornment goes into the to-do set only when its
        identifier has not been seen; afterwards the identifier is seen. */
    method QueueAdornment(relName: QualifiedName, marker: string)
      requires Valid()
      modifies this
      ensures Valid()
      ensures headAdornmentsSeen == old(headAdornmentsSeen) + {adornmentId(relName, marker)}
      ensures adornmentId(relName, marker) in old(headAdornmentsSeen) ==>
        headAdornmentsToDo == old(headAdornmentsToDo) && queued == old(queued)
      ensures adornmentId(relName, marker) !in old(headAdornmentsSeen) ==>
        headAdornmentsToDo == Insert(old(headAdornmentsToDo), Adornment(relName, marker), AdornmentLess) &&
        |headAdornmentsToDo| == |old(headAdornmentsToDo)| + 1 &&
        queued == old(queued) + [adornmentId(relName, marker)]
    {
      var id := adornmentId(relName, marker);
      if id !in headAdornmentsSeen {
        var a := Adornment(relName, marker);
        assert a !in headAdornmentsToDo;
        headAdornmentsToDo := Insert(headAdornmentsToDo, a, AdornmentLess);
        headAdornmentsSeen := headAdornmentsSeen + {id};
        queued := queued + [id];
      }
    }

    /** `hasAdornmentToProcess`. */
    method HasAdornmentToProcess() returns (r: bool)
      ensures r <==> headAdornmentsToDo != []
    {
      r := |headAdornmentsToDo| > 0;
    }

    /** `nextAdornmentToProcess`: the least adornment of the to-do set is removed and
        returned; the seen set is kept, so it cannot be queued again. */
    method NextAdornmentToProcess() returns (a: Adornment)
      requires Valid() && headAdornmentsToDo != []
      modifies this
      ensures Valid()
      ensures a == old(headAdornmentsToDo[0])
      ensures a in old(headAdornmentsToDo) && a !in headAdornmentsToDo
      ensures forall b :: b in old(headAdornmentsToDo) && b != a ==> AdornmentLess(a, b)
      ensures headAdornmentsToDo == old(headAdornmentsToDo[1..])
      ensures headAdornmentsSeen == old(headAdornmentsSeen) && queued == old(queued)
    {
      a := headAdornmentsToDo[0];
      forall b | b in headAdornmentsToDo && b != a ensures AdornmentLess(a, b) {
        FirstIsLeast(headAdornmentsToDo, b, AdornmentLess);
      }
      headAdornmentsToDo := headAdornmentsToDo[1..];
      forall b | b in headAdornmentsToDo ensures b != a {
        var k :| 0 <= k < |headAdornmentsToDo| && headAdornmentsToDo[k] == b;
        assert old(headAdornmentsToDo)[k + 1] == b;
      }
    }
  }

  /** Queueing the same adornment twice has the effect of queueing it once: the
      second call finds its identifier seen and leaves the to-do set alone. */
  method QueueAdornmentIdempotent(t: AdornDatabaseTransformer, relName: QualifiedName, marker: string)
    requires t.Valid()
    modifies t
    ensures t.Valid()
    ensures t.headAdornmentsSeen == old(t.headAdornmentsSeen) + {t.adornmentId(relName, marker)}
    ensures t.headAdornmentsToDo ==
      if t.adornmentId(relName, marker) in old(t.headAdornmentsSeen) then old(t.headAdornmentsToDo)
      else Insert(old(t.headAdornmentsToDo), Adornment(relName, marker), AdornmentLess)
    ensures t.queued == old(t.queued) || t.queued == old(t.queued) + [t.adornmentId(relName, marker)]
  {
    t.QueueAdornment(relName, marker);
    ghost var mid := t.headAdornmentsToDo;
    t.QueueAdornment(relName, marker);
    assert t.headAdornmentsToDo == mid;
  }
}
