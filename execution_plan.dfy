/** `AstExecutionPlan` (`ExecutionPlan.h`): the user-defined execution orders of a
    clause, one per clause version, held in a `std::map<int, ...>` and therefore
    visited in ascending version order. The map is modelled as its entries in that
    order (`Ast.ExecutionPlan`). */
module ExecutionPlans {
  import opened Util
  import opened Ast
  import opened Equality
  import opened Printing

  /** The entries are strictly ascending by version: no version occurs twice. */
  predicate Ascending(entries: seq<PlanEntry>)
  {
    forall i, j :: 0 <= i < j < |entries| ==> entries[i].version < entries[j].version
  }

  /** The order stored for version `v`, if any (`plans.find(v)`). */
  function Lookup(entries: seq<PlanEntry>, v: int): Option<ExecutionOrder>
  {
    if |entries| == 0 then None
    else if entries[0].version == v then Some(entries[0].order)
    else Lookup(entries[1..], v)
  }

  /** `plans[v] = o`: the entry for `v` is created or overwritten in its place. */
  function Upsert(entries: seq<PlanEntry>, v: int, o: ExecutionOrder): (r: seq<PlanEntry>)
    requires Ascending(entries)
    ensures Ascending(r)
    ensures Lookup(r, v) == Some(o)
    ensures forall w :: w != v ==> Lookup(r, w) == Lookup(entries, w)
    ensures forall e :: e in r ==> e == PlanEntry(v, o) || e in entries
  {
    if |entries| == 0 then [PlanEntry(v, o)]
    else if v < entries[0].version then
      assert forall k :: 0 <= k < |entries| ==> v < entries[k].version by {
        forall k | 0 <= k < |entries| ensures v < entries[k].version {
          if k > 0 { assert entries[0].version < entries[k].version; }
        }
      }
      [PlanEntry(v, o)] + entries
    else if v == entries[0].version then
      [PlanEntry(v, o)] + entries[1..]
    else
      var rest := Upsert(entries[1..], v, o);
      assert forall k :: 0 <= k < |rest| ==> entries[0].version < rest[k].version by {
        forall k | 0 <= k < |rest| ensures entries[0].version < rest[k].version {
          assert rest[k] in rest;
          if rest[k] != PlanEntry(v, o) {
            var m :| 0 <= m < |entries[1..]| && entries[1..][m] == rest[k];
            assert entries[m + 1] == rest[k];
          }
        }
      }
      [entries[0]] + rest
  }

  /** Inserting a version above every stored one appends its entry. */
  lemma {:induction false} UpsertAbove(entries: seq<PlanEntry>, v: int, o: ExecutionOrder)
    requires Ascending(entries)
    requires forall k :: 0 <= k < |entries| ==> entries[k].version < v
    ensures Upsert(entries, v, o) == entries + [PlanEntry(v, o)]
  {
    if |entries| > 0 {
      UpsertAbove(entries[1..], v, o);
      assert entries == [entries[0]] + entries[1..];
    }
  }

  /** A later `setOrderFor` of the same version wins: the earlier order is gone. */
  lemma {:induction false} UpsertOverwrites(entries: seq<PlanEntry>, v: int, o1: ExecutionOrder, o2: ExecutionOrder)
    requires Ascending(entries)
    ensures Upsert(Upsert(entries, v, o1), v, o2) == Upsert(entries, v, o2)
  {
    if |entries| > 0 && v > entries[0].version {
      UpsertOverwrites(entries[1..], v, o1, o2);
    }
  }

  class AstExecutionPlan {
    var entries: seq<PlanEntry>

    predicate Valid()
      reads this
    {
      Ascending(entries)
    }

    constructor ()
      ensures Valid() && entries == []
    {
      entries := [];
    }

    function Value(): ExecutionPlan
      reads this
    {
      ExecutionPlan(entries)
    }

    /** The order stored for a version. */
    function OrderFor(v: int): Option<ExecutionOrder>
      reads this
    {
      Lookup(entries, v)
    }

    /** `setOrderFor`: `o` becomes the order of version `v`, replacing an earlier one;
        every other version keeps its order. */
    method SetOrderFor(v: int, o: ExecutionOrder)
      requires Valid()
      modifies this
      ensures Valid()
      ensures entries == Upsert(old(entries), v, o)
      ensures OrderFor(v) == Some(o)
      ensures forall w :: w != v ==> OrderFor(w) == old(OrderFor(w))
    {
      entries := Upsert(entries, v, o);
    }

    /** `getOrders`: a new map holding exactly the stored versions and their orders,
        in ascending version order. */
    method GetOrders() returns (result: seq<PlanEntry>)
      requires Valid()
      ensures result == entries
      ensures Ascending(result)
    {
      result := [];
      var i := 0;
      while i < |entries|
        invariant 0 <= i <= |entries|
        invariant result == entries[..i]
      {
        UpsertAbove(result, entries[i].version, entries[i].order);
        result := Upsert(result, entries[i].version, entries[i].order);
        i := i + 1;
      }
    }

    /** `clone`: a new plan with the same versions and equal orders, built by
        `setOrderFor` entry by entry. */
    method Clone() returns (res: AstExecutionPlan)
      requires Valid()
      ensures fresh(res) && res.Valid()
      ensures PlanEqual(res.Value(), Value())
    {
      res := new AstExecutionPlan();
      var i := 0;
      while i < |entries|
        invariant 0 <= i <= |entries|
        invariant res.Valid() && res.entries == entries[..i]
      {
        UpsertAbove(res.entries, entries[i].version, entries[i].order);
        res.SetOrderFor(entries[i].version, entries[i].order);
        i := i + 1;
      }
      assert entries[..i] == entries;
      PlanEqualIsIdentity(res.Value(), Value());
    }

    /** `apply`: each stored order is replaced in place by its image; the versions
        stay as they were. */
    method Apply(mapper: ExecutionOrder -> ExecutionOrder)
      requires Valid()
      modifies this
      ensures Valid()
      ensures |entries| == |old(entries)|
      ensures forall i :: 0 <= i < |entries| ==>
        entries[i] == PlanEntry(old(entries)[i].version, mapper(old(entries)[i].order))
    {
      var i := 0;
      while i < |entries|
        invariant 0 <= i <= |entries| && |entries| == |old(entries)|
        invariant forall j :: 0 <= j < i ==>
          entries[j] == PlanEntry(old(entries)[j].version, mapper(old(entries)[j].order))
        invariant forall j :: i <= j < |entries| ==> entries[j] == old(entries)[j]
      {
        entries := entries[i := PlanEntry(entries[i].version, mapper(entries[i].order))];
        i := i + 1;
      }
    }

    /** `getChildNodes`: the orders, in ascending version order. */
    method ChildNodes() returns (res: seq<Node>)
      ensures |res| == |entries|
      ensures forall i :: 0 <= i < |res| ==> res[i] == OrderNode(entries[i].order)
    {
      res := [];
      var i := 0;
      while i < |entries|
        invariant 0 <= i <= |entries|
        invariant |res| == i
        invariant forall j :: 0 <= j < i ==> res[j] == OrderNode(entries[j].order)
      {
        res := res + [OrderNode(entries[i].order)];
        i := i + 1;
      }
    }

    /** `print`, see `Printing.PlanText`. */
    function Print(): string
      reads this
    {
      PlanText(Value())
    }

    /** `operator==` between plans: the same versions, each with an equal order. */
    predicate Equals(other: AstExecutionPlan)
      reads this, other
      ensures Equals(other) <==> entries == other.entries
    {
      PlanEqualIsIdentity(Value(), other.Value());
      PlanEqual(Value(), other.Value())
    }
  }
}
