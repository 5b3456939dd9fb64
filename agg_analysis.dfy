/** The aggregate analysis (`AggAnalysis.cpp`): the relations whose clauses contain an
    aggregate, closed under the predecessor relation of the SCC graph. The SCC graph
    is computed by an analysis that is not part of this model and is an input here:
    the SCCs are integer identifiers, each relation has its SCC, each SCC its
    predecessor SCCs and its relations. The `std::set`s of the source are strictly
    ascending sequences, so that "the first element" is defined as it is there. */
module AggAnalysis {
  import opened Orders
  import opened QualifiedNames
  import opened Ast

  datatype SccGraph = SccGraph(
    ids: set<int>,
    sccOf: map<QualifiedName, int>,
    preds: int -> seq<int>,
    rels: int -> seq<QualifiedName>)

  /** Every SCC a relation belongs to and every predecessor of an SCC is an SCC. */
  predicate WellFormed(g: SccGraph)
  {
    (forall r :: r in g.sccOf ==> g.sccOf[r] in g.ids) &&
    (forall x, y :: x in g.ids && y in g.preds(x) ==> y in g.ids)
  }

  function IntLess(a: int, b: int): bool
  {
    a < b
  }

  lemma IntLessIsStrictTotalOrder()
    ensures StrictTotalOrder(IntLess)
  {
  }

  // ---- aggregates in a clause ----

  predicate AggArg(a: Argument)
    decreases a
  {
    match a
    case Aggregator(_, _, _) => true
    case TypeCast(v, _) => AggArg(v)
    case RecordInit(xs) => AggArgs(xs)
    case BranchInit(_, xs) => AggArgs(xs)
    case Functor(_, xs) => AggArgs(xs)
    case _ => false
  }

  predicate AggArgs(xs: seq<Argument>)
    decreases xs
  {
    |xs| > 0 && (AggArg(xs[0]) || AggArgs(xs[1..]))
  }

  predicate AggLit(l: Literal)
  {
    match l
    case AtomLiteral(a) => AggArgs(a.args)
    case NegationLiteral(n) => AggArgs(n.atom.args)
    case BinaryConstraint(_, x, y) => AggArg(x) || AggArg(y)
  }

  /** The depth-first visit of the clause, head and body, meets an aggregator. */
  predicate HasAggregate(c: Clause)
  {
    AggArgs(c.head.args) || exists i :: 0 <= i < |c.body| && AggLit(c.body[i])
  }

  /** The relations that head a clause with an aggregate. */
  function AggRelations(clauses: seq<Clause>): set<QualifiedName>
  {
    set c | c in clauses && HasAggregate(c) :: c.head.name
  }

  /** The SCC graph is defined for the relations the analysis looks up. */
  predicate Covers(g: SccGraph, clauses: seq<Clause>)
  {
    forall c :: c in clauses && HasAggregate(c) ==> c.head.name in g.sccOf
  }

  /** The SCCs of the aggregate relations. */
  function Seeds(g: SccGraph, clauses: seq<Clause>): set<int>
    requires Covers(g, clauses)
  {
    set c | c in clauses && HasAggregate(c) :: g.sccOf[c.head.name]
  }

  /** A walk from a seed backwards along predecessor edges. */
  ghost predicate IsPath(g: SccGraph, seeds: set<int>, p: seq<int>)
  {
    |p| >= 1 && p[0] in seeds && forall i :: 0 <= i < |p| - 1 ==> p[i + 1] in g.preds(p[i])
  }

  /** Some walk from a seed ends at `x`. */
  ghost predicate Reaches(g: SccGraph, seeds: set<int>, x: int)
  {
    exists p :: IsPath(g, seeds, p) && p[|p| - 1] == x
  }

  lemma SeedReaches(g: SccGraph, seeds: set<int>, x: int)
    requires x in seeds
    ensures Reaches(g, seeds, x)
  {
    assert IsPath(g, seeds, [x]);
  }

  /** A walk to an SCC extends to each of its predecessors. */
  lemma ReachesStep(g: SccGraph, seeds: set<int>, x: int, y: int)
    requires Reaches(g, seeds, x) && y in g.preds(x)
    ensures Reaches(g, seeds, y)
  {
    var p :| IsPath(g, seeds, p) && p[|p| - 1] == x;
    var q := p + [y];
    forall i | 0 <= i < |q| - 1 ensures q[i + 1] in g.preds(q[i]) {
      if i < |q| - 2 {
        assert q[i] == p[i] && q[i + 1] == p[i + 1];
      }
    }
    assert IsPath(g, seeds, q);
  }

  /** A set that holds the seeds and is closed under predecessors holds the end of
      every walk. */
  lemma {:induction false} PathEndsIn(g: SccGraph, seeds: set<int>, s: seq<int>, p: seq<int>)
    requires forall x :: x in seeds ==> x in s
    requires forall x, y :: x in s && y in g.preds(x) ==> y in s
    requires IsPath(g, seeds, p)
    ensures p[|p| - 1] in s
    decreases |p|
  {
    if |p| > 1 {
      var q := p[..|p| - 1];
      assert IsPath(g, seeds, q) by {
        forall i | 0 <= i < |q| - 1 ensures q[i + 1] in g.preds(q[i]) {
          assert q[i] == p[i] && q[i + 1] == p[i + 1];
        }
      }
      PathEndsIn(g, seeds, s, q);
      var x, y := p[|p| - 2], p[|p| - 1];
      assert x == q[|q| - 1] && x in s;
      assert y in g.preds(x);
      assert y in s;
    } else {
      assert p[|p| - 1] == p[0] && p[0] in seeds;
    }
  }

  function Members(s: seq<QualifiedName>): set<QualifiedName>
  {
    set r | r in s
  }

  /** The relations of the given SCCs. */
  function RelationsOf(g: SccGraph, nodes: seq<int>): set<QualifiedName>
  {
    if |nodes| == 0 then {}
    else RelationsOf(g, nodes[..|nodes| - 1]) + Members(g.rels(nodes[|nodes| - 1]))
  }

  lemma {:induction false} RelationsOfMembers(g: SccGraph, nodes: seq<int>, r: QualifiedName)
    ensures r in RelationsOf(g, nodes) <==> exists x :: x in nodes && r in g.rels(x)
  {
    if |nodes| > 0 {
      var pre := nodes[..|nodes| - 1];
      RelationsOfMembers(g, pre, r);
      assert nodes == pre + [nodes[|nodes| - 1]];
      if exists x :: x in nodes && r in g.rels(x) {
        var x :| x in nodes && r in g.rels(x);
        if x != nodes[|nodes| - 1] { assert x in pre; }
      }
    }
  }

  // ---- the phases of `run` ----

  /** The first loop: the relations that have an aggregate in one of their clauses. */
  method FindAggregateRelations(clauses: seq<Clause>) returns (relations: seq<QualifiedName>)
    ensures StrictlySorted(relations, Less)
    ensures forall r :: r in relations <==> r in AggRelations(clauses)
  {
    LessIsStrictTotalOrder();
    relations := [];
    var i := 0;
    while i < |clauses|
      invariant 0 <= i <= |clauses|
      invariant StrictlySorted(relations, Less)
      invariant forall r :: r in relations <==> r in AggRelations(clauses[..i])
    {
      assert clauses[..i + 1] == clauses[..i] + [clauses[i]];
      if HasAggregate(clauses[i]) {
        relations := Insert(relations, clauses[i].head.name, Less);
      }
      i := i + 1;
    }
    assert clauses[..i] == clauses;
  }

  /** The second loop: the worklist starts with the SCCs of those relations. */
  method InitialWorklist(g: SccGraph, clauses: seq<Clause>, relations: seq<QualifiedName>)
    returns (worklist: seq<int>)
    requires Covers(g, clauses)
    requires forall r :: r in relations <==> r in AggRelations(clauses)
    ensures StrictlySorted(worklist, IntLess)
    ensures forall x :: x in worklist <==> x in Seeds(g, clauses)
  {
    IntLessIsStrictTotalOrder();
    assert forall j :: 0 <= j < |relations| ==> relations[j] in g.sccOf by {
      forall j | 0 <= j < |relations| ensures relations[j] in g.sccOf {
        assert relations[j] in AggRelations(clauses);
      }
    }
    worklist := [];
    var k := 0;
    while k < |relations|
      invariant 0 <= k <= |relations|
      invariant StrictlySorted(worklist, IntLess)
      invariant forall x :: x in worklist <==> exists j :: 0 <= j < k && g.sccOf[relations[j]] == x
    {
      worklist := Insert(worklist, g.sccOf[relations[k]], IntLess);
      k := k + 1;
    }
    forall x ensures x in worklist <==> x in Seeds(g, clauses) {
      if x in worklist {
        var j :| 0 <= j < |relations| && g.sccOf[relations[j]] == x;
        assert relations[j] in AggRelations(clauses);
      }
      if x in Seeds(g, clauses) {
        var c :| c in clauses && HasAggregate(c) && g.sccOf[c.head.name] == x;
        assert c.head.name in AggRelations(clauses);
        var j :| 0 <= j < |relations| && relations[j] == c.head.name;
      }
    }
  }

  /** The inner loop of the worklist loop: the predecessors of `node` that are not
      reachable yet go on the worklist. */
  method PushPredecessors(g: SccGraph, reachable: seq<int>, node: int, worklist: seq<int>)
    returns (w: seq<int>)
    requires StrictlySorted(worklist, IntLess)
    ensures StrictlySorted(w, IntLess)
    ensures forall x :: x in w <==> x in worklist || (x in g.preds(node) && x !in reachable)
  {
    IntLessIsStrictTotalOrder();
    w := worklist;
    var ps := g.preds(node);
    var m := 0;
    while m < |ps|
      invariant 0 <= m <= |ps|
      invariant StrictlySorted(w, IntLess)
      invariant forall x :: x in w <==> x in worklist || (x in ps[..m] && x !in reachable)
    {
      assert ps[..m + 1] == ps[..m] + [ps[m]];
      if ps[m] !in reachable {
        w := Insert(w, ps[m], IntLess);
      }
      m := m + 1;
    }
    assert ps[..m] == ps;
  }

  /** What the worklist loop keeps: the worklist and the reachable SCCs are apart and
      within the graph, every seed is in one of them, every predecessor of a
      reachable SCC is in one of them, and a walk from a seed ends at each of them. */
  ghost predicate ClosureInv(g: SccGraph, seeds: set<int>, worklist: seq<int>, reachable: seq<int>)
  {
    (forall x :: x in reachable ==> x in g.ids) &&
    (forall x :: x in worklist ==> x in g.ids && x !in reachable) &&
    (forall x :: x in seeds ==> x in reachable || x in worklist) &&
    (forall x, y :: x in reachable && y in g.preds(x) ==> y in reachable || y in worklist) &&
    (forall x :: x in reachable || x in worklist ==> Reaches(g, seeds, x))
  }

  /** One turn of the worklist loop keeps the invariant. */
  lemma ClosureStep(g: SccGraph, seeds: set<int>, w: seq<int>, r: seq<int>, w': seq<int>, r': seq<int>)
    requires WellFormed(g) && ClosureInv(g, seeds, w, r) && |w| > 0
    requires forall x :: x in r' <==> x in r || x == w[0]
    requires forall x :: x in w' <==> x in w[1..] || (x in g.preds(w[0]) && x !in r')
    requires w[0] !in w[1..]
    ensures ClosureInv(g, seeds, w', r')
  {
    var node := w[0];
    forall y | y in w' && y !in w[1..] ensures Reaches(g, seeds, y) && y in g.ids {
      ReachesStep(g, seeds, node, y);
    }
    forall x | x in seeds ensures x in r' || x in w' {
      if x in w && x != node { assert x in w[1..]; }
    }
    forall x, y | x in r' && y in g.preds(x) ensures y in r' || y in w' {
      if x != node && y !in r' {
        assert y in w;
        if y != node { assert y in w[1..]; }
      }
    }
    forall x | x in w[1..] ensures x !in r' { }
  }

  /** The worklist loop: the least SCC is taken out and made reachable, and those of
      its predecessors that are not reachable yet are put on the worklist. On exit
      the reachable SCCs are exactly the ends of the walks from the seeds. */
  method Closure(g: SccGraph, ghost seeds: set<int>, initial: seq<int>) returns (reachable: seq<int>)
    requires WellFormed(g) && seeds <= g.ids
    requires StrictlySorted(initial, IntLess) && forall x :: x in initial <==> x in seeds
    ensures StrictlySorted(reachable, IntLess)
    ensures forall x :: x in seeds ==> x in reachable
    ensures forall x, y :: x in reachable && y in g.preds(x) ==> y in reachable
    ensures forall x :: x in reachable ==> Reaches(g, seeds, x)
  {
    IntLessIsStrictTotalOrder();
    var worklist := initial;
    reachable := [];
    ghost var rset: set<int> := {};
    forall x | x in seeds ensures Reaches(g, seeds, x) {
      SeedReaches(g, seeds, x);
    }
    while |worklist| > 0
      invariant StrictlySorted(worklist, IntLess) && StrictlySorted(reachable, IntLess)
      invariant forall x :: x in rset <==> x in reachable
      invariant rset <= g.ids
      invariant ClosureInv(g, seeds, worklist, reachable)
      decreases |g.ids - rset|
    {
      var node := worklist[0];
      ghost var w0, r0 := worklist, reachable;
      worklist := worklist[1..];
      assert node !in worklist by {
        forall k | 0 <= k < |worklist| ensures worklist[k] != node {
          assert IntLess(w0[0], w0[k + 1]);
        }
      }
      ghost var before := rset;
      reachable := Insert(reachable, node, IntLess);
      rset := rset + {node};
      assert g.ids - rset == (g.ids - before) - {node};
      worklist := PushPredecessors(g, reachable, node, worklist);
      ClosureStep(g, seeds, w0, r0, worklist, reachable);
    }
  }

  /** The last loop: the relations of the reachable SCCs join the aggregate relations. */
  method CollectRelations(g: SccGraph, reachable: seq<int>, aggs: seq<QualifiedName>)
    returns (relations: seq<QualifiedName>)
    requires StrictlySorted(aggs, Less)
    ensures StrictlySorted(relations, Less)
    ensures forall r :: r in relations <==> r in aggs || exists x :: x in reachable && r in g.rels(x)
  {
    LessIsStrictTotalOrder();
    relations := aggs;
    var k := 0;
    while k < |reachable|
      invariant 0 <= k <= |reachable|
      invariant StrictlySorted(relations, Less)
      invariant forall r :: r in relations <==> r in aggs || r in RelationsOf(g, reachable[..k])
    {
      var rs := g.rels(reachable[k]);
      assert reachable[..k + 1][..k] == reachable[..k] && reachable[..k + 1][k] == reachable[k];
      var m := 0;
      while m < |rs|
        invariant 0 <= m <= |rs|
        invariant StrictlySorted(relations, Less)
        invariant forall r :: r in relations <==> r in aggs || r in RelationsOf(g, reachable[..k]) || r in rs[..m]
      {
        assert rs[..m + 1] == rs[..m] + [rs[m]];
        relations := Insert(relations, rs[m], Less);
        m := m + 1;
      }
      assert rs[..m] == rs;
      k := k + 1;
    }
    assert reachable[..k] == reachable;
    forall r ensures r in RelationsOf(g, reachable) <==> exists x :: x in reachable && r in g.rels(x) {
      RelationsOfMembers(g, reachable, r);
    }
  }

  /** `AggAnalysis::run`: the aggregate relations together with every relation of
      every SCC reachable from theirs; `reachable` is also returned. The result is the
      set the repository prints. */
  method Run(g: SccGraph, clauses: seq<Clause>) returns (relations: seq<QualifiedName>, reachable: seq<int>)
    requires WellFormed(g) && Covers(g, clauses)
    ensures StrictlySorted(relations, Less) && StrictlySorted(reachable, IntLess)
    ensures forall x :: x in reachable <==> Reaches(g, Seeds(g, clauses), x)
    ensures forall x :: x in Seeds(g, clauses) ==> x in reachable
    ensures forall x, y :: x in reachable && y in g.preds(x) ==> y in reachable
    ensures forall r :: r in relations <==>
      r in AggRelations(clauses) || exists x :: x in reachable && r in g.rels(x)
  {
    var aggs := FindAggregateRelations(clauses);
    var worklist := InitialWorklist(g, clauses, aggs);
    ghost var seeds := Seeds(g, clauses);
    reachable := Closure(g, seeds, worklist);
    forall x | Reaches(g, seeds, x) ensures x in reachable {
      var p :| IsPath(g, seeds, p) && p[|p| - 1] == x;
      PathEndsIn(g, seeds, reachable, p);
    }
    relations := CollectRelations(g, reachable, aggs);
  }
}
