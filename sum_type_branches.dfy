/** The branch-to-type map (`SumTypeBranches.cpp`): for each algebraic data type
    declared at the top level of the program, in declaration order, whose name the
    type environment knows, every branch constructor is mapped to that type; a later
    type with the same constructor overwrites an earlier one. The type environment is
    given as the set of names it knows, and a type is identified by its name, which is
    what `getType` looks it up by. */
module SumTypeBranches {
  import opened QualifiedNames
  import opened Ast

  /** The map after the branches of one type named `n`, in order. */
  function AddBranches(m: map<string, QualifiedName>, bs: seq<BranchDecl>, n: QualifiedName): map<string, QualifiedName>
  {
    if |bs| == 0 then m else AddBranches(m, bs[..|bs| - 1], n)[bs[|bs| - 1].ctorName := n]
  }

  /** The map after one type declaration. */
  function AddType(m: map<string, QualifiedName>, t: TypeDecl, env: set<QualifiedName>): map<string, QualifiedName>
  {
    if t.AlgebraicDataType? && t.name in env then AddBranches(m, t.branches, t.name) else m
  }

  /** The map after the type declarations, in order. */
  function Branches(m: map<string, QualifiedName>, types: seq<TypeDecl>, env: set<QualifiedName>): map<string, QualifiedName>
  {
    if |types| == 0 then m else AddType(Branches(m, types[..|types| - 1], env), types[|types| - 1], env)
  }

  /** The constructors of the known algebraic data types among the declarations. */
  function KnownConstructors(types: seq<TypeDecl>, env: set<QualifiedName>): set<string>
  {
    set i, j | 0 <= i < |types| && types[i].AlgebraicDataType? && types[i].name in env
      && 0 <= j < |types[i].branches| :: types[i].branches[j].ctorName
  }

  lemma AddBranchesFacts(m: map<string, QualifiedName>, bs: seq<BranchDecl>, n: QualifiedName)
    ensures AddBranches(m, bs, n).Keys == m.Keys + set j | 0 <= j < |bs| :: bs[j].ctorName
    ensures forall c :: c in AddBranches(m, bs, n) && c !in m ==> AddBranches(m, bs, n)[c] == n
    ensures forall c :: c in m && (forall j :: 0 <= j < |bs| ==> bs[j].ctorName != c) ==>
      c in AddBranches(m, bs, n) && AddBranches(m, bs, n)[c] == m[c]
    ensures forall j :: 0 <= j < |bs| ==> AddBranches(m, bs, n)[bs[j].ctorName] == n
  {
    AddBranchesKeys(m, bs, n);
    AddBranchesValues(m, bs, n);
  }

  /** The constructors of a list of branches. */
  function CtorNames(bs: seq<BranchDecl>): set<string>
  {
    set j | 0 <= j < |bs| :: bs[j].ctorName
  }

  lemma CtorNamesStep(bs: seq<BranchDecl>)
    requires |bs| > 0
    ensures CtorNames(bs) == CtorNames(bs[..|bs| - 1]) + {bs[|bs| - 1].ctorName}
  {
    var pre := bs[..|bs| - 1];
    assert forall j :: 0 <= j < |pre| ==> pre[j] == bs[j];
  }

  lemma {:induction false} AddBranchesKeys(m: map<string, QualifiedName>, bs: seq<BranchDecl>, n: QualifiedName)
    ensures AddBranches(m, bs, n).Keys == m.Keys + CtorNames(bs)
  {
    if |bs| > 0 {
      AddBranchesKeys(m, bs[..|bs| - 1], n);
      CtorNamesStep(bs);
    }
  }

  lemma {:induction false} AddBranchesValues(m: map<string, QualifiedName>, bs: seq<BranchDecl>, n: QualifiedName)
    ensures forall c :: c in AddBranches(m, bs, n) && c !in m ==> AddBranches(m, bs, n)[c] == n
    ensures forall c :: c in m && (forall j :: 0 <= j < |bs| ==> bs[j].ctorName != c) ==>
      c in AddBranches(m, bs, n) && AddBranches(m, bs, n)[c] == m[c]
    ensures forall j :: 0 <= j < |bs| ==>
      bs[j].ctorName in AddBranches(m, bs, n) && AddBranches(m, bs, n)[bs[j].ctorName] == n
  {
    if |bs| > 0 {
      var pre := bs[..|bs| - 1];
      AddBranchesValues(m, pre, n);
      assert forall j :: 0 <= j < |pre| ==> pre[j] == bs[j];
    }
  }

  /** The constructors that the last declaration adds. */
  lemma KnownConstructorsStep(types: seq<TypeDecl>, env: set<QualifiedName>)
    requires |types| > 0
    ensures var t := types[|types| - 1];
      KnownConstructors(types, env) == KnownConstructors(types[..|types| - 1], env)
        + (if t.AlgebraicDataType? && t.name in env then CtorNames(t.branches) else {})
  {
    var pre := types[..|types| - 1];
    var t := types[|types| - 1];
    var K := KnownConstructors(types, env);
    var KP := KnownConstructors(pre, env);
    var B := if t.AlgebraicDataType? && t.name in env then CtorNames(t.branches) else {};
    forall c | c in K ensures c in KP + B {
      var i, j :| 0 <= i < |types| && types[i].AlgebraicDataType? && types[i].name in env
        && 0 <= j < |types[i].branches| && types[i].branches[j].ctorName == c;
      if i < |pre| {
        assert pre[i] == types[i];
      }
    }
    forall c | c in KP + B ensures c in K {
      if c in KP {
        var i, j :| 0 <= i < |pre| && pre[i].AlgebraicDataType? && pre[i].name in env
          && 0 <= j < |pre[i].branches| && pre[i].branches[j].ctorName == c;
        assert types[i] == pre[i];
      } else {
        var j :| 0 <= j < |t.branches| && t.branches[j].ctorName == c;
        assert types[|types| - 1] == t;
      }
    }
  }

  /** The keys are the constructors of the known algebraic data types, and nothing
      else is added. */
  lemma {:induction false} BranchesKeys(m: map<string, QualifiedName>, types: seq<TypeDecl>, env: set<QualifiedName>)
    ensures Branches(m, types, env).Keys == m.Keys + KnownConstructors(types, env)
  {
    if |types| > 0 {
      var pre := types[..|types| - 1];
      var t := types[|types| - 1];
      BranchesKeys(m, pre, env);
      if t.AlgebraicDataType? && t.name in env {
        AddBranchesKeys(Branches(m, pre, env), t.branches, t.name);
      }
      KnownConstructorsStep(types, env);
    }
  }

  /** A constructor maps to the last known algebraic data type declaring it. */
  lemma {:induction false} LastTypeWins(m: map<string, QualifiedName>, pre: seq<TypeDecl>, t: TypeDecl,
                                         post: seq<TypeDecl>, env: set<QualifiedName>, j: nat)
    requires t.AlgebraicDataType? && t.name in env && j < |t.branches|
    requires forall u, k :: u in post && u.AlgebraicDataType? && u.name in env && 0 <= k < |u.branches| ==>
      u.branches[k].ctorName != t.branches[j].ctorName
    ensures var r := Branches(m, pre + [t] + post, env);
      t.branches[j].ctorName in r && r[t.branches[j].ctorName] == t.name
    decreases |post|
  {
    var types := pre + [t] + post;
    var c := t.branches[j].ctorName;
    if |post| == 0 {
      assert types[..|types| - 1] == pre;
      AddBranchesFacts(Branches(m, pre, env), t.branches, t.name);
    } else {
      var post' := post[..|post| - 1];
      var u := post[|post| - 1];
      assert types[..|types| - 1] == pre + [t] + post';
      LastTypeWins(m, pre, t, post', env, j);
      if u.AlgebraicDataType? && u.name in env {
        AddBranchesFacts(Branches(m, pre + [t] + post', env), u.branches, u.name);
      }
    }
  }

  /** A declaration whose name the environment does not know, or that is not an
      algebraic data type, contributes nothing. */
  lemma UnknownTypeIgnored(m: map<string, QualifiedName>, types: seq<TypeDecl>, t: TypeDecl, env: set<QualifiedName>)
    requires !(t.AlgebraicDataType? && t.name in env)
    ensures Branches(m, types + [t], env) == Branches(m, types, env)
  {
    assert (types + [t])[..|types|] == types;
  }

  class SumTypeBranchesAnalysis {
    var branchToType: map<string, QualifiedName>

    constructor ()
      ensures branchToType == map[]
    {
      branchToType := map[];
    }

    /** `run`: the visit over the program's type declarations. */
    method Run(types: seq<TypeDecl>, env: set<QualifiedName>)
      modifies this
      ensures branchToType == Branches(old(branchToType), types, env)
    {
      var i := 0;
      while i < |types|
        invariant 0 <= i <= |types|
        invariant branchToType == Branches(old(branchToType), types[..i], env)
      {
        var t := types[i];
        assert types[..i + 1][..i] == types[..i];
        if t.AlgebraicDataType? && t.name in env {
          ghost var start := branchToType;
          var j := 0;
          while j < |t.branches|
            invariant 0 <= j <= |t.branches|
            invariant branchToType == AddBranches(start, t.branches[..j], t.name)
          {
            assert t.branches[..j + 1][..j] == t.branches[..j];
            branchToType := branchToType[t.branches[j].ctorName := t.name];
            j := j + 1;
          }
          assert t.branches[..j] == t.branches;
        }
        i := i + 1;
      }
      assert types[..i] == types;
    }
  }
}
