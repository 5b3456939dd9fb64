/** `Program` (`Program.h`): the eight owned lists that make up a parsed program,
    with the in-place operations the passes use to change them. `addRelation`,
    `addClause`, `removeClause` and `removeRelationDecl` are declared but not defined
    in `Program.h`; they are given the plain list behaviour their callers rely on. */
module Programs {
  import opened Util
  import opened QualifiedNames
  import opened Ast
  import opened Equality
  import opened Components

  /** `Program::equal`: each of the eight lists pairwise equal, components compared
      with the corrected component equality. */
  function ProgramEqual(a: Program, b: Program): bool
  {
    a.pragmas == b.pragmas &&
    ComponentsEqual(a.components, b.components) &&
    a.instantiations == b.instantiations &&
    a.functors == b.functors &&
    a.types == b.types &&
    a.relations == b.relations &&
    ClausesEqual(a.clauses, b.clauses) &&
    a.directives == b.directives
  }

  /** Program equality is exactly equality of the program values. */
  lemma ProgramEqualIsIdentity(a: Program, b: Program)
    ensures ProgramEqual(a, b) <==> a == b
  {
    ComponentsEqualIsIdentity(a.components, b.components);
    ClausesEqualIsIdentity(a.clauses, b.clauses);
  }

  /** `Program::equal` as written: the components compared by `Component::equal`,
      whose early return makes two components of the same type equal whatever they
      hold. */
  function ProgramEqualAsWritten(a: Program, b: Program): bool
  {
    a.pragmas == b.pragmas &&
    ComponentsEqualAsWritten(a.components, b.components) &&
    a.instantiations == b.instantiations &&
    a.functors == b.functors &&
    a.types == b.types &&
    a.relations == b.relations &&
    ClausesEqual(a.clauses, b.clauses) &&
    a.directives == b.directives
  }

  /** As written, two programs that differ only inside a component of the same type
      compare equal; the corrected equality tells them apart. */
  lemma ProgramAsWrittenIgnoresComponentContents(p: Program, c: Component, d: Component)
    requires c.componentType == d.componentType
    ensures ProgramEqualAsWritten(p.(components := [c]), p.(components := [d]))
    ensures ProgramEqual(p.(components := [c]), p.(components := [d])) <==> c == d
  {
    ClausesEqualIsIdentity(p.clauses, p.clauses);
    ProgramEqualIsIdentity(p.(components := [c]), p.(components := [d]));
    assert p.(components := [c]) == p.(components := [d]) <==> c == d by {
      if p.(components := [c]) == p.(components := [d]) {
        assert [c][0] == [d][0];
      }
    }
  }

  /** `getClauses(program, name)`: the program's clauses whose head names the
      relation, in program order. */
  function ClausesOf(clauses: seq<Clause>, name: QualifiedName): seq<Clause>
  {
    if |clauses| == 0 then []
    else (if clauses[0].head.name == name then [clauses[0]] else []) + ClausesOf(clauses[1..], name)
  }

  /** Exactly the clauses headed by `name` are selected, none twice over. */
  lemma {:induction false} ClausesOfMembers(clauses: seq<Clause>, name: QualifiedName)
    ensures forall c :: c in ClausesOf(clauses, name) <==> c in clauses && c.head.name == name
    ensures |ClausesOf(clauses, name)| <= |clauses|
  {
    if |clauses| > 0 {
      ClausesOfMembers(clauses[1..], name);
      assert clauses == [clauses[0]] + clauses[1..];
    }
  }

  /** `getRelation(program, name)`: whether a relation of that name is declared. */
  predicate IsDeclared(p: Program, name: QualifiedName)
  {
    exists i :: 0 <= i < |p.relations| && p.relations[i].name == name
  }

  /** The relation list without the declarations of `name`, others in order. */
  function WithoutRelation(rels: seq<Relation>, name: QualifiedName): (r: seq<Relation>)
    ensures forall x :: x in r <==> x in rels && x.name != name
  {
    if |rels| == 0 then []
    else (if rels[0].name == name then [] else [rels[0]]) + WithoutRelation(rels[1..], name)
  }

  /** A mapper for `apply`: one rewriting function per child kind. */
  datatype ProgramMapper = ProgramMapper(
    pragma: Pragma -> Pragma,
    component: Component -> Component,
    init: ComponentInit -> ComponentInit,
    functor: FunctorDeclaration -> FunctorDeclaration,
    typeDecl: TypeDecl -> TypeDecl,
    relation: Relation -> Relation,
    clause: Clause -> Clause,
    directive: Directive -> Directive)

  class AstProgram {
    var pragmas: seq<Pragma>
    var components: seq<Component>
    var instantiations: seq<ComponentInit>
    var functors: seq<FunctorDeclaration>
    var types: seq<TypeDecl>
    var relations: seq<Relation>
    var clauses: seq<Clause>
    var directives: seq<Directive>

    constructor (p: Program)
      ensures Value() == p
    {
      pragmas, components, instantiations, functors := p.pragmas, p.components, p.instantiations, p.functors;
      types, relations, clauses, directives := p.types, p.relations, p.clauses, p.directives;
    }

    function Value(): Program
      reads this
    {
      Program(pragmas, components, instantiations, functors, types, relations, clauses, directives)
    }

    /** `addDirective`: appended to the directive list only. (The argument cannot be
        null here, which is what the repository asserts.) */
    method AddDirective(d: Directive)
      modifies this
      ensures Value() == old(Value()).(directives := old(directives) + [d])
    {
      directives := directives + [d];
    }

    /** `setClauses`: the clause list is replaced wholesale, nothing else changes. */
    method SetClauses(newClauses: seq<Clause>)
      modifies this
      ensures Value() == old(Value()).(clauses := newClauses)
    {
      clauses := newClauses;
    }

    /** `addComponent`: appended to the component list only. */
    method AddComponent(c: Component)
      modifies this
      ensures Value() == old(Value()).(components := old(components) + [c])
    {
      components := components + [c];
    }

    /** `addInstantiation`: appended to the instantiation list only. */
    method AddInstantiation(i: ComponentInit)
      modifies this
      ensures Value() == old(Value()).(instantiations := old(instantiations) + [i])
    {
      instantiations := instantiations + [i];
    }

    /** `addRelation`: appended to the relation list only. */
    method AddRelation(r: Relation)
      modifies this
      ensures Value() == old(Value()).(relations := old(relations) + [r])
    {
      relations := relations + [r];
    }

    /** `addClause`: appended to the clause list only. */
    method AddClause(c: Clause)
      modifies this
      ensures Value() == old(Value()).(clauses := old(clauses) + [c])
    {
      clauses := clauses + [c];
    }

    /** `removeClause`: the clause at position `i` is taken out, the others keep their
        order. A clause is identified by its position, standing for its address. */
    method RemoveClauseAt(i: nat)
      requires i < |clauses|
      modifies this
      ensures Value() == old(Value()).(clauses := old(clauses[..i]) + old(clauses[i + 1..]))
    {
      clauses := clauses[..i] + clauses[i + 1..];
    }

    /** `removeRelationDecl`: the declarations of `name` are taken out; the result
        tells whether there was one. */
    method RemoveRelationDecl(name: QualifiedName) returns (found: bool)
      modifies this
      ensures Value() == old(Value()).(relations := WithoutRelation(old(relations), name))
      ensures found <==> old(IsDeclared(Value(), name))
    {
      found := exists i :: 0 <= i < |relations| && relations[i].name == name;
      relations := WithoutRelation(relations, name);
    }

    /** `clone`: a new program with every list copied. */
    method Clone() returns (res: AstProgram)
      ensures fresh(res)
      ensures ProgramEqual(res.Value(), Value())
    {
      res := new AstProgram(Value());
      ProgramEqualIsIdentity(res.Value(), Value());
    }

    /** `apply`: every element of the eight lists is replaced in place by its image,
        list by list in the order pragmas, components, instantiations, functors,
        types, relations, clauses, directives; every list keeps its length. */
    method Apply(m: ProgramMapper)
      modifies this
      ensures Value() == Program(
        MapAll(old(pragmas), m.pragma),
        MapAll(old(components), m.component),
        MapAll(old(instantiations), m.init),
        MapAll(old(functors), m.functor),
        MapAll(old(types), m.typeDecl),
        MapAll(old(relations), m.relation),
        MapAll(old(clauses), m.clause),
        MapAll(old(directives), m.directive))
    {
      pragmas := MapList(pragmas, m.pragma);
      components := MapList(components, m.component);
      instantiations := MapList(instantiations, m.init);
      functors := MapList(functors, m.functor);
      types := MapList(types, m.typeDecl);
      relations := MapList(relations, m.relation);
      clauses := MapList(clauses, m.clause);
      directives := MapList(directives, m.directive);
    }

    /** `getChildNodes`: pragmas, components, instantiations, functors, types,
        relations, clauses, directives, each list in order. */
    method ChildNodes() returns (res: seq<Node>)
      ensures res ==
        MapAll(pragmas, (x: Pragma) => PragmaNode(x))
        + MapAll(components, (c: Component) => ComponentNode(c))
        + MapAll(instantiations, (i: ComponentInit) => InitNode(i))
        + MapAll(functors, (f: FunctorDeclaration) => FunctorNode(f))
        + MapAll(types, (t: TypeDecl) => TypeNode(t))
        + MapAll(relations, (r: Relation) => RelationNode(r))
        + MapAll(clauses, (c: Clause) => ClauseNode(c))
        + MapAll(directives, (d: Directive) => DirectiveNode(d))
    {
      var part: seq<Node>;
      res := MapEach(pragmas, (x: Pragma) => PragmaNode(x));
      part := MapEach(components, (c: Component) => ComponentNode(c));
      res := res + part;
      part := MapEach(instantiations, (i: ComponentInit) => InitNode(i));
      res := res + part;
      part := MapEach(functors, (f: FunctorDeclaration) => FunctorNode(f));
      res := res + part;
      part := MapEach(types, (t: TypeDecl) => TypeNode(t));
      res := res + part;
      part := MapEach(relations, (r: Relation) => RelationNode(r));
      res := res + part;
      part := MapEach(clauses, (c: Clause) => ClauseNode(c));
      res := res + part;
      part := MapEach(directives, (d: Directive) => DirectiveNode(d));
      res := res + part;
    }

    /** `operator==` between programs. */
    predicate Equals(other: AstProgram)
      reads this, other
      ensures Equals(other) <==> Value() == other.Value()
    {
      ProgramEqualIsIdentity(Value(), other.Value());
      ProgramEqual(Value(), other.Value())
    }
  }
}
