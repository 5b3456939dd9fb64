/** `AstComponent` (`Component.h`): a parameterised, nestable component holding its
    own types, relations, clauses, directives, nested components and instantiations,
    the base components it extends and the names of the relations whose clauses it
    overrides. */
module Components {
  import opened Util
  import opened Ast
  import opened Equality

  /** `equal` as the repository writes it: the early return fires when the component
      types are EQUAL, so two components of the same type compare equal whatever they
      contain, and two components of different types compare equal when everything
      else matches. Nested components are compared with this same `equal`. */
  function ComponentEqualAsWritten(a: Component, b: Component): bool
    decreases a
  {
    if a.componentType == b.componentType then true
    else
      a.bases == b.bases &&
      ComponentsEqualAsWritten(a.components, b.components) &&
      a.instantiations == b.instantiations &&
      a.types == b.types &&
      a.relations == b.relations &&
      ClausesEqual(a.clauses, b.clauses) &&
      a.directives == b.directives &&
      a.overrides == b.overrides
  }

  function ComponentsEqualAsWritten(xs: seq<Component>, ys: seq<Component>): bool
    decreases xs
  {
    |xs| == |ys| &&
    (|xs| == 0 || (ComponentEqualAsWritten(xs[0], ys[0]) && ComponentsEqualAsWritten(xs[1..], ys[1..])))
  }

  /** Two components of the same type that declare different relations compare
      equal under the equality as written. */
  lemma AsWrittenIgnoresContents()
    ensures var t := ComponentType("C", []);
      var r := Relation(QualifiedNames.Simple("r"), []);
      var a := Component(t, [], [], [], [], [r], [], [], {});
      var b := Component(t, [], [], [], [], [], [], [], {});
      ComponentEqualAsWritten(a, b) && a != b
  {
    var r := Relation(QualifiedNames.Simple("r"), []);
    assert [r] != [];
  }

  /** Two components that differ only in their type also compare equal under the
      equality as written. */
  lemma AsWrittenIgnoresTypeWhenContentsMatch()
    ensures var a := Component(ComponentType("A", []), [], [], [], [], [], [], [], {});
      var b := Component(ComponentType("B", []), [], [], [], [], [], [], [], {});
      ComponentEqualAsWritten(a, b) && a != b
  {
    assert "A" != "B";
  }

  /** The equality as written holds between a component and itself, and so between
      two lists of the same components. */
  lemma {:induction false} AsWrittenReflexive(xs: seq<Component>)
    ensures ComponentsEqualAsWritten(xs, xs)
    decreases xs
  {
    if |xs| > 0 {
      AsWrittenReflexive(xs[1..]);
    }
  }

  /** When the component types differ, the equality as written compares the rest:
      it holds for components that agree on everything but the type, and it implies
      that the lists other than the nested components, and the override sets, agree. */
  lemma AsWrittenDifferentTypes(a: Component, b: Component)
    requires a.componentType != b.componentType
    ensures a.(componentType := b.componentType) == b ==> ComponentEqualAsWritten(a, b)
    ensures ComponentEqualAsWritten(a, b) ==>
      a.bases == b.bases && |a.components| == |b.components| && a.instantiations == b.instantiations &&
      a.types == b.types && a.relations == b.relations && a.clauses == b.clauses &&
      a.directives == b.directives && a.overrides == b.overrides
  {
    AsWrittenReflexive(a.components);
    ClausesEqualIsIdentity(a.clauses, b.clauses);
    if ComponentEqualAsWritten(a, b) {
      assert ComponentsEqualAsWritten(a.components, b.components);
    }
  }

  /** `equal` as evidently intended: the component types AND every list AND the
      override sets must match. */
  function ComponentEqual(a: Component, b: Component): bool
    decreases a
  {
    a.componentType == b.componentType &&
    a.bases == b.bases &&
    ComponentsEqual(a.components, b.components) &&
    a.instantiations == b.instantiations &&
    a.types == b.types &&
    a.relations == b.relations &&
    ClausesEqual(a.clauses, b.clauses) &&
    a.directives == b.directives &&
    a.overrides == b.overrides
  }

  function ComponentsEqual(xs: seq<Component>, ys: seq<Component>): bool
    decreases xs
  {
    |xs| == |ys| && (|xs| == 0 || (ComponentEqual(xs[0], ys[0]) && ComponentsEqual(xs[1..], ys[1..])))
  }

  /** The corrected equality is exactly equality of the component values. */
  lemma {:induction false} ComponentEqualIsIdentity(a: Component, b: Component)
    ensures ComponentEqual(a, b) <==> a == b
    decreases a
  {
    ComponentsEqualIsIdentity(a.components, b.components);
    ClausesEqualIsIdentity(a.clauses, b.clauses);
  }

  lemma {:induction false} ComponentsEqualIsIdentity(xs: seq<Component>, ys: seq<Component>)
    ensures ComponentsEqual(xs, ys) <==> xs == ys
    decreases xs
  {
    if |xs| == |ys| && |xs| > 0 {
      ComponentEqualIsIdentity(xs[0], ys[0]);
      ComponentsEqualIsIdentity(xs[1..], ys[1..]);
      assert xs == [xs[0]] + xs[1..] && ys == [ys[0]] + ys[1..];
    }
  }

  /** A mapper for `apply`: one rewriting function per child kind. */
  datatype ComponentMapper = ComponentMapper(
    componentType: ComponentType -> ComponentType,
    component: Component -> Component,
    init: ComponentInit -> ComponentInit,
    typeDecl: TypeDecl -> TypeDecl,
    relation: Relation -> Relation,
    clause: Clause -> Clause,
    directive: Directive -> Directive)

  /** The in-place loop over one child list, as `MapEach` does it. */
  method MapList<T>(xs: seq<T>, f: T -> T) returns (r: seq<T>)
    ensures r == MapAll(xs, f)
  {
    r := MapEach(xs, f);
    assert |r| == |MapAll(xs, f)|;
    assert forall i :: 0 <= i < |r| ==> r[i] == MapAll(xs, f)[i];
  }

  class AstComponent {
    var componentType: ComponentType
    var bases: seq<ComponentType>
    var components: seq<Component>
    var instantiations: seq<ComponentInit>
    var types: seq<TypeDecl>
    var relations: seq<Relation>
    var clauses: seq<Clause>
    var directives: seq<Directive>
    var overrides: set<string>

    constructor (componentType: ComponentType)
      ensures Value() == Component(componentType, [], [], [], [], [], [], [], {})
    {
      this.componentType := componentType;
      bases, components, instantiations := [], [], [];
      types, relations, clauses, directives := [], [], [], [];
      overrides := {};
    }

    function Value(): Component
      reads this
    {
      Component(componentType, bases, components, instantiations, types, relations, clauses,
                directives, overrides)
    }

    /** `setComponentType`: only the type changes. */
    method SetComponentType(t: ComponentType)
      modifies this
      ensures Value() == old(Value()).(componentType := t)
    {
      componentType := t;
    }

    /** `addBaseComponent`: appended to the base list only. */
    method AddBaseComponent(c: ComponentType)
      modifies this
      ensures Value() == old(Value()).(bases := old(bases) + [c])
    {
      bases := bases + [c];
    }

    /** `addType`: appended to the type list only. */
    method AddType(t: TypeDecl)
      modifies this
      ensures Value() == old(Value()).(types := old(types) + [t])
    {
      types := types + [t];
    }

    /** `copyBaseComponents`: the base list becomes a copy of the other component's. */
    method CopyBaseComponents(other: AstComponent)
      modifies this
      ensures Value() == old(Value()).(bases := other.bases)
    {
      bases := other.bases;
    }

    /** `addRelation`: appended to the relation list only. */
    method AddRelation(r: Relation)
      modifies this
      ensures Value() == old(Value()).(relations := old(relations) + [r])
    {
      relations := relations + [r];
    }

    /** `addClause`: appended to the clause list only. */
    method AddClause(c: Clause)
      modifies this
      ensures Value() == old(Value()).(clauses := old(clauses) + [c])
    {
      clauses := clauses + [c];
    }

    /** `addDirective`: appended to the directive list only. */
    method AddDirective(d: Directive)
      modifies this
      ensures Value() == old(Value()).(directives := old(directives) + [d])
    {
      directives := directives + [d];
    }

    /** `addComponent`: appended to the nested-component list only. */
    method AddComponent(c: Component)
      modifies this
      ensures Value() == old(Value()).(components := old(components) + [c])
    {
      components := components + [c];
    }

    /** `addInstantiation`: appended to the instantiation list only. */
    method AddInstantiation(i: ComponentInit)
      modifies this
      ensures Value() == old(Value()).(instantiations := old(instantiations) + [i])
    {
      instantiations := instantiations + [i];
    }

    /** `addOverride`: set insertion, so adding a name twice is the same as once. */
    method AddOverride(name: string)
      modifies this
      ensures Value() == old(Value()).(overrides := old(overrides) + {name})
      ensures old(name in overrides) ==> Value() == old(Value())
    {
      overrides := overrides + {name};
    }

    /** `clone`: a new component with every field copied, the override set included. */
    method Clone() returns (res: AstComponent)
      ensures fresh(res)
      ensures res.Value() == Value()
      ensures ComponentEqual(res.Value(), Value())
    {
      res := new AstComponent(componentType);
      res.bases, res.components, res.instantiations := bases, components, instantiations;
      res.types, res.relations, res.clauses, res.directives := types, relations, clauses, directives;
      res.overrides := overrides;
      ComponentEqualIsIdentity(res.Value(), Value());
    }

    /** `apply`: the type, then every element of each list, is replaced in place by
        its image; every list keeps its length and the override set is untouched. */
    method Apply(m: ComponentMapper)
      modifies this
      ensures Value() == Component(
        m.componentType(old(componentType)),
        MapAll(old(bases), m.componentType),
        MapAll(old(components), m.component),
        MapAll(old(instantiations), m.init),
        MapAll(old(types), m.typeDecl),
        MapAll(old(relations), m.relation),
        MapAll(old(clauses), m.clause),
        MapAll(old(directives), m.directive),
        old(overrides))
    {
      var bs := MapList(bases, m.componentType);
      var cs := MapList(components, m.component);
      var ins := MapList(instantiations, m.init);
      var ts := MapList(types, m.typeDecl);
      var rs := MapList(relations, m.relation);
      var cls := MapList(clauses, m.clause);
      var ds := MapList(directives, m.directive);
      componentType := m.componentType(componentType);
      bases, components, instantiations, types, relations, clauses, directives := bs, cs, ins, ts, rs, cls, ds;
    }

    /** `getChildNodes`: the type, then the bases, nested components, instantiations,
        types, relations, clauses and directives, each list in order; the override
        names are not nodes. */
    method ChildNodes() returns (res: seq<Node>)
      ensures res == [ComponentTypeNode(componentType)]
        + MapAll(bases, (t: ComponentType) => ComponentTypeNode(t))
        + MapAll(components, (c: Component) => ComponentNode(c))
        + MapAll(instantiations, (i: ComponentInit) => InitNode(i))
        + MapAll(types, (t: TypeDecl) => TypeNode(t))
        + MapAll(relations, (r: Relation) => RelationNode(r))
        + MapAll(clauses, (c: Clause) => ClauseNode(c))
        + MapAll(directives, (d: Directive) => DirectiveNode(d))
    {
      res := [ComponentTypeNode(componentType)];
      var part: seq<Node>;
      part := MapEach(bases, (t: ComponentType) => ComponentTypeNode(t));
      res := res + part;
      part := MapEach(components, (c: Component) => ComponentNode(c));
      res := res + part;
      part := MapEach(instantiations, (i: ComponentInit) => InitNode(i));
      res := res + part;
      part := MapEach(types, (t: TypeDecl) => TypeNode(t));
      res := res + part;
      part := MapEach(relations, (r: Relation) => RelationNode(r));
      res := res + part;
      part := MapEach(clauses, (c: Clause) => ClauseNode(c));
      res := res + part;
      part := MapEach(directives, (d: Directive) => DirectiveNode(d));
      res := res + part;
    }

    /** `operator==` between components, with the early return corrected (see
        `ComponentEqualAsWritten` for the repository's version). */
    predicate Equals(other: AstComponent)
      reads this, other
      ensures Equals(other) <==> Value() == other.Value()
    {
      ComponentEqualIsIdentity(Value(), other.Value());
      ComponentEqual(Value(), other.Value())
    }
  }
}
