/** The abstract syntax tree of a Datalog program as values. Every AST node in the
    repository owns its children through unique pointers (`Own<...>`, `VecOwn<...>`),
    so a subtree is never shared and a node's contents are a value; the node kinds
    whose fields the repository updates in place also get a class (see the files
    named after them), whose `Value()` is one of these datatypes. */
module Ast {
  import opened Util
  import opened QualifiedNames

  /** Arguments (terms). `RecordInit`, `BranchInit` and `Functor` are the subclasses
      of `AstTerm` and keep their operands in `args`. */
  datatype Argument =
    | Variable(name: string)
    | UnnamedVariable
    | NumberConstant(num: int)
    | StringConstant(text: string)
    | NilConstant
    | TypeCast(value: Argument, castType: QualifiedName)
    | RecordInit(args: seq<Argument>)
    | BranchInit(ctorName: string, args: seq<Argument>)
    | Functor(op: string, args: seq<Argument>)
    | Aggregator(op: string, target: Option<Argument>, body: seq<Literal>)

  /** Body literals. An atom is itself a literal (`AstAtom` derives from `AstLiteral`). */
  datatype Literal =
    | AtomLiteral(atom: Atom)
    | NegationLiteral(negation: Negation)
    | BinaryConstraint(op: string, lhs: Argument, rhs: Argument)

  datatype Atom = Atom(name: QualifiedName, args: seq<Argument>)

  /** A negated atom; it wraps exactly one atom. */
  datatype Negation = Negation(atom: Atom)

  /** A permutation of the body atoms of a clause, numbered from 1. */
  datatype ExecutionOrder = ExecutionOrder(order: seq<nat>)

  /** One entry `version: order` of a user-defined execution plan. */
  datatype PlanEntry = PlanEntry(version: int, order: ExecutionOrder)

  /** `std::map<int, Own<AstExecutionOrder>>`: the entries in ascending version order. */
  datatype ExecutionPlan = ExecutionPlan(entries: seq<PlanEntry>)

  datatype Clause = Clause(head: Atom, body: seq<Literal>, plan: Option<ExecutionPlan>)

  datatype Attribute = Attribute(name: string, typeName: QualifiedName)

  datatype Relation = Relation(name: QualifiedName, attributes: seq<Attribute>)

  datatype DirectiveKind = Input | Output | PrintSize | LimitSize

  /** An IO directive with its key/value parameters. */
  datatype Directive = Directive(kind: DirectiveKind, name: QualifiedName, params: map<string, string>)

  /** One branch `$Constructor(fields)` of an algebraic data type. */
  datatype BranchDecl = BranchDecl(ctorName: string, fields: seq<Attribute>)

  datatype TypeDecl =
    | AlgebraicDataType(name: QualifiedName, branches: seq<BranchDecl>)
    | OtherType(name: QualifiedName)

  datatype Pragma = Pragma(key: string, value: string)

  datatype FunctorDeclaration = FunctorDeclaration(name: string, argTypes: seq<QualifiedName>, returnType: QualifiedName)

  /** A component name with its type parameters. */
  datatype ComponentType = ComponentType(name: string, typeParams: seq<QualifiedName>)

  datatype ComponentInit = ComponentInit(instanceName: string, componentType: ComponentType)

  datatype Component = Component(
    componentType: ComponentType,
    bases: seq<ComponentType>,
    components: seq<Component>,
    instantiations: seq<ComponentInit>,
    types: seq<TypeDecl>,
    relations: seq<Relation>,
    clauses: seq<Clause>,
    directives: seq<Directive>,
    overrides: set<string>)

  datatype Program = Program(
    pragmas: seq<Pragma>,
    components: seq<Component>,
    instantiations: seq<ComponentInit>,
    functors: seq<FunctorDeclaration>,
    types: seq<TypeDecl>,
    relations: seq<Relation>,
    clauses: seq<Clause>,
    directives: seq<Directive>)

  /** What `getChildNodes` hands out: a reference to a child of any node kind. */
  datatype Node =
    | ArgumentNode(argument: Argument)
    | LiteralNode(literal: Literal)
    | AtomNode(atom: Atom)
    | OrderNode(order: ExecutionOrder)
    | ClauseNode(clause: Clause)
    | RelationNode(relation: Relation)
    | TypeNode(typeDecl: TypeDecl)
    | DirectiveNode(directive: Directive)
    | PragmaNode(pragma: Pragma)
    | FunctorNode(functor: FunctorDeclaration)
    | ComponentNode(component: Component)
    | ComponentTypeNode(componentType: ComponentType)
    | InitNode(init: ComponentInit)
}
