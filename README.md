# Soufflé AST analyses and transforms, modelled in Dafny

This project models the part of the Soufflé Datalog compiler that works on the
abstract syntax tree of a Datalog program. A program holds relations over typed
attributes, clauses made of a head atom and body literals, IO directives and
nestable components. It models:

- the AST node classes and their in-place updates, child enumeration, clone,
  structural equality and textual printing (`QualifiedName`, `AstAtom`,
  `AstNegation`, `AstTerm`, `AstBranchInit`, `AstTypeCast`, `AstClause`,
  `AstExecutionPlan`, `AstComponent`, `Program`);
- the aggregate-reachability analysis (`AggAnalysis::run`). It finds the relations
  whose clauses contain an aggregate, closes the set of their SCCs under
  predecessors with a worklist, and collects the relations of those SCCs;
- four program rewrites:
  - removal of empty relations and of their uses;
  - erasure of type casts;
  - naming of unnamed variables from a process-wide counter;
  - insertion of a nullary `+Tautology()` atom into aggregates without atoms;
- two checkers, which only append diagnostics to an error report:
  - the execution-plan version checker;
  - the grounded-terms checker;
- two classifiers:
  - the IO-directive analysis (`IOType::run`);
  - the constructor-to-type map of algebraic data types (`SumTypeBranchesAnalysis::run`);
- the deduplicated adornment work queue of the magic-set transformation.

The AST is a family of datatypes (module `Ast`). Every repository node owns its
children through unique pointers, so a subtree is a value. A node class whose
fields the repository updates in place is also a Dafny `class` with those fields
and a `Value()` snapshot. Its methods carry `modifies` clauses and state the whole
new state.

Each pass that changes state in loops is a method. It is proved against a
specification function of the old state, for example `RemoveUses`, `StripProgram`,
`NameAll`, `AddNullariesProgram`, `ScheduleDiagnostics` or `Branches`. The
properties the code promises are lemmas about those functions: no cast or no
atomless aggregate is left, idempotence, an error for exactly the offending plan
versions, the closure being exactly the reachable SCCs, and so on.

The collaborators whose code is not part of this model enter as inputs:

- the SCC graph is an `SccGraph` value;
- the relation schedule and `RecursiveClausesAnalysis` are a sequence of SCC
  steps and a `Clause -> bool`;
- the groundedness analysis is a function from a term's pre-order index to `bool`;
- the type environment is the set of type names it knows;
- `stoi` is a `string -> int`;
- `getAdornmentID` is a function fixed when the transformer is built.

`getRelation` and `getClauses` are lookups by name in the top-level lists.

## Model

| member | source | states |
|---|---|---|
| QualifiedNames.AstQualifiedName.constructor | src/ast/QualifiedName.h:38 | the name holds exactly the given qualifiers |
| QualifiedNames.AstQualifiedName.Append | src/ast/QualifiedName.h:45-47 | the name goes at the end and the length grows by one |
| QualifiedNames.AstQualifiedName.Prepend | src/ast/QualifiedName.h:50-52 | the name goes at the front and the other qualifiers keep their order |
| QualifiedNames.IsEmpty | src/ast/QualifiedName.h:55-57 | true iff the name is the name without qualifiers |
| QualifiedNames.ToStringRoundTrip | src/ast/QualifiedName.h:65-69 | splitting the "_"-joined text of a name whose qualifiers contain no "_" gives the qualifiers back |
| QualifiedNames.ToStringInjective | src/ast/QualifiedName.h:65-69 | two such names with the same text are the same name |
| QualifiedNames.ToStringCollision | src/ast/QualifiedName.h:85-87 | without that side condition, two different names print the same text (`a_b`) |
| QualifiedNames.StringLessIsStrictTotalOrder | src/ast/QualifiedName.h:79-82 | the string order used on qualifiers is irreflexive, transitive and total |
| QualifiedNames.LessIsStrictTotalOrder | src/ast/QualifiedName.h:79-82 | the lexicographic `<` on names is irreflexive, transitive and total together with `==` |
| QualifiedNames.Plus | src/ast/QualifiedName.h:99-103 | `name + id` is `id` with `name` prepended; `id` is unchanged |
| Atoms.AstAtom.constructor | src/ast/Atom.h:47-48 | the atom holds the given name and arguments |
| Atoms.AstAtom.GetArity | src/ast/Atom.h:56-58 | the arity is the number of arguments |
| Atoms.AstAtom.SetQualifiedName | src/ast/Atom.h:61-63 | only the name changes |
| Atoms.AstAtom.AddArgument | src/ast/Atom.h:66-68 | one argument is appended, the name and the earlier arguments stay |
| Atoms.AstAtom.Clone | src/ast/Atom.h:75-77 | a fresh atom equal to the original |
| Atoms.AstAtom.Apply | src/ast/Atom.h:79-83 | each argument is replaced by its image, in place, count preserved, name unchanged |
| Atoms.AstAtom.ChildNodes | src/ast/Atom.h:85-91 | the children are the arguments in order |
| Atoms.AstAtom.Equals | src/ast/Atom.h:98-101 | equal iff the same name and the same arguments |
| Equality.AtomEqualIsIdentity | src/ast/Atom.h:98-101 | the same name and pairwise-equal arguments is exactly equality of the atoms |
| Printing.AtomTextRoundTrip | src/ast/Atom.h:94-96 | an atom's text reads back as its name and its argument texts (split at ","), when the name has no "(" and no argument text has a "," |
| Negations.AstNegation.constructor | src/ast/Negation.h:46-47 | a negation wraps exactly the given atom |
| Negations.AstNegation.GetAtom | src/ast/Negation.h:50-52 | returns the wrapped atom |
| Negations.AstNegation.Clone | src/ast/Negation.h:54-56 | a fresh negation equal to the original |
| Negations.AstNegation.Apply | src/ast/Negation.h:58-60 | only the wrapped atom is replaced by its image |
| Negations.AstNegation.ChildNodes | src/ast/Negation.h:62-64 | the only child is the atom |
| Negations.AstNegation.Equals | src/ast/Negation.h:71-75 | equal iff the wrapped atoms are equal |
| Equality.NegationEqualIsIdentity | src/ast/Negation.h:71-75 | equal atoms is exactly equality of the negations |
| Printing.NegationAtomDistinct | src/ast/Negation.h:67-69 | the "!" makes a negation's text differ from that of every positive atom whose name does not begin with "!" |
| Terms.AsVec | src/ast/Term.h:84-91 | the operands are kept in the order given |
| Terms.AstTerm.constructor | src/ast/Term.h:45-46 | the term holds the given operands |
| Terms.AstTerm.AddArgument | src/ast/Term.h:55-57 | one argument is appended, the earlier ones stay |
| Terms.AstTerm.ChildNodes | src/ast/Term.h:59-65 | the children are the arguments in order |
| Terms.AstTerm.Apply | src/ast/Term.h:67-71 | each argument is replaced by its image, in place, count preserved |
| Terms.AstTerm.Equals | src/ast/Term.h:74-77 | equal iff the same kind and the same arguments |
| Equality.ArgumentsEqualIsIdentity | src/ast/Term.h:74-77 | pairwise equality of argument lists is exactly list equality |
| Equality.ArgumentEqualIsIdentity | src/ast/Term.h:74-77 | the node-by-node equality of arguments is exactly equality of the argument trees |
| Terms.AstTerm.BranchInit | src/ast/BranchInit.h:44-45 | a branch term with the given constructor and arguments |
| Terms.AstTerm.GetConstructor | src/ast/BranchInit.h:47-49 | returns the constructor given at construction |
| Terms.AstTerm.Clone | src/ast/BranchInit.h:51-53 | a fresh term of the same kind, constructor included, with equal arguments |
| Printing.BranchInitWithoutArguments | src/ast/BranchInit.h:56-58 | a branch without arguments prints "$c()", as `print` does, not the "$c" the class comment gives for the input syntax |
| TypeCasts.AstTypeCast.constructor | src/ast/TypeCast.h:41-42 | a cast of the given value to the given type |
| TypeCasts.AstTypeCast.GetValue | src/ast/TypeCast.h:45-52 | returns the value and the type |
| TypeCasts.AstTypeCast.SetType | src/ast/TypeCast.h:55-57 | only the cast type changes |
| TypeCasts.AstTypeCast.ChildNodes | src/ast/TypeCast.h:59-63 | the only child is the value |
| TypeCasts.AstTypeCast.Clone | src/ast/TypeCast.h:65-67 | a fresh cast equal to the original |
| TypeCasts.AstTypeCast.Apply | src/ast/TypeCast.h:69-71 | only the value is replaced by its image |
| TypeCasts.AstTypeCast.Equals | src/ast/TypeCast.h:78-81 | equal iff the same type and the same value |
| Printing.TypeCastRoundTrip | src/ast/TypeCast.h:74-76 | a cast's text reads back as the call `as` of the value's text and the type's text, when neither has a "," |
| Clauses.AstClause.constructor | src/ast/Clause.h:47-51 | a clause with the given head, body and plan |
| Clauses.AstClause.AddToBody | src/ast/Clause.h:53-55 | the literal is appended; head, plan and earlier literals stay |
| Clauses.AstClause.SetHead | src/ast/Clause.h:58-60 | only the head changes |
| Clauses.AstClause.SetBodyLiterals | src/ast/Clause.h:63-65 | only the body changes |
| Clauses.AstClause.SetExecutionPlan | src/ast/Clause.h:83-85 | the plan becomes the given one, nothing else changes |
| Clauses.AstClause.ClearExecutionPlan | src/ast/Clause.h:88-90 | the plan becomes absent, nothing else changes |
| Clauses.AstClause.Clone | src/ast/Clause.h:92-95 | a fresh clause equal to the original |
| Clauses.AstClause.Apply | src/ast/Clause.h:97-102 | head and each body literal are replaced by their images in place; the plan is untouched |
| Clauses.AstClause.ChildNodes | src/ast/Clause.h:104-110 | the head, then the body literals in order; the plan is not a child |
| Clauses.AstClause.Equals | src/ast/Clause.h:126-130 | equal iff head, body and plan are equal |
| Equality.ClauseEqualIsIdentity | src/ast/Clause.h:126-130 | equal head, pairwise-equal body and equal plan is exactly equality of the clauses |
| Equality.LiteralEqualIsIdentity | src/ast/Clause.h:126-130 | literal equality is exactly equality of the literal values |
| Printing.ClauseTextLines | src/ast/Clause.h:113-124 | a fact is one line: head, ".", plan; a rule's first line is its head and " :- ", then one line per body literal in order, indented by three spaces and ended by ",", the last ended by "." and the plan |
| ExecutionPlans.Upsert | src/ast/ExecutionPlan.h:48-50 | the map stays ascending, `v` maps to the new order and every other version keeps its order |
| ExecutionPlans.UpsertOverwrites | src/ast/ExecutionPlan.h:48-50 | setting a version twice is the same as setting it once to the last order |
| ExecutionPlans.UpsertAbove | src/ast/ExecutionPlan.h:48-50 | a version above all stored ones is appended at the end |
| ExecutionPlans.AstExecutionPlan.constructor | src/ast/ExecutionPlan.h:97-100 | a new plan holds no orders |
| ExecutionPlans.AstExecutionPlan.SetOrderFor | src/ast/ExecutionPlan.h:48-50 | the order for `v` becomes `o`, overwriting; other versions are unchanged |
| ExecutionPlans.AstExecutionPlan.GetOrders | src/ast/ExecutionPlan.h:53-59 | exactly the stored entries, in ascending version order |
| ExecutionPlans.AstExecutionPlan.Clone | src/ast/ExecutionPlan.h:61-68 | a fresh plan with the same versions and equal orders |
| ExecutionPlans.AstExecutionPlan.Apply | src/ast/ExecutionPlan.h:70-74 | every order is replaced by its image in place; the versions stay |
| ExecutionPlans.AstExecutionPlan.ChildNodes | src/ast/ExecutionPlan.h:76-82 | the orders in ascending version order |
| ExecutionPlans.AstExecutionPlan.Equals | src/ast/ExecutionPlan.h:93-96 | equal iff the same versions with the same orders |
| Equality.PlanEqualIsIdentity | src/ast/ExecutionPlan.h:93-96 | plan equality is exactly equality of the version-to-order maps |
| Printing.PlanTextWords | src/ast/ExecutionPlan.h:85-91 | a plan prints nothing iff it has no orders; otherwise its words are ".plan" followed by the `version:order` entries in order, each but the last ended by "," |
| Printing.EntryTexts | src/ast/ExecutionPlan.h:85-91 | each entry prints as `version:order` |
| Components.AstComponent.constructor | src/ast/Component.h:269-294 | the class declares no constructor: its fields are default-initialised, so a new component has empty lists and no overrides; the model's constructor also sets the type |
| Components.AstComponent.SetComponentType | src/ast/Component.h:60-62 | only the component type changes |
| Components.AstComponent.AddBaseComponent | src/ast/Component.h:70-72 | appends to the base list only |
| Components.AstComponent.AddType | src/ast/Component.h:75-77 | appends to the type list only |
| Components.AstComponent.CopyBaseComponents | src/ast/Component.h:85-87 | the base list becomes the other component's base list, nothing else changes |
| Components.AstComponent.AddRelation | src/ast/Component.h:90-92 | appends to the relation list only |
| Components.AstComponent.AddClause | src/ast/Component.h:100-102 | appends to the clause list only |
| Components.AstComponent.AddDirective | src/ast/Component.h:110-112 | appends to the directive list only |
| Components.AstComponent.AddComponent | src/ast/Component.h:120-122 | appends to the nested-component list only |
| Components.AstComponent.AddInstantiation | src/ast/Component.h:130-132 | appends to the instantiation list only |
| Components.AstComponent.AddOverride | src/ast/Component.h:140-142 | set insertion into the overrides; repeating it changes nothing |
| Components.AstComponent.Clone | src/ast/Component.h:149-161 | a fresh component with every field copied, overrides included |
| Components.AstComponent.Apply | src/ast/Component.h:163-186 | every element of every list is replaced by its image; the overrides stay |
| Components.AstComponent.ChildNodes | src/ast/Component.h:188-214 | component type, bases, components, instantiations, types, relations, clauses, directives |
| Components.AstComponent.Equals | src/ast/Component.h:236-267 | the corrected equality: equal iff the component values are equal |
| Components.ComponentEqualIsIdentity | src/ast/Component.h:236-267 | the corrected field-by-field equality is exactly equality of the components |
| Components.AsWrittenIgnoresContents | src/ast/Component.h:239-241 | as written, two components of the same type with different relations compare equal |
| Components.AsWrittenIgnoresTypeWhenContentsMatch | src/ast/Component.h:239-266 | as written, two components that differ only in their type compare equal |
| Components.AsWrittenDifferentTypes | src/ast/Component.h:242-266 | for different types, the as-written equality holds when all else matches, and implies that the lists and overrides agree |
| Components.AsWrittenReflexive | src/ast/Component.h:236-267 | the as-written equality is reflexive on component lists |
| Programs.AstProgram.constructor | src/ast/Program.h:296-318 | the class declares no constructor and default-initialises its eight lists; the model's constructor holds exactly the eight lists given, empty ones giving the default |
| Programs.AstProgram.AddDirective | src/ast/Program.h:81-84 | appends to the directive list only |
| Programs.AstProgram.SetClauses | src/ast/Program.h:98-100 | replaces the clause list wholesale, nothing else changes |
| Programs.AstProgram.AddRelation | src/ast/Program.h:92 | appends to the relation list only |
| Programs.AstProgram.AddClause | src/ast/Program.h:103 | appends to the clause list only |
| Programs.AstProgram.RemoveRelationDecl | src/ast/Program.h:95 | drops the declarations with that name; the result tells whether one existed |
| Programs.AstProgram.RemoveClauseAt | src/ast/Program.h:109 | removes the clause at one position, the others keep their order |
| Programs.AstProgram.AddComponent | src/ast/Program.h:285-288 | appends to the component list only |
| Programs.AstProgram.AddInstantiation | src/ast/Program.h:291-294 | appends to the instantiation list only |
| Programs.AstProgram.Clone | src/ast/Program.h:127-138 | a fresh program equal to the original |
| Programs.AstProgram.Apply | src/ast/Program.h:140-165 | every element of all eight lists is replaced by its image; lengths preserved |
| Programs.AstProgram.ChildNodes | src/ast/Program.h:167-194 | pragmas, components, instantiations, functors, types, relations, clauses, directives |
| Programs.AstProgram.Equals | src/ast/Program.h:248-275 | equal iff all eight lists are equal, with components compared by the corrected component equality (see "## Findings"; `ProgramEqualAsWritten` is the equality as written) |
| Programs.ProgramEqualIsIdentity | src/ast/Program.h:248-275 | pairwise equality of the eight lists, components compared by the corrected equality, is exactly equality of the programs |
| Programs.ProgramAsWrittenIgnoresComponentContents | src/ast/Program.h:253 | as written, programs that differ only inside a component of the same type compare equal; the corrected equality holds iff the components are equal |
| Programs.WithoutRelation | src/ast/Program.h:95 | exactly the declarations with another name remain |
| AggAnalysis.FindAggregateRelations | src/ast/analysis/AggAnalysis.cpp:43-57 | a relation is in the initial set iff it heads a clause with an aggregator anywhere |
| AggAnalysis.InitialWorklist | src/ast/analysis/AggAnalysis.cpp:60-68 | the worklist holds exactly the SCCs of the aggregate relations |
| AggAnalysis.PushPredecessors | src/ast/analysis/AggAnalysis.cpp:78-83 | the worklist gains exactly the predecessors not yet reachable |
| AggAnalysis.ClosureStep | src/ast/analysis/AggAnalysis.cpp:70-84 | one pop-and-push keeps the closure invariant: seeds covered, every member reaches from a seed, open edges only into the worklist |
| AggAnalysis.Closure | src/ast/analysis/AggAnalysis.cpp:70-84 | on exit every seed is reachable, `reachable` is closed under predecessors, and every member is a transitive predecessor of a seed; the loop terminates because a node is never re-queued once reachable |
| AggAnalysis.PathEndsIn | src/ast/analysis/AggAnalysis.cpp:70-84 | any set holding the seeds and closed under predecessors holds every node a path reaches |
| AggAnalysis.CollectRelations | src/ast/analysis/AggAnalysis.cpp:87-91 | the aggregate relations plus every relation of a reachable SCC |
| AggAnalysis.RelationsOfMembers | src/ast/analysis/AggAnalysis.cpp:87-91 | the relations of a list of SCCs are exactly those of some member |
| AggAnalysis.Run | src/ast/analysis/AggAnalysis.cpp:40-92 | `reachable` is exactly the set of SCCs reachable from a seed through predecessors, and the result is the aggregate relations united with the relations of those SCCs |
| RemoveEmptyRelations.EmptyNames | src/ast/transform/RemoveEmptyRelations.cpp:38-44 | the collected names are in ascending order |
| RemoveEmptyRelations.EmptyNamesMembers | src/ast/transform/RemoveEmptyRelations.cpp:40-44 | a name is collected iff a declared relation of that name has no clauses and is not an input |
| RemoveEmptyRelations.DoomedNamesMembers | src/ast/transform/RemoveEmptyRelations.cpp:46-60 | a declaration goes iff the relation is empty, appears in no aggregate body anywhere in the program, and is not an output |
| RemoveEmptyRelations.AggUseArgMentions | src/ast/transform/RemoveEmptyRelations.cpp:47-55 | an aggregate use of a relation inside an argument is a mention of its atom there |
| RemoveEmptyRelations.Kept | src/ast/transform/RemoveEmptyRelations.cpp:57-58 | exactly the declarations whose name was not removed remain |
| RemoveEmptyRelations.KeptStep | src/ast/transform/RemoveEmptyRelations.cpp:57-58 | removing one more name's declarations is the same as keeping against the larger set |
| RemoveEmptyRelations.Classify | src/ast/transform/RemoveEmptyRelations.cpp:41-57 | decides emptiness and removal of one relation as the two predicates define them |
| RemoveEmptyRelations.VisitRelation | src/ast/transform/RemoveEmptyRelations.cpp:40-60 | one turn of the relation loop: the declaration state and the collected names advance by one relation |
| RemoveEmptyRelations.RemoveDeclarations | src/ast/transform/RemoveEmptyRelations.cpp:38-61 | the doomed declarations are removed and nothing else changes; the empty names are collected in order; `changed` iff something was removed |
| RemoveEmptyRelations.FindAtomUse | src/ast/transform/RemoveEmptyRelations.cpp:87-97 | true iff the body has a top-level positive atom of the relation |
| RemoveEmptyRelations.FindNegation | src/ast/transform/RemoveEmptyRelations.cpp:102-110 | true iff the body has a top-level negation of the relation |
| RemoveEmptyRelations.CloneWithoutNegations | src/ast/transform/RemoveEmptyRelations.cpp:115-125 | the copy is the head and plan with the body minus the negations of the relation |
| RemoveEmptyRelations.DropNegationsMembers | src/ast/transform/RemoveEmptyRelations.cpp:117-125 | the copy keeps exactly the literals that are not negations of the relation |
| RemoveEmptyRelations.DropNegationsSubsequence | src/ast/transform/RemoveEmptyRelations.cpp:117-125 | the kept literals, negations of other relations included, keep their relative order |
| RemoveEmptyRelations.UpdateClause | src/ast/transform/RemoveEmptyRelations.cpp:84-131 | one of the program's own clauses is removed, or removed with its rewritten copy appended, or kept; `changed` iff it used or negated the relation |
| RemoveEmptyRelations.UpdateComponentClause | src/ast/transform/RemoveEmptyRelations.cpp:84-131 | a component clause stays; its rewritten copy is appended to the program's clauses iff it negates the relation without using it; `changed` iff it used or negated the relation |
| RemoveEmptyRelations.ComponentStep | src/ast/transform/RemoveEmptyRelations.cpp:84-131 | one turn over a component clause adds its copy, if any, after the earlier copies |
| RemoveEmptyRelations.ComponentClausesPass | src/ast/transform/RemoveEmptyRelations.cpp:84-131 | the component clauses, visited first, only append their copies in order; the result is true iff one of them used or negated the relation |
| RemoveEmptyRelations.OwnClausesPass | src/ast/transform/RemoveEmptyRelations.cpp:84-131 | the program's own clauses, visited next: the untouched ones stay in order, the copies already made stay next, and the new copies follow in order; the result is true iff one of them used or negated the relation |
| RemoveEmptyRelations.UsesStep | src/ast/transform/RemoveEmptyRelations.cpp:84-131 | one turn of the clause loop advances the untouched/rewritten split by one clause |
| RemoveEmptyRelations.RemoveEmptyRelationUses | src/ast/transform/RemoveEmptyRelations.cpp:70-135 | the clauses are collected depth-first, the components' clauses first; the program's clause list becomes its untouched clauses in order, then the copies of the component clauses, then the copies of its own; the result is true iff some clause, in a component or not, used or negated the relation |
| RemoveEmptyRelations.UntouchedMembers | src/ast/transform/RemoveEmptyRelations.cpp:99-131 | clauses that neither use nor negate the relation are exactly the ones kept as they were |
| RemoveEmptyRelations.RewritesMembers | src/ast/transform/RemoveEmptyRelations.cpp:99-131 | the added clauses are exactly the copies of the clauses that negate but do not use the relation |
| RemoveEmptyRelations.RewriteClean | src/ast/transform/RemoveEmptyRelations.cpp:112-130 | a copy has no negation of the relation and no atom or negation its original lacked |
| RemoveEmptyRelations.RemoveUsesClean | src/ast/transform/RemoveEmptyRelations.cpp:84-131 | afterwards no clause of the program uses or negates the relation, copies of component clauses included |
| RemoveEmptyRelations.RemoveUsesKeepsClean | src/ast/transform/RemoveEmptyRelations.cpp:84-131 | a relation that neither the program's clauses nor the components used or negated before is still unused afterwards |
| RemoveEmptyRelations.UntouchedAll | src/ast/transform/RemoveEmptyRelations.cpp:99-131 | when nothing touches the relation, every clause is kept and nothing is added |
| RemoveEmptyRelations.RemoveUsesIdentity | src/ast/transform/RemoveEmptyRelations.cpp:99-131 | when no clause, in a component or not, touches the relation, the clause list is unchanged |
| RemoveEmptyRelations.RemoveAllEmptyUses | src/ast/transform/RemoveEmptyRelations.cpp:63-65 | the uses of each empty relation are removed in name order, each call visiting the unchanged component clauses again; `changed` iff some call met a clause, in a component or not, that used or negated its relation |
| RemoveEmptyRelations.RemoveAllUsesClean | src/ast/transform/RemoveEmptyRelations.cpp:63-65 | afterwards no clause of the program uses or negates an empty relation that no component clause uses or negates |
| RemoveEmptyRelations.ComponentCopyKeepsNegation | src/ast/transform/RemoveEmptyRelations.cpp:63-65 | a component clause negating two empty relations leaves a copy that still negates the first, so the condition of `RemoveAllUsesClean` is needed |
| RemoveEmptyRelations.Transform | src/ast/transform/RemoveEmptyRelations.cpp:35-68 | declarations become those kept, and the clauses become the result of removing every empty relation's uses in name order, component clauses included; the result is true iff a declaration was removed or some clause, in a component or not, used or negated an empty relation |
| ExecutionPlanChecker.SccAtomCount | src/ast/transform/ExecutionPlanChecker.cpp:51-56 | the version is at most the number of body literals |
| ExecutionPlanChecker.SccAtomCountExtremes | src/ast/transform/ExecutionPlanChecker.cpp:51-56 | the version is 0 iff no body literal is an atom of the SCC, and the body length iff all are |
| ExecutionPlanChecker.CountVersion | src/ast/transform/ExecutionPlanChecker.cpp:51-56 | the loop counts the body atoms whose relation is in the clause's own SCC |
| ExecutionPlanChecker.MaxKey | src/ast/transform/ExecutionPlanChecker.cpp:57-60 | never below -1 |
| ExecutionPlanChecker.MaxKeyIsMaximum | src/ast/transform/ExecutionPlanChecker.cpp:57-60 | every plan key is at most the maximum, -1 when there are no orders, and a key attains it when it exceeds -1 |
| ExecutionPlanChecker.MaxVersion | src/ast/transform/ExecutionPlanChecker.cpp:57-60 | the running `std::max` loop computes that maximum |
| ExecutionPlanChecker.OffendingMembers | src/ast/transform/ExecutionPlanChecker.cpp:63-64 | the reported keys are exactly the plan keys `>= version` |
| ExecutionPlanChecker.OffendingAscending | src/ast/transform/ExecutionPlanChecker.cpp:63-64 | they are reported in ascending order, each once |
| ExecutionPlanChecker.OffendingAboveMax | src/ast/transform/ExecutionPlanChecker.cpp:62 | when `version > maxVersion` nothing is reported |
| ExecutionPlanChecker.VersionDiagnosticText | src/ast/transform/ExecutionPlanChecker.cpp:65-70 | the message and note read "execution plan for version K" and "only versions 0..V-1 permitted" |
| ExecutionPlanChecker.PlanDiagnosticsAreOffending | src/ast/transform/ExecutionPlanChecker.cpp:63-72 | one diagnostic per offending key, in order |
| ExecutionPlanChecker.ClauseDiagnosticsExact | src/ast/transform/ExecutionPlanChecker.cpp:51-73 | for a recursive clause with a plan: exactly one error per key `>= version`, none for keys below |
| ExecutionPlanChecker.ClauseReportedIff | src/ast/transform/ExecutionPlanChecker.cpp:45-73 | a clause is reported iff it is recursive, has a plan, and some key is `>= version` |
| ExecutionPlanChecker.NoCandidatesNoDiagnostics | src/ast/transform/ExecutionPlanChecker.cpp:45-50 | when no clause is a recursive clause with a plan, nothing is reported |
| ExecutionPlanChecker.CheckClause | src/ast/transform/ExecutionPlanChecker.cpp:45-73 | the report gains exactly that clause's diagnostics |
| ExecutionPlanChecker.CheckClauses | src/ast/transform/ExecutionPlanChecker.cpp:44-74 | the report gains the diagnostics of the relation's clauses in order |
| ExecutionPlanChecker.CheckStep | src/ast/transform/ExecutionPlanChecker.cpp:42-75 | the report gains the diagnostics of one schedule step's relations |
| ExecutionPlanChecker.Transform | src/ast/transform/ExecutionPlanChecker.cpp:36-78 | only the report changes, by exactly the schedule's diagnostics; the result is always false |
| GroundedTermsChecker.ArgTerms | src/ast/transform/GroundedTermsChecker.cpp:53-64 | a term's traversal starts with the term itself |
| GroundedTermsChecker.ReportedNamesMembers | src/ast/transform/GroundedTermsChecker.cpp:44-50 | a name is reported iff some occurrence of it is ungrounded |
| GroundedTermsChecker.ReportedNamesDistinct | src/ast/transform/GroundedTermsChecker.cpp:44-50 | each name is reported once, at its first ungrounded occurrence |
| GroundedTermsChecker.VariableErrorsAreReportedNames | src/ast/transform/GroundedTermsChecker.cpp:46-50 | one "Ungrounded variable" error per reported name, in order |
| GroundedTermsChecker.UngroundedAtMembers | src/ast/transform/GroundedTermsChecker.cpp:53-64 | the reported positions are exactly the ungrounded records (resp. branches) |
| GroundedTermsChecker.UngroundedAtAscending | src/ast/transform/GroundedTermsChecker.cpp:53-64 | in traversal order, each once |
| GroundedTermsChecker.CompoundErrorsCount | src/ast/transform/GroundedTermsChecker.cpp:53-64 | one "Ungrounded record" (resp. "Ungrounded ADT branch") error per ungrounded occurrence |
| GroundedTermsChecker.ClauseDiagnosticsCount | src/ast/transform/GroundedTermsChecker.cpp:40-64 | facts produce nothing; a rule gets as many errors as reported names, ungrounded records and ungrounded branches |
| GroundedTermsChecker.GroundedVariablesClean | src/ast/transform/GroundedTermsChecker.cpp:47 | grounded variable occurrences never produce errors |
| GroundedTermsChecker.GroundedCompoundsClean | src/ast/transform/GroundedTermsChecker.cpp:54-61 | grounded records and branches never produce errors |
| GroundedTermsChecker.GroundedClauseClean | src/ast/transform/GroundedTermsChecker.cpp:40-64 | a clause whose checked terms are all grounded is not reported |
| GroundedTermsChecker.UngroundedVariableReported | src/ast/transform/GroundedTermsChecker.cpp:46-50 | an ungrounded variable in a rule gets its error |
| GroundedTermsChecker.CheckClause | src/ast/transform/GroundedTermsChecker.cpp:40-64 | the report gains exactly that clause's diagnostics |
| GroundedTermsChecker.Verify | src/ast/transform/GroundedTermsChecker.cpp:34-66 | only the report changes, by the diagnostics of the clauses in order |
| RemoveTypecasts.StripArgNoCast | src/ast/transform/RemoveTypecasts.cpp:31-43 | no cast is left in a rewritten argument |
| RemoveTypecasts.StripProgramNoCast | src/ast/transform/RemoveTypecasts.cpp:31-47 | no cast is left anywhere in the program |
| RemoveTypecasts.StripArgFixpoint | src/ast/transform/RemoveTypecasts.cpp:41-42 | an argument without casts is kept as it is |
| RemoveTypecasts.StripProgramFixpoint | src/ast/transform/RemoveTypecasts.cpp:41-42 | a program without casts is kept as it is |
| RemoveTypecasts.StripProgramIdempotent | src/ast/transform/RemoveTypecasts.cpp:31-49 | a second run leaves the program unchanged |
| RemoveTypecasts.NestedCastsCollapse | src/ast/transform/RemoveTypecasts.cpp:33-39 | `as(as(x,T1),T2)` becomes the cleaned `x` |
| RemoveTypecasts.StripAtom | src/ast/transform/RemoveTypecasts.cpp:41-42 | an atom keeps its name and arity |
| RemoveTypecasts.StripClause | src/ast/transform/RemoveTypecasts.cpp:41-42 | a clause keeps its head name, its plan and its body length |
| RemoveTypecasts.MapStripClauses | src/ast/transform/RemoveTypecasts.cpp:46-47 | mapping the rewrite over a clause list is the recursive rewrite of the list |
| RemoveTypecasts.Transform | src/ast/transform/RemoveTypecasts.cpp:27-50 | the program becomes the recursive rewrite with each cast replaced by its cleaned value; the result is true iff a cast was present |
| NameUnnamedVariables.UName | src/ast/transform/NameUnnamedVariables.cpp:34-46 | the generated names carry the "+underscore_" prefix |
| NameUnnamedVariables.UNameInjective | src/ast/transform/NameUnnamedVariables.cpp:35-45 | different counter values give different names |
| NameUnnamedVariables.UnderscoreCounter.constructor | src/ast/transform/NameUnnamedVariables.cpp:35 | the counter starts at 0 |
| NameUnnamedVariables.NameClauseFacts | src/ast/transform/NameUnnamedVariables.cpp:41-50 | after naming a clause no unnamed variable is left; apart from the names the clause is unchanged; the counter rises by the number of replacements; and each generated name occurs once, exactly for the counter values used |
| NameUnnamedVariables.NameArgShape | src/ast/transform/NameUnnamedVariables.cpp:41-50 | naming one argument in pre-order uses one counter value per unnamed variable, leaves none behind, and changes nothing but the names of unnamed variables |
| NameUnnamedVariables.NameArgCountVar | src/ast/transform/NameUnnamedVariables.cpp:41-50 | naming one argument makes each generated name occur once more exactly when its counter value is among those used |
| NameUnnamedVariables.NameForRelationUnnamed | src/ast/transform/NameUnnamedVariables.cpp:55-59 | the clauses of the relation have no unnamed variable left |
| NameUnnamedVariables.NameForRelationCounter | src/ast/transform/NameUnnamedVariables.cpp:55-59 | the counter grows iff some clause of the relation had an unnamed variable |
| NameUnnamedVariables.NameAllUnnamed | src/ast/transform/NameUnnamedVariables.cpp:54-60 | no unnamed variable remains in a clause of a declared relation; clauses of undeclared relations are untouched |
| NameUnnamedVariables.NameAllBlank | src/ast/transform/NameUnnamedVariables.cpp:48-49 | every other node is kept: a clause differs only in the replaced variables |
| NameUnnamedVariables.NameAllCounter | src/ast/transform/NameUnnamedVariables.cpp:43-62 | the counter grows iff some replacement happened |
| NameUnnamedVariables.NameAllCountVar | src/ast/transform/NameUnnamedVariables.cpp:35-45 | the name for a counter value used by this run occurs exactly once more than before, and every other generated name as often as before |
| NameUnnamedVariables.NameRelationClauses | src/ast/transform/NameUnnamedVariables.cpp:55-59 | the clauses of one relation are named in order; `changed` iff the counter grew |
| NameUnnamedVariables.Transform | src/ast/transform/NameUnnamedVariables.cpp:32-63 | the clauses become the result of naming every declared relation's clauses; the result is true iff a replacement happened |
| AddNullaries.ExtendBody | src/ast/transform/AddNullariesToAtomlessAggregates.cpp:37-68 | a body with an atom is unchanged; otherwise it is the old literals in order followed by one `+Tautology()` atom |
| AddNullaries.ExtendAggregateBody | src/ast/transform/AddNullariesToAtomlessAggregates.cpp:37-68 | the `seenAtom` loop and the `newBody` copy compute `ExtendBody`; it models the loop by itself, while `Transform` works through `AggregateBody`, the function form of the same rewrite |
| AddNullaries.AggregateBody | src/ast/transform/AddNullariesToAtomlessAggregates.cpp:63-68 | an aggregate's new body is its rewritten literals, plus the tautology atom when it had no atom |
| AddNullaries.NoAtomlessAggregateLeft | src/ast/transform/AddNullariesToAtomlessAggregates.cpp:36-69 | afterwards every aggregate body contains an atom |
| AddNullaries.AddNullariesFixpoint | src/ast/transform/AddNullariesToAtomlessAggregates.cpp:43-45 | a program without atomless aggregates is unchanged |
| AddNullaries.AddNullariesIdempotent | src/ast/transform/AddNullariesToAtomlessAggregates.cpp:36-69 | a second run changes nothing |
| AddNullaries.TautologyAddedOnce | src/ast/transform/AddNullariesToAtomlessAggregates.cpp:53-62 | the relation and fact are added once, only when an atomless aggregate exists and no `+Tautology` relation is declared |
| AddNullaries.Transform | src/ast/transform/AddNullariesToAtomlessAggregates.cpp:33-71 | the program becomes the rewrite, and the result is true iff some atomless aggregate was found |
| IOTypes.IOType.constructor | src/ast/analysis/IOType.cpp:31 | the sets and the limit map start empty |
| IOTypes.IOType.Visit | src/ast/analysis/IOType.cpp:34-50 | undeclared relations are ignored; input, output, printsize (also output) and limitsize (with the limit `n`) go to their own sets |
| IOTypes.IOType.Run | src/ast/analysis/IOType.cpp:31-52 | the sets are the names of declared relations with a directive of that kind; the limit is the last limitsize directive's `n`; `ok` is false iff a limitsize directive lacks `n` |
| IOTypes.NamedMembers | src/ast/analysis/IOType.cpp:34-44 | a name is in a set iff some directive of that kind names a declared relation |
| IOTypes.NamedIgnoresOrder | src/ast/analysis/IOType.cpp:33-51 | the sets do not depend on the order of the directives |
| IOTypes.NamedAreDeclared | src/ast/analysis/IOType.cpp:34-37 | every classified name is declared |
| IOTypes.LimitsKeys | src/ast/analysis/IOType.cpp:45-49 | the limit map's keys are exactly the limitsize-classified names |
| IOTypes.LastLimitWins | src/ast/analysis/IOType.cpp:48 | the limit recorded is the one of the last limitsize directive for that relation |
| SumTypeBranches.SumTypeBranchesAnalysis.constructor | src/ast/analysis/SumTypeBranches.cpp:26 | the map starts empty |
| SumTypeBranches.SumTypeBranchesAnalysis.Run | src/ast/analysis/SumTypeBranches.cpp:26-37 | the map becomes the result of visiting the type declarations in order |
| SumTypeBranches.AddBranchesFacts | src/ast/analysis/SumTypeBranches.cpp:33-35 | every branch of a known type maps to that type; other entries stay |
| SumTypeBranches.BranchesKeys | src/ast/analysis/SumTypeBranches.cpp:29-36 | the keys are exactly the constructors of the known ADTs |
| SumTypeBranches.LastTypeWins | src/ast/analysis/SumTypeBranches.cpp:34 | when two ADTs share a constructor, the later one wins |
| SumTypeBranches.UnknownTypeIgnored | src/ast/analysis/SumTypeBranches.cpp:31 | an ADT unknown to the environment contributes nothing |
| MagicSets.AdornmentLessIsStrictTotalOrder | src/ast/transform/MagicSet.h:227-229 | the pair order of the to-do set is a strict total order |
| MagicSets.AdornDatabaseTransformer.constructor | src/ast/transform/MagicSet.h:229-230 | both sets start empty |
| MagicSets.AdornDatabaseTransformer.QueueAdornment | src/ast/transform/MagicSet.h:243-249 | inserts into the ordered to-do set only when the identifier is unseen; afterwards the identifier is seen; every identifier is queued at most once |
| MagicSets.QueueAdornmentIdempotent | src/ast/transform/MagicSet.h:243-249 | queueing the same adornment twice has the effect of queueing it once, and the queued identifiers stay distinct |
| MagicSets.AdornDatabaseTransformer.HasAdornmentToProcess | src/ast/transform/MagicSet.h:252-254 | true iff the to-do set is non-empty |
| MagicSets.AdornDatabaseTransformer.NextAdornmentToProcess | src/ast/transform/MagicSet.h:257-262 | requires a non-empty to-do set; returns its least element and removes exactly that one |

## Left out

- `Program::print`, the print controller and `Component::print` are not modelled.
  They read a file of relation names and filter by a process-wide mode.
- The `std::cout` listing at the end of `AggAnalysis::run` is not modelled. The run
  returns the computed set instead.
- Source locations are not modelled, and diagnostics are not formatted.
  - A diagnostic is a sequence of text and number pieces, rendered by `Reports.Render`.
  - ERROR is the only diagnostic type and is not recorded.
- Printing of the node kinds whose classes are not part of this model uses a
  conventional rendering. Those kinds are variables, constants, records, functors,
  aggregates, binary constraints and execution orders.
- Node mappers are Dafny functions on the node kind they rewrite. The
  `dynamic_cast` dispatch of the mapper classes is not modelled.
- `ComponentInit`, the translation-strategy factory and the non-inline members of
  the magic-set transformer are not modelled.
- The literal-reordering pass and the header of the aggregate analysis are not
  modelled. They hold declarations only.
- A null head, a null component type and a null argument are not modelled. Owned
  children are always present values.
- Node identity is modelled by position or by value:
  - a clause is identified by its position in the clause list, not its address;
  - a term is identified by its pre-order index in its clause, which keys the
    groundedness map;
  - a relation is identified by its name, which is what `getRelation` and
    `getAtomRelation` look up;
  - a type is identified by its name, which is what `getType` looks up.
- Some containers are ordered by names instead of addresses:
  - In `AggAnalysis` the set of relation pointers is kept as a set ordered by name.
    The result, as a set, is the same.
  - In the plan checker a schedule step's SCC is a sequence giving the pointer
    order of the `std::set`.
- `cloneHead` and `removeRelation` have no code in this model. `cloneHead` is taken
  to copy the head and the execution plan into a clause with an empty body.
  `removeRelation` is taken to drop the declarations of that name and nothing else.
- RemoveEmptyRelations.RemoveEmptyRelationUses: `Program::removeClause` has no code
  here. It is taken to look for the clause among the program's own clauses only.
  - A component clause is therefore never removed, and its uses stay in the component.
  - Its copy is still appended to the program's clauses, and the result is still set, as modelled.
- `visitDepthFirst` is taken to visit in pre-order. It visits a node before its
  children, the head before the body, and an aggregator's target before its body.
- `isFact` is taken to mean a clause without a body literal.
- AggAnalysis.Run: looking up the relation of a clause head that declares nothing yields a null pointer in the repository. The model requires instead that every such head has an SCC (`Covers`).
- IOTypes.IOType.Run: where the repository asserts that a limitsize directive has
  an `n`, the model stops and returns `ok == false`. `stoi` is the parameter `toInt`.
- MagicSets: `getAdornmentID` has no code here and is a function parameter.
  - The ghost field `queued` records the identifiers in the order they were queued.
  - The at-most-once property is stated on `queued`.
- NameUnnamedVariables: the static counter is made an object passed to the pass,
  with the same lifetime.
- NameUnnamedVariables.NameRelationClauses: `getClauses` returns the clauses of one
  relation in program order, and they are rewritten in place.
- ExecutionPlanChecker.MaxKeyIsMaximum: "some key attains the maximum" is stated
  only when the maximum exceeds -1. The repository folds `std::max` over the keys
  starting from -1, so a plan whose keys are all below -1 also yields -1.
- SumTypeBranches: the walk covers the top-level type declarations, which is what
  `getTypes()` returns.

## Findings

| source | as written | input that shows it | evidently intended | confidence | as-written member | corrected member |
|---|---|---|---|---|---|---|
| src/ast/Component.h:239-241 | `equal` returns true as soon as `equal_ptr(componentType, other.componentType)` holds, so the remaining fields are compared only when the component types DIFFER | two components of type `C` where one declares relation `r` and the other declares nothing compare equal; two otherwise empty components of types `A` and `B` also compare equal | return false when the types differ, otherwise compare every list and the override sets | not executed | Components.ComponentEqualAsWritten (shown by Components.AsWrittenIgnoresContents and Components.AsWrittenIgnoresTypeWhenContentsMatch), and Programs.ProgramEqualAsWritten, which inherits it (shown by Programs.ProgramAsWrittenIgnoresComponentContents) | Components.ComponentEqual (Components.ComponentEqualIsIdentity proves it is value equality; program equality and `AstComponent.Equals` use it) |
