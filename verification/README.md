# Verified models of aoba

aoba reads JavaScript with Closure annotations. It parses sources into syntax trees, runs
analyzer passes over them, and builds a small intermediate representation. This project models
seven parts of it in Dafny and proves what they promise.

- **Class tree builder** (`ClassHierarchy`, `ClassTreeBuilding`, `ConstructedClasses`). Class
  definitions arrive in any order. A class is finalized, with its breadth-first class list, as
  soon as all its bases are, and that may cascade through the graph of waiting classes. Between
  calls the finalized classes are the least set closed under "all bases are in the set", and in
  the end all class lists are determined by what was processed and referenced, so the order of
  the definitions does not matter. In the middle of a cascade a weaker invariant holds, indexed
  by the edges that the calls in progress have still to remove.
- **Name resolver** (`ScopeRules`, `ScopeMeaning`, `NameResolution`). A stack of environments resolves a
  reference at once, or keeps it as a forward reference that moves outward as environments
  close. A whole run gives every reference the outcome a two-pass rule would give it, and
  exactly one outcome. What that outcome is follows from the declarations in the scopes around
  the reference.
- **Expression parser** (`Tokens`, `ExpressionGrammar`, `ExpressionParsing`, `ExpressionParser`,
  `ParserSoundness`, `ParserCompleteness`, `ParserTheorems`, `OperatorPrecedence`,
  `OperandForms`, `RangeNesting`). The recursive
  descent parser with its token cursor and range stack is proved to compute a set of functions
  on token positions. Those functions accept exactly the token sequences of canonical trees, so
  parsing and flattening are inverse to each other. Every node's range spans its tokens and
  contains its children's in order.
- **Types** (`TypeFactories`, `TypeTransformation`). Union types are made once per member set.
  The union constructor is a least upper bound up to object identity. A type expression means a
  set of atoms, and the transformer returns the one object with those atoms.
- **Line caches** (`LineCaches`). Two lazily extended tables of line starts, looked up by
  binary search, give the lines of the naive split after any history of queries.
- **Tree walks** (`NodeTraversal`). Two walks with explicit stacks visit a tree in recursive
  preorder, which is the lexicographic order of paths.
- **Pointer structures** (`DoubleLinkedLists`, `Operators`, `NodeInputs`, `NodeFactories`). An
  intrusive list refines a sequence. The use lists of the intermediate representation hold
  exactly the edges to their node. Its factory shares nodes as far as its caches allow.

Classes of the program that are updated in place are Dafny classes with the same fields; their
methods keep the loops of the source. A `DCHECK` on an argument or on the state became a
precondition where a debug build would stop; where a release build goes on in a defined way and
the model follows it, the list at the end says so. Ghost fields record what the pointers of a
structure mean; each is tied to the real fields by the structure's invariant.

The table below lists the results, and the operations that loop, branch or cascade. Operations
of one step, such as opening an environment or consuming a token, have their contracts in the
files only. `Sequences` and `Wrappers` hold what several modules share.

How to read the hard results:

- `ClassTreeBuilding.ClassTreeBuilder.Valid` is the invariant between calls, and
  `IsGraph` with its parameters `w` and `next` is the one inside a cascade. `FinalizeClass`
  terminates because each call finalizes one more processed class;
  `FinalizeConstructedClass` because the class lists of a generic class mention only generic
  classes finalized strictly earlier.
- `IsLeastListed` says which classes have a list: the finalized and the referenced ones, and what
  their lists lead to. `ResultIsDetermined` compares whole maps of lists on that ground.
- `ScopeRules.Outcomes` is the two-pass rule: a reference gets the innermost binding at the time
  of the visit, else the innermost binding its enclosing scopes have when they close.
- `ExpressionGrammar.Spans` says that a canonical tree is written by a stretch of tokens.
  `ParserTheorems.ParsesExactlyTheGrammar` says the parser decides that relation.
- `OperatorPrecedence` and `OperandForms` say what the levels are: they give the trees of short
  expressions with every operator written out.
- `TypeFactories.Join` and `TypeTransformation.Denote` are meanings as sets of atoms;
  `AtomsDetermine` turns equal meanings into equal objects.
- `NodeInputs.IsSound` is the invariant of all use lists, stated on a snapshot of the fields.
  `NodeFactories.Unfold` is the term a node stands for.

## Model

| member | source | states |
|---|---|---|
| ClassHierarchy.BreadthFirstMeaning | aoba/analyzer/class_tree_builder.cc:186-201 | the breadth-first list of a class starts with it, holds exactly the classes reachable through base classes, of which a constructed class has none, and is ordered by non-decreasing shortest distance; nothing is in it twice when the class is not its own ancestor |
| ClassHierarchy.BreadthFirstUnique | aoba/analyzer/class_tree_builder.cc:186-201 | the list is determined by the heritage |
| ClassHierarchy.WithinIsPrefix | aoba/analyzer/class_tree_builder.cc:190-200 | the classes at most n steps away are the first entries of the list |
| ClassHierarchy.WithinIsChains | aoba/analyzer/class_tree_builder.cc:190-200 | the classes at most n steps away are the ends of chains of at most n written names, none of them behind a constructed class |
| ClassHierarchy.DiscoveredSize | aoba/analyzer/class_tree_builder.cc:190-200 | the walk cannot grow past the number of classes, so the loop over its own growing list ends |
| ClassHierarchy.StopsAtConstructed | aoba/analyzer/class_tree_builder.cc:190-200 | a walk does not pass a constructed class: with `D extends G<int>` and `G<T> extends A` the list of `D` is `D`, `G<int>`, although `G` reaches `A` |
| ClassHierarchy.ComputeArgumentMap | aoba/analyzer/class_tree_builder.cc:25-39 | each type parameter is mapped to its argument; the first of equal parameters counts |
| ClassHierarchy.ArgumentMapMeaning | aoba/analyzer/class_tree_builder.cc:31-37 | exactly the parameters are mapped, each to the argument at its first position |
| ClassHierarchy.InstanceListMeaning | aoba/analyzer/class_tree_builder.cc:219-232 | an instance list has the length of the generic list, its own class as head, and in every later entry the direct type parameter arguments replaced |
| ClassTreeBuilding.ClassTreeBuilder.ProcessClassDefinition | aoba/analyzer/class_tree_builder.cc:89-115 | keeps the invariant; afterwards the finalized classes are the least set of processed classes closed under having all bases in it; no list already made changes |
| ClassTreeBuilding.ClassTreeBuilder.FinalIfAllBasesAre | aoba/analyzer/class_tree_builder.cc:94-108 | a processed class is final if and only if every class in its written list is, a constructed class by its generic class |
| ClassTreeBuilding.ClassTreeBuilder.NamedBasesComeFirst | aoba/analyzer/class_tree_builder.cc:186-200 | a class list begins with the class and the distinct classes it names |
| ClassTreeBuilding.ClassTreeBuilder.NamedBasesAreNext | aoba/analyzer/class_tree_builder.cc:186-200 | names without repetition follow the class exactly as they are written |
| ClassTreeBuilding.ClassTreeBuilder.NamedBasesInOrder | aoba/analyzer/class_tree_builder.cc:186-200 | first mentions keep their written order in the list |
| ClassTreeBuilding.ClassTreeBuilder.PendingBases | aoba/analyzer/class_tree_builder.cc:94-103 | the bases to wait for are exactly the stripped bases that are not finalized |
| ClassTreeBuilding.ClassTreeBuilder.AddPendingEdges | aoba/analyzer/class_tree_builder.cc:109-114 | exactly one edge per pending base is added, and only unfinalized classes have nodes |
| ClassTreeBuilding.ClassTreeBuilder.ProcessClassReference | aoba/analyzer/class_tree_builder.cc:117-127 | true exactly when the class, or its generic class, is finalized; a constructed class then has its list, and is kept for later otherwise; the reference is recorded and the invariant kept |
| ClassTreeBuilding.ClassTreeBuilder.FinalizeClass | aoba/analyzer/class_tree_builder.cc:183-217 | mid-cascade invariant: the graph is right up to the edges still to be drained by callers, before and after; at least the class itself becomes final and lists already made stay |
| ClassTreeBuilding.ClassTreeBuilder.ComputeClassList | aoba/analyzer/class_tree_builder.cc:186-200 | the loop computes a breadth-first list of finalized classes and terminates |
| ClassTreeBuilding.ClassTreeBuilder.VisitBases | aoba/analyzer/class_tree_builder.cc:191-199 | the bases of one entry are appended in order unless met before; unready constructed bases are finalized on the way |
| ClassTreeBuilding.ClassTreeBuilder.FinalizeConstructedClass | aoba/analyzer/class_tree_builder.cc:219-232 | a constructed class gets the instance of its generic class's list; whatever else gets a list is reached from it through lists and has a generic class finalized strictly earlier, so it terminates |
| ClassTreeBuilding.ClassTreeBuilder.ConstructClass | aoba/analyzer/class_tree_builder.cc:146-181 | the result is the class with its direct arguments substituted, and is finalized |
| ClassTreeBuilding.ClassTreeBuilder.Build | aoba/analyzer/class_tree_builder.cc:72-87 | its first loop finalizes nothing; every pending constructed class gets a list, and no class gets one that is not finalized, referenced, or in a list; no error is reported if and only if every class defined or named as a base is final |
| ClassTreeBuilding.ClassTreeBuilder.NodeCannotFinalize | aoba/analyzer/class_tree_builder.cc:72-79 | between calls no class left in the graph satisfies CanFinalize: it was never processed, or names a class that is not final |
| ClassTreeBuilding.ClassTreeBuilder.ValidateClassTree | aoba/analyzer/class_tree_builder.cc:254-281 | every undefined base and every heritage step between waiting classes is reported, nothing else is, and no unordered pair twice; no error if and only if the graph is empty |
| ClassTreeBuilding.ClassTreeBuilder.ErrorsMeaning | aoba/analyzer/class_tree_builder.cc:254-281 | reported as undefined are exactly the classes that some processed class names and that were never processed; a cycle error joins two unfinished classes one of which names the other, and every such pair of processed classes has one |
| ClassTreeBuilding.ClassTreeBuilder.ErrorsAreDistinct | aoba/analyzer/class_tree_builder.cc:270-279 | no two errors are equal or about the same two classes |
| ClassTreeBuilding.ClassTreeBuilder.IdsAreUnique | aoba/analyzer/class_tree_builder.cc:270-275 | different ids of all classes are enough for that |
| ClassTreeBuilding.ClassTreeBuilder.ReportSuccessors | aoba/analyzer/class_tree_builder.cc:265-279 | every waiting user of one class is reported unless its pair was |
| ClassTreeBuilding.ClassTreeBuilder.ClassListMeaning | aoba/analyzer/class_tree_builder.cc:183-201 | the list of a finalized class starts with it, has no duplicates, and holds, nearest first, exactly the classes reachable through base classes; ancestry stops at constructed classes, which have no base classes of their own |
| ClassTreeBuilding.ClassTreeBuilder.ConstructedListMeaning | aoba/analyzer/class_tree_builder.cc:219-232 | the list of a finalized `G<args>` is that of `G` with its head replaced and later entries instantiated |
| ClassTreeBuilding.ClassTreeBuilder.InstantiatedBase | aoba/analyzer/class_tree_builder.cc:146-181 | with `G<T>` naming `B<..T..>`, the list of `G<argument>` holds `B<..argument..>`, position by position |
| ClassTreeBuilding.ClassTreeBuilder.FinalizedMeaning | aoba/analyzer/class_tree_builder.cc:89-115 | in every state between calls the finalized classes are the least closed set |
| ClassTreeBuilding.ClassTreeBuilder.OrderDoesNotMatter | aoba/analyzer/class_tree_builder.cc:89-127 | two builders that processed the same classes, in any order and with any references in between, have finalized the same classes, and no class has different lists in the two |
| ClassTreeBuilding.ClassTreeBuilder.ResultIsDetermined | aoba/analyzer/class_tree_builder.cc:72-127 | two builders that finished after processing the same classes and referencing the same constructed classes have equal maps of class lists: the same classes have one, and it is the same |
| ClassTreeBuilding.ClassTreeBuilder.ListedMeaning | aoba/analyzer/class_tree_builder.cc:80-232 | after `Build` the classes with a list are the least set that holds the finalized and the referenced classes and every entry of the lists of its classes; each of those has a list |
| ClassTreeBuilding.ClassTreeBuilder.ConstructedAncestry | aoba/analyzer/class_tree_builder.cc:219-232 | the list of a finalized `G<args>` holds itself and the instances of exactly the other classes `G` reaches |
| ClassTreeBuilding.ClassTreeBuilder.WhenListIsTransitive | aoba/analyzer/class_tree_builder.cc:183-232 | the list of a class holds all that the constructed classes in it list if and only if the class reaches, on its own, each instance of what their generic classes reach |
| ClassTreeBuilding.ClassTreeBuilder.CyclesAreAllReported | aoba/analyzer/class_tree_builder.cc:254-281 | classes that each have a base among them are never final, and every heritage step between them is reported |
| ClassTreeBuilding.KnotIsNeverFinal | aoba/analyzer/class_tree_builder.cc:130-144 | a set of classes in which each has a base never becomes final |
| ClassTreeBuilding.FinalizeStep | aoba/analyzer/class_tree_builder.cc:201-205 | finalizing a class turns the edges that leave it into edges to be drained |
| ClassTreeBuilding.DrainStep | aoba/analyzer/class_tree_builder.cc:206-209 | draining one edge leaves everything but its target blocked as it was |
| ClassTreeBuilding.ProcessStep | aoba/analyzer/class_tree_builder.cc:92-114 | a new definition is either ready at once or blocked by exactly its pending bases |
| ClassTreeBuilding.NodeIsWaiting | aoba/analyzer/class_tree_builder.cc:102-114 | a node of the graph was never defined, or waits for another node |
| ConstructedClasses.Factory.NewConstructedClass | aoba/analyzer/factory.cc:75-86 | a pair of generic class and arguments gets an object once; later requests return that object |
| ConstructedClasses.Factory.SameValueSameObject | aoba/analyzer/factory.cc:75-86 | two constructed classes are the same object if and only if generic class and arguments are equal |
| NameResolution.NameResolver.FindVariable | aoba/analyzer/name_resolver.cc:299-306 | the walk along the outer pointers finds what looking up the stack of scopes finds |
| NameResolution.NameResolver.BindVariable | aoba/analyzer/name_resolver.cc:278-297 | the first declaration of a name in a scope binds it; a later one is reported and gets the same variable |
| NameResolution.NameResolver.VisitReference | aoba/analyzer/name_resolver.cc:927-937 | keywords are skipped, a bound name is registered, any other becomes a forward reference of the innermost environment |
| NameResolution.NameResolver.ResolveForwardReferences | aoba/analyzer/name_resolver.cc:187-200 | every owed reference is registered here, handed to the outer environment, or reported when there is none, in order |
| NameResolution.NameResolver.VisitAll | aoba/analyzer/name_resolver.cc:927-943 | visiting a list of items changes bindings, debts, registrations and errors exactly as the one-pass rule says |
| NameResolution.NameResolver.VisitBlock | aoba/analyzer/name_resolver.cc:940-944 | a block leaves the bindings outside as they were and hands its unresolved references outward |
| NameResolution.Resolve | aoba/analyzer/name_resolver.cc:215-237 | over a whole run the registered references and the reported ones together are exactly the outcomes of the two-pass rule, and cover every reference exactly once |
| NameResolution.NothingLost | aoba/analyzer/name_resolver.cc:187-200 | conservation: registered and undefined references together are the visited references, as multisets |
| ScopeMeaning.DeclaredBefore | aoba/analyzer/name_resolver.cc:299-306 | a reference anywhere in the program gets the first declaration of its name in the innermost scope around it that has declared the name by then |
| ScopeMeaning.DeclaredLater | aoba/analyzer/name_resolver.cc:187-200 | with no declaration before it, it gets the first declaration in the innermost scope around it that declares the name at all |
| ScopeMeaning.Global | aoba/analyzer/name_resolver.cc:299-306 | a global name is found unless a scope around the reference has declared it by then |
| ScopeMeaning.DeclaredNowhere | aoba/analyzer/name_resolver.cc:194-199 | a name that is neither global nor declared in any scope around the reference is undefined |
| ScopeMeaning.BecomesInRun | aoba/analyzer/name_resolver.cc:187-200 | these outcomes are what a run registers and reports |
| ScopeMeaning.OutcomeHasSite | aoba/analyzer/name_resolver.cc:927-937 | every outcome is that of a reference in the program that is no keyword |
| ScopeMeaning.RepeatedDeclaration | aoba/analyzer/name_resolver.cc:278-286 | a declaration of a name its scope has declared before is reported with the variable of the first |
| ScopeMeaning.ReportedDeclaration | aoba/analyzer/name_resolver.cc:278-286 | nothing else is reported |
| ScopeRules.LookupMeaning | aoba/analyzer/name_resolver.cc:299-306 | lookup gives the binding of the innermost scope that has one, and none if and only if no scope has |
| ScopeRules.BindingsMeaning | aoba/analyzer/name_resolver.cc:278-289 | a scope binds exactly the names declared in it, each to its first declaration |
| ScopeRules.OnePassIsTwoPass | aoba/analyzer/name_resolver.cc:187-200 | what was registered during the visit, plus what the final bindings of the enclosing scopes make of the forward references, is what the two-pass rule gives |
| ScopeRules.CloseSplits | aoba/analyzer/name_resolver.cc:188-199 | closing a scope settles the references it binds and leaves the outcome of the others to the scopes around it |
| ScopeRules.OneOutcomeEach | aoba/analyzer/name_resolver.cc:927-937 | the two-pass rule gives every visited reference one outcome |
| ScopeRules.WholeRun | aoba/analyzer/name_resolver.cc:187-200 | with the global scope closed, registrations and errors are the outcomes of the two-pass rule |
| ExpressionParser.Parser.ParseExpression | aoba/parser/parser_expressions.cc:373-378 | result and cursor are those of the parsing function; the enclosing node's start is restored on every return |
| ExpressionParser.Parser.ParseCommaExpression | aoba/parser/parser_expressions.cc:348-357 | the loop collects what the recursive function collects |
| ExpressionParser.Parser.ParseBinaryExpression | aoba/parser/parser_expressions.cc:324-346 | the levels of binary operators nest, each level an operand of the next lower one |
| ExpressionParser.Parser.ParseBinaryRest | aoba/parser/parser_expressions.cc:330-344 | the loop of one level builds the left-nested tree of the recursive function |
| ExpressionParser.Parser.ParseUpdateExpression | aoba/parser/parser_expressions.cc:727-744 | a post operator must not start a line; whether that ends the expression or is an error depends on the option |
| ExpressionParser.Parser.ParseMembers | aoba/parser/parser_expressions.cc:387-404 | the loop chains member accesses to the left |
| ExpressionParser.Parser.HandleNewExpression | aoba/parser/parser_expressions.cc:195-211 | the member loop without calls |
| ParserTheorems.ParsesExactlyTheGrammar | aoba/parser/parser_expressions.cc:309-405 | for a whole token sequence: the parser returns a tree if and only if the tree is canonical and written by exactly those tokens with their ranges |
| ParserTheorems.Unambiguous | aoba/parser/parser_expressions.cc:324-346 | no token sequence is written by two canonical trees |
| ParserTheorems.ParseOfFlatten | aoba/parser/parser_expressions.cc:309-405 | flattening a canonical tree and parsing the tokens gives the tree back if and only if no post operator of it starts a line |
| ParserTheorems.FlattenOfParse | aoba/parser/parser_expressions.cc:309-405 | a successful parse from any position flattens to exactly the tokens consumed |
| ParserTheorems.LaidOutIsSpelled | aoba/parser/parser_expressions.cc:309-405 | a laid out tree is written by its flattening |
| OperatorPrecedence.TighterOperatorFirst | aoba/ast/lexical_grammar.h:133-175 | for each two neighbouring levels of binary operators, every operator of both written out: the tighter one takes its operands first, whichever stands first |
| OperatorPrecedence.SameLevelFromTheLeft | aoba/parser/parser_expressions.cc:324-346 | two operators of one level nest to the left, `**` among them |
| OperatorPrecedence.AssignmentFromTheRight | aoba/parser/parser_expressions.cc:309-322 | each two of the thirteen assignment operators nest to the right |
| OperatorPrecedence.AssignmentAfterBinary | aoba/parser/parser_expressions.cc:309-322 | every binary operator binds tighter than every assignment operator, on both sides of it |
| OperatorPrecedence.ConditionalAroundOperators | aoba/parser/parser_expressions.cc:359-370 | the condition takes in a binary operator, both branches an assignment |
| OperatorPrecedence.ConditionalFromTheRight | aoba/parser/parser_expressions.cc:359-370 | conditionals nest to the right, inside an assignment |
| OperatorPrecedence.CommaLast | aoba/parser/parser_expressions.cc:348-357 | commas gather assignments in one node |
| OperandForms.PrefixesNest | aoba/parser/parser_expressions.cc:710-725 | each two of the nine prefix operators nest to the right |
| OperandForms.PrefixBeforeBinary | aoba/parser/parser_expressions.cc:710-725 | a prefix operator binds tighter than every binary operator, on both sides |
| OperandForms.PostBeforePrefix | aoba/parser/parser_expressions.cc:727-744 | a post operator binds tighter than a prefix operator |
| OperandForms.UpdateBeforeBinary | aoba/parser/parser_expressions.cc:727-744 | `++` and `--` in front of and behind operands bind tighter than every binary operator |
| OperandForms.NewlineBeforeUpdate | aoba/parser/parser_expressions.cc:732-741 | `++` or `--` at the start of a line ends the expression before it, or is an error, as the option says |
| OperandForms.MembersFirst | aoba/parser/parser_expressions.cc:387-404 | member accesses chain to the left and bind tighter than post and prefix operators |
| OperandForms.ParenthesesFirst | aoba/parser/parser_expressions.cc:554-574 | parentheses override the levels on both sides of an operator |
| OperandForms.OtherTokenEnds | aoba/parser/parser_expressions.cc:324-370 | an expression ends in front of every token that none of the above gives a place |
| OperandForms.SingleToken | aoba/parser/parser_expressions.cc:407-443 | which single tokens are expressions, and of which kind |
| ParserSoundness.ExpressionIsSound | aoba/parser/parser_expressions.cc:348-378 | what is parsed is canonical, fits its precedence level, and lies on the tokens consumed |
| ParserSoundness.TargetIsNotConditional | aoba/parser/parser_expressions.cc:313-319 | the target of an assignment is never a bare conditional |
| ParserSoundness.AssignmentStops | aoba/parser/parser_expressions.cc:318-319 | after an assignment expression no assignment operator follows |
| ParserCompleteness.Complete | aoba/parser/parser_expressions.cc:324-405 | at every precedence level a canonical tree, followed by a token that stops the level, is parsed as that tree |
| ParserCompleteness.BinaryChain | aoba/parser/parser_expressions.cc:328-345 | a left-nested chain of one level is built up by the loop |
| RangeNesting.SpansNest | aoba/parser/parser.cc:72-78 | every node of a laid out tree has a non-empty range that contains its children's, in order and without overlap |
| RangeNesting.NestingOfParts | aoba/parser/parser.cc:72-78 | for each kind of node: its parts lie inside it, in the order written, and are nested themselves |
| RangeNesting.ParsedTreesNest | aoba/parser/parser.cc:200-202 | a parsed tree's range runs from its first to its last token and its nodes nest |
| TypeFactories.TypeFactory.NewTupleTypeFromVector | aoba/analyzer/type_factory.cc:236-246 | one type per element vector |
| TypeFactories.TypeFactory.NewFunctionType | aoba/analyzer/type_factory.cc:173-192 | one type per kind, type parameters, arity, parameters, return type and this type |
| TypeFactories.TypeFactory.ComputeUnionTypeKey | aoba/analyzer/type_factory.cc:42-59 | the key is sorted by id and its elements are the join of the members' atoms, any alone if any occurs |
| TypeFactories.Emplace | aoba/analyzer/type_factory.cc:44-56 | inserting into the ordered set adds exactly the element |
| TypeFactories.TypeFactory.NewUnionTypeFromVector | aoba/analyzer/type_factory.cc:265-284 | returns the type whose atoms are the join of the members' atoms, new only if there was none |
| TypeFactories.TypeFactory.AtomsDetermine | aoba/analyzer/type_factory.cc:265-284 | types with the same atoms are the same object |
| TypeFactories.TypeFactory.OrderDoesNotMatter | aoba/analyzer/type_factory.cc:42-59 | vectors with the same members in any order and number give the same object |
| TypeFactories.TypeFactory.NestingDoesNotMatter | aoba/analyzer/type_factory.cc:51-55 | replacing a member by what it is the union of gives the same object |
| TypeFactories.TypeFactory.UnionOfTwo | aoba/analyzer/type_factory.cc:265-284 | two ordinary types are united to the pair of them, the older first, in either order |
| TypeFactories.TypeFactory.Commutative | aoba/analyzer/type_factory.cc:265-284 | a union b is b union a |
| TypeFactories.TypeFactory.Associative | aoba/analyzer/type_factory.cc:265-284 | (a union b) union c is a union (b union c) |
| TypeFactories.TypeFactory.Idempotent | aoba/analyzer/type_factory.cc:265-284 | a union a is a |
| TypeFactories.TypeFactory.NilIsIdentity | aoba/analyzer/type_factory.cc:49-50 | a union nil is a |
| TypeFactories.TypeFactory.AnyAbsorbs | aoba/analyzer/type_factory.cc:47-48 | a union any is any |
| TypeFactories.TypeFactory.LeastUpperBound | aoba/analyzer/type_factory.cc:265-284 | a union is below exactly the types that all its members are below |
| TypeFactories.TypeFactory.UnionsAreFlat | aoba/analyzer/type_factory.cc:275-282 | every union ever made has at least two members, strictly ordered by id, none of them any, nil or a union |
| TypeTransformation.TypeTransformer.NewNullableType | aoba/analyzer/type_transformer.cc:65-74 | adds null to the atoms; any, invalid and unspecified are returned as they are |
| TypeTransformation.TypeTransformer.NonNullable | aoba/analyzer/type_transformer.cc:192-211 | strips null from a union; an error is reported exactly when the type is returned unchanged, that is, when it is no union with null |
| TypeTransformation.TypeTransformer.MembersWithoutNull | aoba/analyzer/type_transformer.cc:200-206 | the loop keeps every member but null |
| TypeTransformation.TypeTransformer.TransformTypeName | aoba/analyzer/type_transformer.cc:277-290 | the object with the atoms the name denotes; undefined names are reported and become unspecified, known names report nothing |
| TypeTransformation.TypeTransformer.Transform | aoba/analyzer/type_transformer.cc:76-128 | the returned object has the atoms the type expression denotes, and the reported errors are those of the expression, in order |
| TypeTransformation.ResultOfSimpleType | aoba/analyzer/type_transformer.cc:76-128 | which single type is returned for any, unknown, void, invalid and undefined names, and which errors are reported |
| TypeTransformation.ResultOfTypeName | aoba/analyzer/type_transformer.cc:277-290 | for a name of a class or function type exactly the union of it and null is returned, for any other known name the type itself, without errors |
| TypeTransformation.ResultOfNullableType | aoba/analyzer/type_transformer.cc:65-74 | the union of the operand and null, or the operand if that is any, invalid or unspecified |
| TypeTransformation.ResultOfNonNullableType | aoba/analyzer/type_transformer.cc:189-211 | the union of the members other than null, or the operand and an error if it is no union with null |
| TypeTransformation.ResultOfMarkedType | aoba/analyzer/type_transformer.cc:88-113 | groups, and optional and rest types with their error, are their operand |
| TypeTransformation.ResultOfUnionType | aoba/analyzer/type_transformer.cc:114-119 | the union of what the parts are, with the errors of the parts in order |
| TypeTransformation.NonNullableName | aoba/analyzer/type_transformer.cc:189-211 | for a class or function type `T`, `!T` is `T` without an error, and `?T` is the same object as `T` written alone |
| TypeTransformation.SameMeaningSameObject | aoba/analyzer/type_transformer.cc:76-128 | two type expressions give the same object if and only if they denote the same atoms |
| TypeTransformation.StrippingUndoesAdding | aoba/analyzer/type_transformer.cc:65-74 | stripping null from what adding null returned gives the type back if and only if it is not nil and not a union that had null |
| TypeTransformation.AddingUndoesStripping | aoba/analyzer/type_transformer.cc:189-211 | adding null to what stripping returned for a union with null gives the union back if and only if not just invalid or unspecified was left |
| TypeTransformation.NullableTypesRoundTrip | aoba/analyzer/type_transformer.cc:25-45 | the types the debug check lets through come back, and all but invalid are changed in between |
| LineCaches.ConcatOfSplit | aoba/base/source_code_line_cache.cc:22-25 | the lines of the naive split are the text |
| LineCaches.LinesOfSplit | aoba/base/source_code_line_cache.cc:22-25 | every line but the last ends with its only terminator, and the last has none |
| LineCaches.SplitBreaks | aoba/base/source_code_line_cache.cc:22-25 | the split breaks after a code unit if and only if it is 10, 13, 0x2028 or 0x2029 |
| LineCaches.CountMeaning | aoba/base/line_number_cache.cc:24-27 | the terminators counted are the positions that hold one of those four |
| LineCaches.LineStartMeaning | aoba/base/source_code_line_cache.cc:59-75 | a line starts behind one of the four, or at the start of the text, with none of them up to the offset |
| LineCaches.LineEndMeaning | aoba/base/source_code_line_cache.cc:59-75 | it ends behind the next of the four, or at the end of the text |
| LineCaches.LineIsInSplit | aoba/base/source_code_line_cache.cc:34-76 | the line around an offset is the line of the split with that number |
| LineCaches.LowerBound | aoba/base/source_code_line_cache.cc:61 | the first position whose value is not below the key |
| LineCaches.IndexOfLine | aoba/base/source_code_line_cache.cc:68-69 | the lower bound of an offset gives the index of its line |
| LineCaches.SourceCodeLineCache.Extend | aoba/base/source_code_line_cache.cc:36-46 | scans exactly to the end of the line of the offset, and not at all when it has been there; keeps the table exact |
| LineCaches.SourceCodeLineCache.Get | aoba/base/source_code_line_cache.cc:34-76 | for every offset up to the size and every history: start, end and number of its line in the naive split; the number is one plus the positions before it that hold 10, 13, 0x2028 or 0x2029, and an offset starts its line exactly behind one of those |
| LineCaches.LineNumberCache.Extend | aoba/base/line_number_cache.cc:40-48 | scans up to the offset and keeps the table exact, the end of the text counting as a terminator |
| LineCaches.LineNumberCache.Get | aoba/base/line_number_cache.cc:36-69 | line and column after every history; the line is one plus the positions before the offset that hold 10, 13, 0x2028 or 0x2029, and the column is 0 exactly behind one of those |
| LineCaches.CachesAgree | aoba/base/line_number_cache.cc:36-75 | for offsets in the text the two caches give the same line number and start |
| LineCaches.PastTheEnd | aoba/base/line_number_cache.cc:71-75 | one past the end the number cache answers with the start of a line the text does not have |
| NodeTraversal.Iterator.Next | aoba/ast/node_traversal.cc:94-119 | drops exactly the current node from what is to come |
| NodeTraversal.Iterator.Ascend | aoba/ast/node_traversal.cc:112-118 | leaving finished containers loses no node |
| NodeTraversal.CollectInclusiveDescendants | aoba/ast/node_traversal.cc:173-176 | a whole walk yields the recursive preorder |
| NodeTraversal.Collect | aoba/ast/node_traversal.cc:94-119 | iterating to the end yields all that was to come and ends with an empty stack |
| NodeTraversal.DepthFirstTraverse | aoba/ast/syntax_visitor.cc:50-67 | visits the nodes in recursive preorder |
| NodeTraversal.PreorderIsLexicographic | aoba/ast/syntax_visitor.cc:50-67 | in preorder, nodes are ordered as their paths from the root are |
| NodeTraversal.PathAtPosition | aoba/ast/syntax_visitor.cc:50-67 | every position of the preorder is that of exactly the node at some path |
| NodeTraversal.SubtreeIsContiguous | aoba/ast/node_traversal.cc:94-119 | a subtree is a contiguous part of the preorder |
| DoubleLinkedLists.DoubleLinked.AppendNode | aoba/base/double_linked.h:155-172 | appends to the sequence |
| DoubleLinkedLists.DoubleLinked.PrependNode | aoba/base/double_linked.h:253-270 | prepends to the sequence |
| DoubleLinkedLists.DoubleLinked.InsertAfter | aoba/base/double_linked.h:185-216 | inserts after the reference node, or at the start without one |
| DoubleLinkedLists.DoubleLinked.InsertBefore | aoba/base/double_linked.h:220-250 | inserts before the reference node, or at the end without one |
| DoubleLinkedLists.DoubleLinked.RemoveNode | aoba/base/double_linked.h:279-300 | removes from the sequence and unlinks the node |
| DoubleLinkedLists.DoubleLinked.ReplaceNode | aoba/base/double_linked.h:304-339 | replaces in the sequence and unlinks the old node |
| DoubleLinkedLists.DoubleLinked.RemoveAll | aoba/base/double_linked.h:273-276 | empties the list and unlinks every node |
| DoubleLinkedLists.DoubleLinked.Count | aoba/base/double_linked.h:176-181 | the length of the sequence |
| DoubleLinkedLists.DoubleLinked.Forward | aoba/base/double_linked.h:114-118 | following the next pointers yields the sequence |
| DoubleLinkedLists.DoubleLinked.Backward | aoba/base/double_linked.h:135-139 | following the previous pointers yields its reverse |
| DoubleLinkedLists.ListsAreDisjoint | aoba/base/double_linked.h:157-160 | a node is in one list at most |
| Operators.OperatorFactory.OneOperatorPerOperation | aoba/ir/operator_factory.cc:95-127 | operators are the same object if and only if their operations are equal |
| NodeInputs.Graph.InitUseEdge | aoba/ir/node_inputs.cc:61-74 | the edge becomes the head of its target's use list, and every use list stays sound |
| NodeInputs.Graph.InitUseEdges | aoba/ir/node_inputs.cc:76-84 | one edge per input, in order |
| NodeInputs.PushKeepsSound | aoba/ir/node_inputs.cc:61-74 | pushing the next edge of a node keeps all use lists sound |
| NodeInputs.UseListIsDistinct | aoba/ir/node_inputs.cc:67-73 | a use list linked both ways is finite and meets no edge twice |
| NodeInputs.UsesOf | aoba/ir/node_inputs.cc:61-74 | a use list holds exactly the edges to its node, each once |
| NodeInputs.EdgesOf | aoba/ir/node_inputs.cc:76-84 | a node's edges are exactly those that come from it, one per input |
| NodeInputs.UsesAreInputs | aoba/ir/node_inputs.cc:61-84 | conservation: the lengths of all use lists add up to the number of all inputs |
| NodeInputs.Graph.UseListHoldsItsEdges | aoba/ir/node_inputs.cc:61-74 | in every reachable state an edge is in a node's use list if and only if it points to the node |
| NodeInputs.Graph.UsesBalanceInputs | aoba/ir/node_inputs.cc:61-84 | the same count on the nodes themselves |
| NodeFactories.NodeFactory.NewNode | aoba/ir/node_factory.cc:153-186 | a new node, linked into the use lists of its inputs |
| NodeFactories.NodeFactory.GetOrNewNodeN | aoba/ir/node_factory.cc:112-151 | with at most two inputs the node of these parts, new only if there was none; with more always a new one |
| NodeFactories.NodeFactory.OneNodeEach | aoba/ir/node_factory.cc:112-142 | two literals, projections, returns or tuples of at most two with the same operation and inputs are the same node |
| NodeFactories.NodeFactory.FoundOrMade | aoba/ir/node_factory.cc:112-142 | a request makes a node of one of these kinds if and only if there was none with the same parts |
| NodeFactories.NodeFactory.NewLiteralInt64 | aoba/ir/node_factory.cc:248-252 | the node of the literal, made if and only if there was none |
| NodeFactories.NodeFactory.NewProjectionNode | aoba/ir/node_factory.cc:266-270 | the projection with the type of the projected member, made if and only if there was none |
| NodeFactories.NodeFactory.NewRetNode | aoba/ir/node_factory.cc:272-276 | the return node of control and value, made if and only if there was none |
| NodeFactories.NodeFactory.NewTupleNodeFromVector | aoba/ir/node_factory.cc:286-295 | the tuple, with the tuple of the types; always new if it has more than two members, otherwise made if and only if there was none |
| NodeFactories.NodeFactory.InputsAreOlder | aoba/ir/node_factory.cc:297-299 | inputs have smaller ids than their users, so the graph has no cycle |
| NodeFactories.NodeFactory.SharingIsMaximal | aoba/ir/node_factory.cc:112-151 | nodes that unfold to the same term are the same node, where literals, projections, returns and tuples of at most two are unfolded and all others stand for themselves |

## Left out

- ClassTreeBuilding.ClassTreeBuilder.ProcessClassReference: a constructed class that already has its list is excluded, as `SetClassList` stops there in a debug build and would double the list in a release build.
- ClassTreeBuilding.ClassTreeBuilder.Build: a pending constructed class whose generic class never becomes final gets the list of itself alone, as a release build does; a debug build stops.
- ClassTreeBuilding.ClassTreeBuilder.ValidateClassTree: no error twice needs unique class ids, as in the program; no claim that a cycle error lies on a heritage cycle, since classes below an undefined base are reported the same way.
- ClassTreeBuilding.ClassTreeBuilder.ConstructClass: a raw generic class in the tail of a list stops a debug build; the model returns it unchanged, as a release build does.
- ClassTreeBuilding.ClassTreeBuilder.ClassListMeaning: ancestry stops at constructed classes, as in the code; what a generic class inherits is in the list of a class that extends an instance of it only when that class reaches it on its own (`WhenListIsTransitive`).
- Substitution below the direct arguments of a constructed class, which the code does not do either.
- Graph, graph editor and zones: the graph is a set of nodes and a set of edges, in any order, and allocation is `new`; classes are values, which the factory's cache justifies, and the class lists of all classes are one map field of the builder.
- NameResolution.NameResolver.BindVariable: the property that a binding of the global scope adds to the global object is not modelled.
- Name resolver: types, properties, annotations and assignments; a program is a tree of declarations, references and blocks.
- Parser: statements, declarations, bindings, calls, `new`, arrow functions, yield, template, regular expression, array, object, class and function literals, JsDoc, and error recovery; all of these are failures here, and tokens are given without comments.
- ExpressionParser.Parser.Advance: the stack of tokens pushed back is not modelled; only statements push tokens back.
- ExpressionParser.Parser.ParseUnaryExpression: yield expressions are failures; so is a missing operand at the end of the input, where the lexer's check would stop.
- ExpressionParser.Parser.ParseLeftHandSideExpression: calls are failures.
- ExpressionParser.Parser.ParseNewExpression: `new` is a failure.
- ExpressionParser.Parser.ParsePrimaryExpression: class, array, object and regular expression literals and JsDoc are failures.
- ExpressionParser.Parser.ParseNameAsExpression: functions and arrow functions are failures.
- ExpressionParser.Parser.ParseParenthesis: arrow functions after a parenthesis are failures.
- The loop of the binary levels makes `**` left-associative, unlike section 12.6 of the ECMAScript 2016 language specification; the model follows the code.
- TypeFactories.TypeFactory.constructor: the primitive types installed after the six single types are not modelled.
- Type factory: record, labeled and primitive types and type names; they add caches of the same shape.
- TypeTransformation.TypeTransformer.Transform: type expressions for function, record and tuple types and type applications are not modelled.
- Type transformer: the context that knows the names is part of the type expression.
- TypeTransformation.TypeTransformer.NewNullableType: the debug check `CanBeNullable` is not a precondition; what a release build does for the other types is part of the model.
- Line caches: `std::lower_bound` is the binary search `LineCaches.LowerBound`; offsets and line numbers are unbounded.
- NodeTraversal.Iterator.DescendantsOf: a container without children is excluded, as there is no child to stand on.
- NodeTraversal.SyntaxVisitor.Visit: what visitors do with a node; they do not change the tree.
- DoubleLinkedLists.DoubleLinked.InsertAfter: the owner that debug builds keep is a real field here; without it nothing stops a node of one list from being put in another.
- Intermediate representation: float64 literals, whose keys are not ordinary numbers, variadic nodes, which no operator makes, and union and function types; types are values, as the type factory makes each tuple type once.
- NodeFactories.NodeFactory.GetOrNewNodeN: the output type must follow from the operation and the inputs, as it does in every call the factory makes.
- NodeInputs.Graph.InitUseEdges: an edge exists from the moment it is linked; the block of memory it lies in is not modelled.
- Lexer, bracket tracker, printers, error tables and the command line.
