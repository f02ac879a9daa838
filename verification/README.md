# Source reductions of clang_delta

C-Vise shrinks programs; its tool `clang_delta` does so with passes that rewrite C and C++ source.
A pass collects instances in the syntax tree, picks the one with the number of the counter (or a range of
them) and edits the text. This project models the passes whose edits must not change what the program
means, the rewriter and the hint format beneath them, and states what each pass keeps, and exactly when.

How the files hang together:

- `Wrappers`, `Decimal`, `Collections` - optional values; decimal numbers as streams print and read them, and conversion to `int`;
  facts about sequences and sets.
- `ClassTable`, `OverridePaths`, `MethodRenaming`, `RenameCXXMethod` - C++ overriding, dispatch and lookup on a class table;
  overriding in terms of paths of bases; what any naming that follows the first overridden method preserves; the pass that
  makes such a naming.
- `RenameParam`, `ParamLaws`, `RenameFun`, `RenameClass` - fresh names for parameters, functions and classes; `ParamLaws` says
  without the functions of the pass which numbers are taken, what is renamed and to what.
- `StructInit`, `RemoveUnusedStructField` - aggregate initialisation of nested records and arrays; a field
  and its initialisers disappear.
- `StmtLanguage`, `Hoisting`, `HoistingScopes`, `BinOpSites`, `SiteLaws`, `BinOpSimplification` - structured statements with
  local declarations and their runs; an operand moves into a temporary in front of its statement; which declarations the names
  stand for then; what the traversal collects, as a function and, in `SiteLaws`, in terms of paths; the visitor and the pass.
- `CallInlining`, `ReplaceCallExpr`, `ExprReading` - typed expressions; a call becomes the callee's return expression, as a
  tree and as text edited at offsets; what that text is read as.
- `ReduceArrayDim`, `SubscriptReading`, `ReduceArraySize` - the last two dimensions become one; how the new subscripts are read;
  a dimension shrinks to its largest index.
- `HintFormat`, `HintsBuilder`, `TextRewriter`, `FunctionRewriting` - the serialised hints, the builder, the rewriter
  with its position map, and nested edits from last to first.

A pass that updates its fields is a class, with a predicate or function that gives its abstract state;
its methods are tied to functions of the program, and the lemmas are about those functions. Counters and
positions are mathematical integers; where the source's `unsigned` or `int` can wrap, the wrap is written out.

Where the code does less than it seems to promise, a failing input is given and the exact condition is proved:

- `RenameCXXMethod`: a method that overrides methods of two unrelated bases takes the name of the first only;
  dispatch is preserved if and only if no method does that.
- `RenameParam`: functions, enumerators and variables of included files are not recorded, so a new name
  can capture them; and a prototype with parameters inside a body clears the map of new names, so that later uses of the
  outer parameters keep names that are gone. A program means the same if and only if every body is free of both.
- `ReplaceCallExpr`: a comma expression is put in parentheses before the offsets are used, which are then off by
  one; a cast in front of an argument that is subscripted or has a member accessed binds last; the text is read as the
  substituted tree if and only if neither happens. A local variable around the call can capture a name of the return
  expression; every name keeps its variable if and only if no such name is declared there. A return type that cannot hold the
  expression's type loses its conversion; all calls and the arithmetic around them keep values and types if and only if the
  return type holds the expression's type and both are promoted to the same type, and everything around them does if and only
  if the types are equal.
- `BinOpSimplification`: an operand in the head of a loop is computed once instead of every time round; a run of the loop
  ends as before if and only if in every round the head is true just when it is with the operand's first value. The braces
  around a declaration can cut its variable off from later uses; every name keeps its declaration if and only if that does not
  happen and no operand reads the variable of its own declaration. The
  assertion that no operand is collected twice holds if and only if no function defined inside another has one.
- `ReduceArrayDim`: the factor is the size n of the second-last dimension, not the size m of the last one, so
  elements keep their identity only for m <= n and stay in bounds only for n <= m (or n = 1); which lengths of rows make
  initialisers read back is stated for all n and m. There are no parentheses around the last index, so the new subscript
  is read as it is meant if and only if that index binds more tightly than a sum.
- `ReduceArraySize`: uses that are met before the declaration are not recorded, nor are subscripts that yield a whole row or
  an object of a class, so the new size misses uses if and only if one of these is not constant or exceeds the recorded
  ones; the "reduced" size can be larger; and an array of pointers
  subscripted once more than it has dimensions stops the pass.
- `RemoveUnusedStructField`: a record defined inside another one is visited after it, too late for the index vector of the
  outer one; the vectors are complete if and only if every record is visited after those in it that lead to the field. A variable
  keeps its values when that is so for the records inside its type, whatever comes later.
- `RenameFun`: the test for consecutive numbers passes for sets with 0 and one gap, and a kernel can keep the runs
  from ending, or share its name with a renamed function.
- `RenameClass`: a base gets the earlier letter if and only if a chain of bases that were visited in time leads to the derived
  class and is higher than all that lead to the base; so a derived class visited early can come first. The description of the pass
  excludes the letters E, T and Z; the code, which is followed here, excludes E, T and U.
- `HintsBuilder`: strings that hold the null character are not read back.
- With `--warn-on-counter-out-of-bounds`, `ReplaceFunctionDefWithDecl` can reach its assertion that there is a function.

## Model

| member | source | states |
|---|---|---|
| Decimal.ReadPrint | clang_delta/RenameParam.cpp:178-198 | Reading a printed number back yields it exactly when it fits an `unsigned int`; a larger one fails. |
| Decimal.DigitPrefixPrint | clang_delta/RenameFun.cpp:251-254 | Extraction from a stream takes the digits of a printed number and stops at whatever follows it. |
| Decimal.ReadUnsignedIff | clang_delta/RenameFun.cpp:251-254 | A number is read from a string exactly when it fits and the longest run of digits in front stands for it. |
| RenameCXXMethod.Renamer.AddOneMethodName | clang_delta/RenameCXXMethod.cpp:435-452 | A method that overrides nothing gets a name of its own, given to no method before, and DoRenaming is set exactly when its old name is not of the form of ValidNameIff; the duplicate assertion is its precondition. |
| RenameCXXMethod.Renamer.AddOneInheritedName | clang_delta/RenameCXXMethod.cpp:454-473 | An overriding method gets the name of the first method it overrides, which has been named already, so "Cannot find base" is never reached. |
| RenameCXXMethod.Renamer.NumberBases | clang_delta/RenameCXXMethod.cpp:385-423 | The recursion over bases ends, for any class under way, and leaves every base with names. |
| RenameCXXMethod.Renamer.HandleOneCXXRecordDecl | clang_delta/RenameCXXMethod.cpp:475-528 | A visit, in whatever order classes come, keeps the numbering right, finishes the class and leaves those under way as they were. |
| RenameCXXMethod.Renamer.NameNonVirtuals | clang_delta/RenameCXXMethod.cpp:513-527 | The non-virtual methods each get a name of their own, whatever order their set is walked in. |
| RenameCXXMethod.Renamer.HandleAll | clang_delta/RenameCXXMethod.cpp:309-344 | After all classes have been visited, in any order and any number of times, the names are a good naming, on which all lemmas of MethodRenaming rest: the methods that override nothing are called m_fn and one of the numbers 1 to their count, each its own. DoRenaming stays unset if and only if all of them were called m_fn and digits before. |
| RenameCXXMethod.NumberingIsGood | clang_delta/RenameCXXMethod.cpp:435-473 | In a numbering different roots have different names; once it covers all methods it is a good naming. |
| RenameCXXMethod.ValidNameIff | clang_delta/RenameCXXMethod.cpp:425-433 | A name passes if and only if it is "m_fn" followed by at least one digit and nothing else. |
| RenameCXXMethod.FooNeedsRenaming | clang_delta/RenameCXXMethod.cpp:446-451 | The class with the one method foo needs renaming. |
| RenameCXXMethod.RenamedNamesValid | clang_delta/RenameCXXMethod.cpp:425-452 | After a run every name is m_fn and digits, so that another run has nothing to do. |
| MethodRenaming.SameNameIffSameRoot | clang_delta/RenameCXXMethod.cpp:435-473 | Two methods get equal names if and only if they have the same override root. |
| MethodRenaming.RenamedWellFormed | clang_delta/RenameCXXMethod.cpp:859-873 | No renamed class declares a signature twice. |
| MethodRenaming.OverridesPreservedIff | clang_delta/RenameCXXMethod.cpp:351-383 | Every method overrides after the renaming what it overrode before, if and only if no method overrides methods of two roots. |
| MethodRenaming.DispatchPreservedIff | clang_delta/RenameCXXMethod.cpp:351-383 | Virtual dispatch reaches the same body from every dynamic class, along every inheritance path, if and only if no method overrides methods of two roots. |
| MethodRenaming.TwoRootsBreakDispatch | clang_delta/RenameCXXMethod.cpp:351-367 | The two-base example the source's comment leaves open does break dispatch, under every naming the pass can make. |
| MethodRenaming.NoNewHiding | clang_delta/RenameCXXMethod.cpp:367-383 | Methods that share a name after the renaming had the same name and parameters before, so no derived method newly hides a base one. |
| MethodRenaming.ResolutionPreserved | clang_delta/RenameCXXMethod.cpp:190-287 | A call that resolved to a method by member-name lookup still resolves to it under its new name. |
| OverridePaths.VirtualIff | clang_delta/RenameCXXMethod.cpp:475-511 | A method is virtual if and only if a path of bases leads from its class to one that declares its signature as virtual (section 10.3 of ISO/IEC 14882). |
| OverridePaths.OverriddenIff | clang_delta/RenameCXXMethod.cpp:351-383 | What a method overrides are exactly the virtual methods of its signature that some path of bases meets first. |
| StructInit.ReadPreserved | clang_delta/RemoveUnusedStructField.cpp:282-364 | Removing the field and the selected initialisers leaves the initial value at every other path as it was, for all nested types and all braced, possibly short, initialisers. |
| StructInit.TargetIff | clang_delta/RemoveUnusedStructField.cpp:303-363 | An initialiser is one of the field if and only if it stands, with the field's number, in a list for an object of the record, wherever in the variable that is. |
| RemoveUnusedStructField.CollectsTargets | clang_delta/RemoveUnusedStructField.cpp:282-364 | What is collected are exactly the initialisers of the field: those of every object of the record, however deeply nested. |
| RemoveUnusedStructField.CollectAscending | clang_delta/RemoveUnusedStructField.cpp:303-363 | They are collected once each, in the order of the source. |
| RemoveUnusedStructField.VecAscends | clang_delta/RemoveUnusedStructField.cpp:92-114 | Every index vector is strictly increasing and holds exactly the fields that lead to the removed one. |
| RemoveUnusedStructField.SkipToEntry | clang_delta/RemoveUnusedStructField.cpp:331-345 | Nothing is to be collected between two entries of an index vector, so the return on a short list misses nothing. |
| RemoveUnusedStructField.FieldRemovalKeepsValues | clang_delta/RemoveUnusedStructField.cpp:197-221 | Removing what is collected from a variable's initialiser keeps the value at every path beside the field. |
| RemoveUnusedStructField.RemoveUnusedStructField.constructor | clang_delta/RemoveUnusedStructField.cpp:157-177 | The base line: the tables lead from the record to the field and nowhere else. |
| RemoveUnusedStructField.RemoveUnusedStructField.VisitRecordDecl | clang_delta/RemoveUnusedStructField.cpp:92-114 | Whatever the order of the records, a visit leaves the tables as that order determines. |
| RemoveUnusedStructField.FoundRightIff | clang_delta/RemoveUnusedStructField.cpp:92-114 | The index vectors of the visited records are complete if and only if every record is visited after those in it that lead to the field. |
| RemoveUnusedStructField.LedFound | clang_delta/RemoveUnusedStructField.cpp:92-114 | The vector of one record is complete when the records inside it that lead to the field have been visited from the inside to the outside, whatever other records have been visited or not. |
| RemoveUnusedStructField.InsideFirstLed | clang_delta/RemoveUnusedStructField.cpp:92-114 | That is so for every record of an order in which each comes after those inside it. |
| RemoveUnusedStructField.OuterMetFirst | clang_delta/RemoveUnusedStructField.cpp:92-114 | Three records defined inside each other are visited from outside, and the outermost one gets no vector. |
| RemoveUnusedStructField.OuterKeepsAll | clang_delta/RemoveUnusedStructField.cpp:197-221 | The initialiser of a variable of that outermost record is left as it is. |
| RemoveUnusedStructField.ShownVec | clang_delta/RemoveUnusedStructField.cpp:92-114 | Whatever the order of the visits, the vectors found are complete for the records in which every field that is in no vector counts as a scalar. |
| RemoveUnusedStructField.TargetsShown | clang_delta/RemoveUnusedStructField.cpp:325-363 | The initialisers of the field in those records are the ones that vectors lead to at every record on the way. |
| RemoveUnusedStructField.LedFollowed | clang_delta/RemoveUnusedStructField.cpp:197-221 | When the records of a type have been visited from the inside to the outside, the vectors lead to every initialiser of the field. |
| RemoveUnusedStructField.MetBetween | clang_delta/RemoveUnusedStructField.cpp:92-125 | A variable declared between its record and a later record that holds that record: the latter has no vector yet, and the variable needs none. |
| RemoveUnusedStructField.RemoveUnusedStructField.HandleOneRecordDecl | clang_delta/RemoveUnusedStructField.cpp:179-195 | One field of a record type on the way is appended, with the vector of that type. |
| RemoveUnusedStructField.RemoveUnusedStructField.GetInitExprs | clang_delta/RemoveUnusedStructField.cpp:282-364 | In any state of the tables the recursion finds the vectors it needs and appends, to the positions it was given, exactly those that a walk of the whole initialiser collects from the records as the vectors show them. |
| RemoveUnusedStructField.RemoveUnusedStructField.GetFieldInitExprs | clang_delta/RemoveUnusedStructField.cpp:325-363 | The loop over an index vector, with its assertions and its early return, yields what such a walk of the whole list collects. |
| RemoveUnusedStructField.RemoveUnusedStructField.HandleOneVarDecl | clang_delta/RemoveUnusedStructField.cpp:197-221 | In any state exactly those initialisers of the field are removed to which a vector leads at every record on the way; when the records of the type have been visited from the inside to the outside, every path beside the field reads in the smaller records what it read before. |
| RemoveUnusedStructField.RemoveUnusedStructField.TraverseDecls | clang_delta/RemoveUnusedStructField.cpp:92-125 | Over a whole run of records and variables in the order of the text: a variable loses exactly the initialisers to which the vectors of the records met before it lead, and if these were visited from the inside to the outside it keeps all values beside the field, whatever is met after it. |
| Hoisting.ReplacedValue | clang_delta/BinOpSimplification.cpp:186-189 | With the temporary holding the operand's value, the shortened expression has the value of the whole. |
| Hoisting.HoistedRuns | clang_delta/BinOpSimplification.cpp:160-189 | The assignment followed by the shortened statement does what the current statement did, unless that is a loop that changes what the operand reads. |
| Hoisting.HoistingPreserves | clang_delta/BinOpSimplification.cpp:77-115 | In any nesting of blocks with declarations, branches and loops, hoisting preserves the result, the final store but for the temporary, and divergence, for every meaning of the operators - when the two statements of the hoist do what the current statement did, no operand reads the variable of its own declaration, and no variable is cut off by the braces from a later use. |
| HoistingScopes.HoistingResolvesIff | clang_delta/RewriteUtils.cpp:826-869 | Hoisting and the resolution of names commute, so that every name stands for the declaration it stood for, if and only if the operand does not read the variable of the declaration it is taken from, and it is not the case that braces are put around a declaration whose variable is used later in its block. |
| HoistingScopes.ResolveIff | clang_delta/RewriteUtils.cpp:826-869 | A statement resolves the same in two scopes if and only if all variables it uses from around it do. |
| Hoisting.LoopHoistedIff | clang_delta/BinOpSimplification.cpp:160-189 | For an operand in the head of a loop, every run of the hoisted loop ends like that of the loop, or goes on for ever like it, if and only if in every round the loop reaches its head is true exactly when it is with the operand's first value. |
| Hoisting.LoopCarriesIff | clang_delta/BinOpSimplification.cpp:160-189 | For a loop within a body the condition of HoistingPreserves holds if and only if, from every store, in every round the head is true exactly when it is with the first value of the operand. |
| BinOpSites.SitesAreValid | clang_delta/CommonStatementVisitor.h:60-89 | Every collected operand lies in an expression of the recorded statement, and braces are asked for wherever two statements would not fit. |
| BinOpSites.SitesDistinct | clang_delta/BinOpSimplification.cpp:77-99 | No operand is collected twice within one traversal of a body. |
| SiteLaws.FoundIff | clang_delta/BinOpSimplification.cpp:77-115 | In an expression that is traversed an operator is collected if and only if it lies beneath a side of an operator, with only parentheses, casts and operators in between, and that operator is the first that the traversal reaches: none met before it has stopped the traversal. |
| SiteLaws.SitesInOrder | clang_delta/CommonStatementVisitor.h:60-163 | The sites come in the order of the text, the condition of a loop before its body. |
| SiteLaws.SitesComplete | clang_delta/CommonStatementVisitor.h:60-163 | A list is that of the sites of a body if and only if it ascends in that order and holds, for all paths, exactly the sub-expressions that FoundIff describes in the head of the statement at a path, and the two sides of an update below its right-hand side; with braces asked for exactly when around the statement there is a branch or loop body without braces, since whose start no other such one has ended. There is one such list. |
| SiteLaws.HoistedIs | clang_delta/BinOpSimplification.cpp:160-189 | The first statement assigns the operand to the temporary, which stands at the place of the operand in the second; with the operand put back there that is the current statement. |
| SiteLaws.RewriteIs | clang_delta/RewriteUtils.cpp:826-869 | With braces the two statements take the place of the current one as a block, else they replace it in its list; every statement that lies elsewhere stays as it was. |
| BinOpSites.AssertionHoldsIff | clang_delta/BinOpSimplification.cpp:65-85 | Over a whole run the assertion in handleSubExpr holds if and only if no function defined inside another has an operand: both traversals would collect it. |
| BinOpSimplification.Visitor.HandleSubExpr | clang_delta/BinOpSimplification.cpp:77-99 | A side of an operator is collected, with the current statement, when it is an operator beneath parentheses and casts; the chosen instance is kept. |
| BinOpSimplification.Visitor.VisitBinaryOperator | clang_delta/BinOpSimplification.cpp:101-115 | The operands below an operator are appended, and the traversal is stopped. |
| BinOpSimplification.Visitor.TraverseStmt | clang_delta/CommonStatementVisitor.h:60-163 | The traversal with its fields CurrentStmt and NeedParen appends exactly the sites that SitesComplete describes, those in declarations, conditions and returns among them. |
| BinOpSimplification.Visitor.VisitCompoundStmt | clang_delta/CommonStatementVisitor.h:60-69 | The same for the statements of a block, each the current one in turn. |
| BinOpSimplification.Visitor.VisitIfStmt | clang_delta/CommonStatementVisitor.h:94-106 | The same for a condition and its branches. |
| BinOpSimplification.Visitor.VisitLoopStmt | clang_delta/CommonStatementVisitor.h:143-163 | The same for a loop and its body. |
| BinOpSimplification.Visitor.VisitNonCompoundStmt | clang_delta/CommonStatementVisitor.h:71-87 | A body without braces becomes the current statement and asks for braces. |
| BinOpSimplification.TmpNameFreshIff | clang_delta/BinOpSimplification.cpp:160-176 | There is a name if and only if every prefixed name has a number, else an assertion fails; and it is new if and only if not both the largest number is in use and 0 is, when the sum wraps. |
| BinOpSimplification.TmpNameIs | clang_delta/BinOpSimplification.cpp:160-176 | The name is "__trans_tmp_" and one more than the largest number in use behind that prefix, wrapped at 2^32; there is none if and only if some name with the prefix has no number. |
| BinOpSimplification.ReturnIsSearched | clang_delta/BinOpSimplification.cpp:77-115 | The product in `{ return a + b * c; }` is the one site of that body. |
| BinOpSimplification.Simplify | clang_delta/BinOpSimplification.cpp:134-158 | A run on a body fails exactly when it has fewer sites, as SitesComplete describes them, or a prefixed name has no number, and otherwise rewrites the site with the number of the counter as RewriteIs says; the body then behaves as before unless the operand is in the head of a loop that changes it, in a declaration of a variable it reads, or in one that the braces cut off; and its names keep their declarations exactly under the condition of HoistingResolvesIff. |
| BinOpSimplification.LoopHeadsMayBreak | clang_delta/BinOpSimplification.cpp:160-189 | A loop whose head is hoisted can run for ever where it ended before. |
| BinOpSimplification.DeclarationCutOff | clang_delta/CommonStatementVisitor.h:71-106 | Inside the block of an `else if` the brace flag is still set: a declaration with an operand gets braces of its own, and the use after it reads an outer variable. |
| CallInlining.NewParmRefMeans | clang_delta/ReplaceCallExpr.cpp:474-508 | What replaces a parameter has the parameter's type and the argument's converted value. |
| CallInlining.NewParmRefCastIff | clang_delta/ReplaceCallExpr.cpp:492-505 | It is a cast if and only if the canonical type of the parameter differs from the type of the argument; the cast is to the type as it is written, around the argument in parentheses. |
| CallInlining.InlinedMeans | clang_delta/ReplaceCallExpr.cpp:576-603 | Substitution lemma, for all calls: the inlined expression has the type of the return expression and the value that it has around the call, with each parameter bound to its converted argument. |
| CallInlining.InlinedResolvesIff | clang_delta/ReplaceCallExpr.cpp:165-206 | Every name of the inlined expression stands for what it stood for - those of the return expression as in the callee, those of the arguments as around the call - if and only if no name of the return expression is declared locally around the call. |
| CallInlining.LocalHidesGlobal | clang_delta/ReplaceCallExpr.cpp:165-206 | A local g around the call captures the global g of the return expression, and the value changes. |
| CallInlining.InlinedIsCallIff | clang_delta/ReplaceCallExpr.cpp:576-603 | Unless a hidden name has another value, the inlined expression has the value of the call if and only if that value is in the range of the return type, always so when that type holds every value of the expression's type. |
| CallInlining.ReturnTypeMattersIff | clang_delta/ReplaceCallExpr.cpp:576-603 | The condition on the types is exact: whatever the operations compute, all calls, taken by themselves, of a function that returns an operation or a parameter keep their values if and only if the return type holds every value of the expression's type. |
| CallInlining.ContextKeeps | clang_delta/ReplaceCallExpr.cpp:598-602 | Every expression around a call keeps its value when a tree with the same value and the same promoted type takes the place of the call; and its type, when it converts the call or the types are equal. |
| CallInlining.ArithmeticKeptIff | clang_delta/ReplaceCallExpr.cpp:598-602 | Whatever the operations compute, all calls keep their values and all arithmetic around them its types and values, if and only if the return type holds the expression's type and both are promoted to the same type. |
| CallInlining.AllContextsKeptIff | clang_delta/ReplaceCallExpr.cpp:598-602 | All expressions around calls, `sizeof` and member accesses among them, keep type and value if and only if the return expression has the return type. |
| CallInlining.ProductNarrowed | clang_delta/ReplaceCallExpr.cpp:598-602 | The product of two calls that return an int as a long is computed in int once both are inlined. |
| ReplaceCallExpr.SplicePrintsSubst | clang_delta/ReplaceCallExpr.cpp:551-574 | Replacing the references in the printed return expression gives the print of the tree with every parameter replaced. |
| ReplaceCallExpr.InsertParmRef | clang_delta/ReplaceCallExpr.cpp:510-531 | Insertion keeps the references sorted by offset and loses none. |
| ReplaceCallExpr.SortParmRefsByOffs | clang_delta/ReplaceCallExpr.cpp:533-549 | The references of the map come out sorted, whatever order it is walked in. |
| ReplaceCallExpr.SortedOneWay | clang_delta/ReplaceCallExpr.cpp:533-549 | There is only one such arrangement, so the walk of the map does not matter. |
| ReplaceCallExpr.ReplaceParmRefs | clang_delta/ReplaceCallExpr.cpp:551-574 | Editing from left to right with a running difference replaces all references at once, and never leaves the string. |
| ReplaceCallExpr.GetNewParmRefStr | clang_delta/ReplaceCallExpr.cpp:474-508 | The text for an argument is "(" + its string + ")", with the parameter's type in parentheses in front if and only if the canonical types differ; and it is the print of the tree that replaces the parameter. |
| ReplaceCallExpr.TextIsTreeIff | clang_delta/RewriteUtils.cpp:654-688 | The inlined text is that of the tree if and only if no comma expression with parameters stands on top; then the added parenthesis shifts the text under the offsets. |
| ReplaceCallExpr.CommaExample | clang_delta/RewriteUtils.cpp:654-688 | The text for `x, y` with the arguments a and b, every edit one character too far to the left. |
| ReplaceCallExpr.ReplaceCall | clang_delta/ReplaceCallExpr.cpp:576-603 | The text that takes the call's place, for any walk of the map and any number of unused parameters without argument: the parameters are replaced by their arguments in parentheses, each with a cast if and only if the canonical types differ; and exactly when it is the substituted tree's. |
| ExprReading.ReadBackIff | clang_delta/ReplaceCallExpr.cpp:598-602 | Read by precedence, the tokens of a tree give that tree back if and only if every part stands where the grammar allows it. |
| ExprReading.ReadOnce | clang_delta/ReplaceCallExpr.cpp:598-602 | Of all trees with the same tokens the text is read as the one that stands in the grammar, and there is but one, up to implicit casts. |
| ExprReading.SubstReadableIff | clang_delta/ReplaceCallExpr.cpp:492-505 | A substituted tree stays one of the grammar if and only if no parameter that gets a cast is subscripted or has a member accessed. |
| ExprReading.InlinedReadsBackIff | clang_delta/ReplaceCallExpr.cpp:576-603 | The inlined text is that of the substituted tree and is read as it, if and only if no comma expression with parameters stands on top and no parameter that gets a cast meets a postfix operator. |
| ExprReading.AgreeingTypesReadBack | clang_delta/ReplaceCallExpr.cpp:492-505 | When all canonical types agree no parameter meets a postfix operator as a cast: the text is that of the tree and is read as it, if and only if no comma expression with parameters stands on top. |
| ExprReading.PointerArgument | clang_delta/ReplaceCallExpr.cpp:492-505 | p[0] with a sum of the same pointer type as the argument becomes ((q + 1)[0]), with no cast. |
| ExprReading.CastBindsLast | clang_delta/ReplaceCallExpr.cpp:499-506 | For p[0] with an array as the argument the cast is read as one of the element. |
| RenameParam.ParamNameRead | clang_delta/RenameParam.cpp:178-198 | The suffix of a new name reads back as its number. |
| RenameParam.RecordedCovers | clang_delta/RenameParam.cpp:207-240 | Passing over the recorded number of a variable avoids the variable's name, in whatever way the number is written in it. |
| RenameParam.NumbersRise | clang_delta/RenameParam.cpp:99-118 | The numbers of the parameters strictly rise, are free, and stay below the number of parameters and recorded variables. |
| RenameParam.NewNamesFresh | clang_delta/RenameParam.cpp:92-120 | New names are pairwise different and clash with no recorded variable. |
| RenameParam.SecondRun | clang_delta/RenameParam.cpp:178-205 | With the same recorded numbers, new names are given again, and have the right form. |
| RenameParam.SecondRunIdle | clang_delta/RenameParam.cpp:148-205 | Over a whole program: after a run the recorded numbers are the same, all parameters have the names they would get, and HasValidParams is not set again. |
| RenameParam.ProgramPreservedIff | clang_delta/RenameParam.cpp:92-165 | Every function of the program means the same after the run if and only if every body is safe. |
| RenameParam.RenamedResolvesIff | clang_delta/RenameParam.cpp:92-138 | Resolving the names of the renamed text again gives the old meaning, if and only if no outside name is a new name and no renamed parameter is used after the map was cleared. |
| RenameParam.FunctionPreservedIff | clang_delta/RenameParam.cpp:92-138 | The same for a whole function whose locals have been recorded. |
| RenameParam.DeclarationPreservedIff | clang_delta/RenameParam.cpp:92-99 | What the map holds of other declarations makes no difference. |
| RenameParam.RecordedProgramsEvaluateTheSame | clang_delta/RenameParam.cpp:148-176 | Capture-free: a body that uses recorded variables only and declares no function with parameters evaluates as before. |
| RenameParam.FunctionNameCaptured | clang_delta/RenameParam.cpp:70-90 | A function called p1 is captured by the first parameter. |
| RenameParam.PrototypeClearsMap | clang_delta/RenameParam.cpp:92-99 | A prototype in a body makes a later use of an outer parameter name nothing. |
| RenameParam.RenameParam.AddGlobalVar | clang_delta/RenameParam.cpp:207-214 | A global variable's number is recorded, and its name avoided in every function. |
| RenameParam.RenameParam.AddLocalVar | clang_delta/RenameParam.cpp:216-240 | A local variable's number is recorded for its function, and for no other. |
| RenameParam.RenameParam.CollectLocals | clang_delta/RenameParam.cpp:70-90 | The collection adds exactly the numbers of the body's locals to those of its function, so that their names are avoided. |
| RenameParam.RenameParam.ValidateParam | clang_delta/RenameParam.cpp:200-205 | There is work when a used parameter has no name of the form that ParamLaws.PostfixIff describes. |
| RenameParam.RenameParam.ValidatePostfix | clang_delta/RenameParam.cpp:254-276 | The loop ends at the least number from the start in neither set; the iteration counter never runs out (pigeonhole). |
| RenameParam.RenameParam.VisitFunctionDecl | clang_delta/RenameParam.cpp:92-120 | The parameters of a declaration get the new names, the map is theirs alone, and a change is noted. |
| RenameParam.RenameParam.TraverseBody | clang_delta/RenameParam.cpp:92-138 | The renaming visitor yields the specified text, and leaves the map of the declaration visited last. |
| RenameParam.RenameParam.TraverseFunctionDecl | clang_delta/RenameParam.cpp:92-138 | A function whose locals were collected means the same afterwards if and only if its body is safe. |
| RenameParam.RenameParam.Collect | clang_delta/RenameParam.cpp:70-90 | Over a program, every function passes over exactly the numbers of the global variables and of its own locals, and HasValidParams is set exactly when a used parameter has a name of another form. |
| RenameParam.RenameParam.HandleTranslationUnit | clang_delta/RenameParam.cpp:148-176 | A run ends with an error exactly when there is nothing to rename or the counter exceeds 1, never for want of a change, and otherwise yields the renamed program. |
| ParamLaws.PostfixIff | clang_delta/RenameParam.cpp:178-198 | A name has a number if and only if it is "p" and digits with a value below 2^32, whatever follows them; for an empty name the number is whatever the variable for it held. |
| ParamLaws.TakenIff | clang_delta/RenameParam.cpp:207-240 | The numbers to avoid in a function are exactly those of the global variables and of the local variables of its own definition. |
| ParamLaws.NeedsRenamingIff | clang_delta/RenameParam.cpp:200-205 | There is something to rename if and only if some body uses a parameter whose name is not "p" and such a number. |
| ParamLaws.NamedInTurn | clang_delta/RenameParam.cpp:92-120 | Each named parameter is called "p" and the least number after that of the one before it that is not to be avoided; an unnamed one takes the next number and stays unnamed. |
| ParamLaws.UsesRenamed | clang_delta/RenameParam.cpp:122-138 | In a body without prototypes exactly the uses of the parameters in the map get new names, each its own parameter's. |
| ParamLaws.ProgramRenamed | clang_delta/RenameParam.cpp:92-138 | Over a program: globals stay, every declaration gets the new names, nothing in a body changes but names of uses, and those in a definition without prototypes are the new names of its parameters. |
| RenameFun.PassesIff | clang_delta/RenameFun.cpp:174-191 | The test passes exactly for the sets {1..n}, and for {0..n} with one gap from 2 to n-1. |
| RenameFun.ZeroMisleads | clang_delta/RenameFun.cpp:174-191 | It passes for {0, 1, 3}. |
| RenameFun.NamesDistinctIff | clang_delta/RenameFun.cpp:260-285 | Functions share a new name only if both are kept and shared it before, if and only if no kept function is called like one of the new names. |
| RenameFun.SecondRunIff | clang_delta/RenameFun.cpp:193-225 | A second run finds nothing to do if and only if every kernel has a name with a number and those numbers together with 1..k pass the test. |
| RenameFun.FixpointWithoutKernels | clang_delta/RenameFun.cpp:193-225 | Without kernels, a second run finds nothing to do. |
| RenameFun.RenamedTwice | clang_delta/RenameFun.cpp:260-285 | Renaming twice is renaming once, with or without kernels. |
| RenameFun.NamesKept | clang_delta/RenameFun.cpp:227-234 | A function that is called "main" or "printf" or is a kernel keeps its name. |
| RenameFun.NamesNumberedInTurn | clang_delta/RenameFun.cpp:260-285 | Any other is called "fn" and the printed number of its first visit, at which only functions that are renamed and were not met before count. |
| RenameFun.PostfixIff | clang_delta/RenameFun.cpp:236-258 | A name has a number if and only if it is "fn" and digits with a value below 2^32, whatever follows them. |
| RenameFun.NothingToDoIff | clang_delta/RenameFun.cpp:193-211 | There is nothing to do if and only if every name is main or printf or has a number, and these numbers pass the test. |
| RenameFun.RenameFun.AddFun | clang_delta/RenameFun.cpp:260-285 | A function gets the next number at its first visit only; those called main or printf and kernels keep their names and take none. |
| RenameFun.RenameFun.HasValidPostfixOf | clang_delta/RenameFun.cpp:236-258 | Whether a name has the form that PostfixIff describes, or is special, recording its number. |
| RenameFun.RenameFun.IsConsecutiveNumbersFromOne | clang_delta/RenameFun.cpp:174-191 | The method computes the test on the recorded numbers. |
| RenameFun.RenameFun.HandleTranslationUnit | clang_delta/RenameFun.cpp:198-225 | A run renames exactly when there is work: functions called main or printf and kernels keep their names in the program that it returns, and every other one is called "fn" and the number of its first visit. |
| RenameClass.FreeLetterIff | clang_delta/RenameClass.cpp:93 | There is a free letter if and only if fewer than 23 names are in use. |
| RenameClass.LettersAre | clang_delta/RenameClass.cpp:116-119 | The letters free to use are those of ABCDFGHIJKLMNOPQRSVWXYZ. |
| RenameClass.RecordedIff | clang_delta/RenameClass.cpp:189-208 | A class is recorded if and only if some visit shows it with a name and as no special record or specialisation; no visit has to show its definition. |
| RenameClass.NamesIff | clang_delta/RenameClass.cpp:181-186 | A letter is in use if and only if it is one of those and the name of a recorded class. |
| RenameClass.InstanceIff | clang_delta/RenameClass.cpp:144-153 | A class is to be renamed if and only if it is recorded, is not in an included file, and is not called by one of those letters. |
| RenameClass.DerivedAbove | clang_delta/RenameClass.cpp:189-256 | A class recorded after one of its bases is on a higher level. |
| RenameClass.RenamedState | clang_delta/RenameClass.cpp:166-187 | Renaming a class adds its letter to the names in use, takes it from the instances and leaves all levels. |
| RenameClass.RunPossible | clang_delta/RenameClass.cpp:121-135 | Under the bound, a run with instances finds an unused, unreserved letter. |
| RenameClass.TraceCounts | clang_delta/RenameClass.cpp:79-114 | Over repeated runs with counter 1, instances and used names keep their sum, and after the initial number of instances nothing is left. |
| RenameClass.TraceRises | clang_delta/RenameClass.cpp:121-155 | The letters strictly rise from run to run, no class is renamed twice, and levels do not fall. |
| RenameClass.BaseBeforeDerived | clang_delta/RenameClass.cpp:137-155 | A renamed base has an earlier letter than a renamed class that derives from it and was visited after it. |
| RenameClass.AlwaysBeforeIff | clang_delta/RenameClass.cpp:121-155 | Of two classes to rename, one gets the earlier letter in every series of runs if and only if it is on a lower level; within a level either can come first. |
| RenameClass.LevelIsHeight | clang_delta/RenameClass.cpp:189-256 | The level of a class is the height of the highest chain of classes that leads to it, each deriving from the one before and recorded after it. |
| RenameClass.BaseFirstIff | clang_delta/RenameClass.cpp:121-256 | In terms of visits: a class gets the earlier letter in every series of runs if and only if a chain to the other is higher than all chains to it. |
| RenameClass.RootBeforeOthers | clang_delta/RenameClass.cpp:213-225 | A class without bases gets an earlier letter than every class with some, even when it is visited later. |
| RenameClass.DerivedVisitedFirst | clang_delta/RenameClass.cpp:213-253 | Visited in the order D, A, M, B, where D derives from B, B from M and M from A, the class D gets an earlier letter than its base B in every series of runs. |
| RenameClass.RenameClass.AddOneRecordDecl | clang_delta/RenameClass.cpp:166-187 | A recorded class enters all tables. |
| RenameClass.RenameClass.AnalyzeOneRecordDecl | clang_delta/RenameClass.cpp:189-256 | One visit leaves the tables as the levels of the bases seen so far determine. |
| RenameClass.RenameClass.IncValidInstance | clang_delta/RenameClass.cpp:121-135 | The instance with the counter's number gets the least free letter. |
| RenameClass.RenameClass.DoAnalysis | clang_delta/RenameClass.cpp:137-155 | Instances are counted once each, by rising levels, in some order within a level. |
| RenameClass.RenameClass.HandleTranslationUnit | clang_delta/RenameClass.cpp:79-114 | A run ends with one of the two errors exactly when the bound or the counter is exceeded; otherwise all declarations of the class the counter picks, one that InstanceIff describes, get the first of the 23 letters that is no name yet, and nothing else changes. |
| ReduceArrayDim.InBoundsIff | clang_delta/ReduceArrayDim.cpp:318-356 | Every rewritten index lies in the new array if and only if n = 1 or n <= m. |
| ReduceArrayDim.OneToOneIff | clang_delta/ReduceArrayDim.cpp:318-356 | Different elements get different indices if and only if n = 1 or m <= n. |
| ReduceArrayDim.RunsAgreeIff | clang_delta/ReduceArrayDim.cpp:318-388 | After every sequence of writes to elements all elements read the same, if and only if n = 1 or m <= n. |
| ReduceArrayDim.RemoveStrips | clang_delta/ReduceArrayDim.cpp:198-240 | Taking the collected braces away from the last to the first flattens exactly the innermost lists. |
| ReduceArrayDim.StrippedNodes | clang_delta/ReduceArrayDim.cpp:198-240 | Above the last two dimensions every list keeps its place and its number of items; those at the second-last dimension have theirs spliced; values that stand there stay. |
| ReduceArrayDim.SplicedConcat | clang_delta/ReduceArrayDim.cpp:218-240 | Lists are spliced item by item (SplicedItem says how one is). |
| ReduceArrayDim.ReadsBackIff | clang_delta/ReduceArrayDim.cpp:218-300 | Every initialiser with full rows reads back the same through the new indices, if and only if n = 1 or n = m. |
| ReduceArrayDim.RowsReadBackIff | clang_delta/ReduceArrayDim.cpp:218-300 | For any numbers of values in at most n rows, all initialisers with such rows read back if and only if n = 1 or n = m and only the last row is short, or there is a single row of at most n values. |
| ReduceArrayDim.ElementsKept | clang_delta/ReduceArrayDim.cpp:218-300 | When the rows fit so, every element of every row keeps its value, in any number of outer dimensions. |
| ReduceArrayDim.ElementsKeptIff | clang_delta/ReduceArrayDim.cpp:218-300 | In any number of outer dimensions: all initialisers with the same braces keep all elements if and only if the rows fit. |
| ReduceArrayDim.ShortRowMoves | clang_delta/ReduceArrayDim.cpp:218-240 | The short row of {{1}, {2, 3}} moves the values behind it. |
| ReduceArrayDim.ReduceArrayDim.GetInitListExprs | clang_delta/ReduceArrayDim.cpp:198-216 | The recursion collects the innermost lists in order. |
| ReduceArrayDim.ReduceArrayDim.RewriteInitListExpr | clang_delta/ReduceArrayDim.cpp:218-240 | The loop from the last list to the first yields the flattened initialiser. |
| ReduceArrayDim.ReduceArrayDim.RewriteOneVarDecl | clang_delta/ReduceArrayDim.cpp:252-300 | The new sizes (the product of the last two, wrapped at 2^32, with sizes cut to UINT_MAX) and initialiser, the factor kept for the subscripts, and that all elements keep their values when the rows fit. |
| ReduceArrayDim.ReduceArrayDim.RewriteSubscriptExpr | clang_delta/ReduceArrayDim.cpp:318-356 | In each of its four forms the new index, as a tree, evaluates in every state to i*n+j modulo 2^32, and to i*n+j itself when literals it computes with fit an `int`; outer indices stay. |
| SubscriptReading.NewIndexReadsIff | clang_delta/ReduceArrayDim.cpp:343-354 | Each of the printed forms is read back as that tree if and only if the last index binds more tightly than a sum and, when there is one row, the other one at least as tightly. |
| SubscriptReading.MaskMoves | clang_delta/ReduceArrayDim.cpp:351-353 | The index of a[i][j & 1] is read with the mask around the whole sum. |
| ReduceArraySize.EntryIsLargest | clang_delta/ReduceArraySize.cpp:237-290 | An entry is -1 exactly when the size or some recorded index is not constant; otherwise it is the largest recorded index, at least 0. IndicesAre says which are recorded. |
| ReduceArraySize.IndicesAre | clang_delta/ReduceArraySize.cpp:237-264 | Recorded are exactly the indices of the subscripts behind a declaration of their variable that yield a scalar, a struct or a union. |
| ReduceArraySize.UseIsRecorded | clang_delta/ReduceArraySize.cpp:237-290 | For every such subscript the entry is -1 when the index is not constant; else it is -1 or at least the index. |
| ReduceArraySize.EntryHasReason | clang_delta/ReduceArraySize.cpp:269-290 | An entry is -1 only if the size or the index of such a subscript is not constant, and exceeds 0 only as the index of one. |
| ReduceArraySize.FirstSizesAre | clang_delta/ReduceArraySize.cpp:193-218 | The sizes are those of the first declaration of the variable. |
| ReduceArraySize.InstanceIff | clang_delta/ReduceArraySize.cpp:123-129 | A dimension whose size an `int` holds is an instance if and only if that size is not 0, the entry is not -1, and the two are not one apart. |
| ReduceArraySize.StructUseCounts | clang_delta/ReduceArraySize.cpp:239-242 | An array of ten structs whose element 7 has a member accessed is shrunk to eight. |
| ReduceArraySize.OrderIndependent | clang_delta/ReduceArraySize.cpp:237-290 | The entries do not depend on the order of the uses. |
| ReduceArraySize.LeastCoveringSize | clang_delta/ReduceArraySize.cpp:161-181 | A positive size covers all recorded uses if and only if it is at least the entry plus one. |
| ReduceArraySize.NewSizeCoversIff | clang_delta/ReduceArraySize.cpp:239-265 | The new size covers all uses, wherever they are met, if and only if neither a use before the declaration nor one that yields a row or an object of a class has an index that is not constant or exceeds the recorded ones. |
| ReduceArraySize.PassedOver | clang_delta/ReduceArraySize.cpp:239-242 | A subscript that yields a row or an object of a class leaves the analysis as it was, though it is a use. |
| ReduceArraySize.RowUseIsLost | clang_delta/ReduceArraySize.cpp:239-242 | An array of three rows whose row 2 is passed to a function shrinks to one row. |
| ReduceArraySize.EarlyUseIsLost | clang_delta/ReduceArraySize.cpp:260-265 | An array of nine elements whose element 7 is used before the declaration is met shrinks to one. |
| ReduceArraySize.SizeMayGrow | clang_delta/ReduceArraySize.cpp:125-128 | An index beyond the end makes the size grow. |
| ReduceArraySize.RunRemovesOne | clang_delta/ReduceArraySize.cpp:106-181 | A rewrite removes its own instance and no other, adds none, and leaves all entries. |
| ReduceArraySize.RunLowersCount | clang_delta/ReduceArraySize.cpp:106-181 | Each rewrite lowers the number of instances by exactly one. |
| ReduceArraySize.RunsEnd | clang_delta/ReduceArraySize.cpp:83-104 | Every series of runs, with any counters, ends after the initial number of instances. |
| ReduceArraySize.ReduceArraySize.HandleOneVar | clang_delta/ReduceArraySize.cpp:183-219 | The first declaration of a variable sets its entries, later ones change nothing. |
| ReduceArraySize.ReduceArraySize.HandleOneASE | clang_delta/ReduceArraySize.cpp:237-290 | A subscript that yields a row or an object of a class changes nothing; one that yields a scalar, a struct or a union updates the entries of its variable, outermost dimension first, and its assertion fails exactly when it has more indices than there are dimensions. |
| ReduceArraySize.UsesFitIff | clang_delta/ReduceArraySize.cpp:268-269 | The assertion holds throughout exactly when no use met after a declaration of its variable has more indices than dimensions. |
| ReduceArraySize.PointerArraysDoNotFit | clang_delta/Transformation.cpp:472-483 | An array of pointers subscripted once more than it has dimensions makes it fail. |
| ReduceArraySize.ReduceArraySize.DoAnalysis | clang_delta/ReduceArraySize.cpp:106-138 | The instances are counted in the order of the map, and the one with the counter's number is kept. |
| ReduceArraySize.ReduceArraySize.HandleTranslationUnit | clang_delta/ReduceArraySize.cpp:83-104 | A run stops exactly when the assertion fails, reports an error exactly when the counter exceeds the instances, and otherwise gives every declaration of the chosen variable the new size and changes nothing else; the new size exceeds every index of the subscripts behind a declaration that yield a scalar, a struct or a union. |
| HintFormat.DecodeEncodeIff | clang_delta/HintsBuilder.cpp:69-90 | The reader of the written hints recovers vocabulary and hints exactly, if and only if no string holds the null character. |
| HintFormat.EncodeExample | clang_delta/HintsBuilder.cpp:69-90 | The text for one hint with a replacement and a deletion, character by character. |
| HintFormat.Decode | cvise/passes/clanghints.py:184-208 | The reader; blank output is an empty bundle, and no string it returns holds the null character. |
| HintsBuilder.HintsBuilder.LookupOrCreateVocabId | clang_delta/HintsBuilder.cpp:103-112 | The number returned stands for the string; the vocabulary only grows, and never holds a string twice. |
| HintsBuilder.HintsBuilder.AddPatch | clang_delta/HintsBuilder.cpp:27-49 | A replacement is added to the current hint and resolves to its text; lengths that are not positive are ignored, finished hints keep their meaning. |
| HintsBuilder.HintsBuilder.AddInsertion | clang_delta/HintsBuilder.cpp:51-61 | The same for an insertion; an empty one is ignored. |
| HintsBuilder.HintsBuilder.FinishCurrentHint | clang_delta/HintsBuilder.cpp:92-101 | The end of a scope finishes a hint that is not empty, and only such. |
| HintsBuilder.HintsBuilder.ReverseOrder | clang_delta/HintsBuilder.cpp:67 | The finished hints are reversed. |
| HintsBuilder.HintsBuilder.Output | clang_delta/HintsBuilder.cpp:69-90 | The text written is read back as the finished edits when no string holds the null character. |
| HintsBuilder.GrownAllEdits | clang_delta/HintsBuilder.h:66-73 | Numbers keep their strings when the vocabulary grows. |
| TextRewriter.RenderSplit | clang_delta/RewriteUtils.cpp:1576-1591 | Rendering with the outermost ranges replaced splits at every position inside no range. |
| TextRewriter.RenderApart | clang_delta/RewriteUtils.cpp:1576-1591 | Two ranges behind each other: both are replaced, and the text around them stays. |
| TextRewriter.RenderInside | clang_delta/RewriteUtils.cpp:1576-1591 | A range inside another: only the outer one is replaced. |
| TextRewriter.FirstSize | clang_delta/RewriteUtils.cpp:1576-1591 | Before its own edit a range is where it was, and its size is that of what the edits inside it made of it. |
| TextRewriter.ReplaceFirst | clang_delta/RewriteUtils.cpp:1576-1591 | The edit takes out exactly that part of the buffer, and the position map stays right outside all ranges. |
| TextRewriter.Rewriter.ReplaceText | clang_delta/RewriteUtils.cpp:1576-1591 | After the edit the buffer shows all ranges replaced, nested ones inside outer ones gone. |
| FunctionRewriting.HintsRender | cvise/utils/hint.py:562-597 | Merging and applying the hints of nested or disjoint ranges, in whatever order they come, replaces exactly the outermost ones. |
| FunctionRewriting.MergedIsOutermost | cvise/utils/hint.py:562-597 | Merging overlapping patches leaves the outermost ranges. |
| FunctionRewriting.FirstToLastIff | clang_delta/ReplaceFunctionDefWithDecl.cpp:318-323 | With an earlier range replaced first, a later one is sought behind the new text if and only if it does not lie inside, and can be sought in front of the buffer. |
| FunctionRewriting.NullFunctionIff | clang_delta/Transformation.cpp:180-209 | Exactly when the assertion that there is a function fails. |
| FunctionRewriting.SelectedAre | clang_delta/Transformation.cpp:180-209 | With the definitions numbered from 1: an error if and only if a counter exceeds their number and neither warnings nor all definitions were asked for; a single counter selects the definition with that number, a range those with numbers in it, where numbers beyond the last are cut to the last. |
| FunctionRewriting.KeptAre | clang_delta/ReplaceFunctionDefWithDecl.cpp:337-351 | Numbered are exactly the definitions that are not preserved, in their order. |
| FunctionRewriting.FunctionRewriting.AddOneFunctionDef | clang_delta/ReplaceFunctionDefWithDecl.cpp:337-351 | What is collected for a range of counters, and for a single one. |
| FunctionRewriting.FunctionRewriting.CheckCounterValidity | clang_delta/Transformation.cpp:180-209 | When counters are valid, and to what they are cut. |
| FunctionRewriting.FunctionRewriting.RewriteOneFunctionDef | clang_delta/ReplaceFunctionDefWithDecl.cpp:248-260 | One edit and one hint with the range of the original text. |
| FunctionRewriting.FunctionRewriting.RewriteDownwards | clang_delta/ReplaceFunctionDefWithDecl.cpp:324-329 | From last to first, every edit finds its range, and the buffer shows the selected ranges. |
| FunctionRewriting.FunctionRewriting.DoRewriting | clang_delta/RemoveUnusedFunction.cpp:320-353 | Only the outermost selected ranges are replaced, and there is one hint for each selected range, in ascending order. |
| FunctionRewriting.FunctionRewriting.HandleTranslationUnit | clang_delta/ReplaceFunctionDefWithDecl.cpp:69-86 | The outcome for every pair of counters; the rewritten text is the one that the hints give when applied. |

## Left out

- Clang itself: parsing, source locations, macros, the lexer. Programs are given as trees, class tables, visits in order, or text with ranges.
- Instances of templates, special member templates and dependent expressions in RenameCXXMethod.cpp, and classes in included files.
- RenameCXXMethod.Renamer.HandleOneCXXRecordDecl: the counts in NumMemberFunctions are kept as the set of classes that have one, because the numbers themselves are never used for a name.
- RenameCXXMethod.Renamer.AddOneInheritedName: the lookup through the pattern of a member of a class template is not modelled.
- StructInit.ReadPreserved: unions, designated initialisers and initialisers with elided braces are not modelled, nor the commas removed with an initialiser; a string or expression that initialises a whole aggregate is an opaque value.
- RemoveUnusedStructField.RemoveUnusedStructField.VisitRecordDecl: one declaration of each record; what repeated declarations of a record append is not modelled.
- Hoisting.HoistingPreserves: expressions are pure and total, so short-circuit evaluation, traps and side effects are not captured; labels, `for`, `switch` and `try` statements, types and arrays declared in a block, and several variables in one declaration are not in the language. A variable without a value, as in its own initialiser, reads as 0.
- BinOpSimplification.Simplify: one function body; the declaration line of the temporary is not part of the statement list.
- BinOpSites.AssertionHoldsIff: where the operands of a function inside come among the others, and which statement is current after it, are left open.
- CallInlining.InlinedMeans: return expressions without side effects, on integers, addresses and codes of records; floating point, string constants, `offsetof`, `?:` without a middle operand and the address of a parameter are not in the language.
- CallInlining.InlinedResolvesIff: names of variables only; a type declared locally around the call that is called like one the return expression or a parameter mentions is not modelled.
- CallInlining.ArithmeticKeptIff: contexts are expressions of the same language; assignments and initialisations convert to their own type and see the value only.
- CallInlining.InlinedIsCallIff: for a single call the condition is that the value is one of the return type; an exact condition on types alone needs all meanings of the operations, as in ReturnTypeMattersIff, and is not stated for constants, casts and conditional expressions on top, there and in ArithmeticKeptIff.
- ReplaceCallExpr.ReplaceCall: the text of an expression is its canonical print; names from macro expansions are not modelled.
- ExprReading.InlinedReadsBackIff: reads tokens; how characters are grouped into tokens is not modelled, nor assignments, which the inlined expressions do not have.
- RenameParam.RenameParam.VisitFunctionDecl: the number of parameters and recorded variables together stays below the range of `unsigned int`.
- RenameParam.RenamedResolvesIff: bodies are expressions, local declarations and prototypes; a prototype's own parameters are in scope nowhere else. A program with nested classes or lambdas is not modelled.
- RenameParam.RenameParam.HandleTranslationUnit: a program is global variables and function declarations in order; initialisers of globals and declarations in included files are not modelled.
- MethodRenaming.RenamedWellFormed: data members are not in the class table, so one called m_fn1 that meets a new method name is not excluded.
- MethodRenaming.ResolutionPreserved: for the same reason, data members, and variables and functions outside of classes, that are called like a new name can hide a method or be hidden.
- MethodRenaming.DispatchPreservedIff: bases are not virtual; with a virtual base the overrider can lie on another inheritance path.
- RenameFun.NamesDistinctIff: only functions; a variable, type or enumerator called fn1 that captures or meets a renamed function is not modelled.
- Hoisting.LoopHoistedIff: about the runs of a loop; on the text alone only a sufficient condition (HoistedRuns) is stated, since which rounds a loop reaches is not decided by its text.
- RenameFun.RenameFun.HandleTranslationUnit: template instantiations, and calls to functions that are never visited, are not modelled; fewer visits than numbers.
- RenameClass.RenameClass.HandleTranslationUnit: a C++ program; for C and OpenCL the pass has no instances. The order of a set of pointers is left open.
- ReduceArrayDim.ReduceArrayDim.RewriteOneVarDecl: incomplete outer arrays; empty rows and trailing commas, whose separators the text keeps.
- ReduceArrayDim.RunsAgreeIff: a whole row a[i] that is passed on is not rewritten and means something else once the array is flattened; such uses are not among the runs.
- ReduceArrayDim.ReduceArrayDim.RewriteSubscriptExpr: builds trees, whose text SubscriptReading is about; arrays of pointers subscripted once more than they have dimensions are not modelled.
- ReduceArraySize.RunLowersCount: no entry is the largest `int`; adding one to it is undefined.
- ReduceArraySize.ReduceArraySize.HandleTranslationUnit: no entry is the largest `int`, as there.
- HintFormat.Decode: numbers without sign, white space or underscores, and hints in the form in which they are written; JSON in general is not modelled.
- FunctionRewriting.FunctionRewriting.RewriteOneFunctionDef: one range in one hint; the `inline` keyword, constructor initialisers, redeclarations and `using` declarations are not modelled.
- TextRewriter.Rewriter.ReplaceText: nested ranges end before the last character of the outer one, as function bodies in braces do.
- ExpressionDetector.cpp, and passes that change the meaning on purpose.
