# remove-undefined, modelled in Dafny

This project models `babel-plugin-transform-remove-undefined`, a minifier pass.
The pass removes explicit occurrences of `undefined` that change nothing:

- a pure expression that evaluates to `undefined` and is not the last one of a sequence expression;
- the last one too, when the sequence's value is discarded because the sequence is an expression statement;
- a `return` argument that evaluates to `undefined`;
- the initialiser of a `let` declarator that evaluates to `undefined`;
- the initialiser of a `var` declarator that evaluates to `undefined`, when no reassignment of the variable can be seen before the declaration runs.

The model has these parts, one module each:

- `Ast`: the syntax tree as an arena, a `seq<Node>` indexed by node id. Every parent comes before its children. The host's scope tables are read-only data: a binding table, and a map from (scope, name) to binding. `FindParent` is Babel's `path.findParent`. The `Target` datatype names the callbacks the plugin passes to it (`AnyFunction`, `LoopOrStop`), plus `AnyProgram`, which stands for Babel's `getProgramParent` at `index.js:66`.
- `Classifier`: `isPureAndUndefined`. The host's purity test and constant evaluator are uninterpreted functions in a `Host` value.
- `Walks`: `getLoopParent` and `getFunctionParent`. Also the chains of loops and functions that the `for` loops walk by calling them repeatedly, and the scope parent `hasViolation` computes.
- `References`: `getFunctionReferences`, as a method that threads the visited set through the recursion. It is specified by `FunctionReferences`: the least set holding the seeds that is closed under "add the enclosing references of each member".
- `Violation`: `hasViolation`, as a method specified by the predicate `Violates`.
- `Visitors`: the three visitors, as methods of the class `Tree`, which holds the arena and updates it in place. Each visitor is specified by a function giving the tree it leaves (`AfterSequenceVisit`, `AfterReturnVisit`, `AfterDeclarationVisit`). The plugin's promises about each visit are proved as lemmas about that function.
- `Subsequences`: `Filter` and the in-place view `Pending` of a list being filtered front to back.

Frame lemmas (`Skeleton`, `SameStructure`, the `...Frame` lemmas) show that `hasViolation` and the ancestor walks never read the slots the visitors rewrite. So their verdict on the tree as it stands mid-visit equals their verdict on the tree before the visit. For the classifier the same holds only by assumption: the host's purity test and evaluator see a node id, not the live tree (see "## Left out").

A reassignment site that has no node is skipped: it never makes `hasViolation` true (`index.js:68-72`, which links minify issue 630). A conservative analysis might be expected to treat such a site as unsafe instead. The model follows the code; `Violation.NodelessViolationsAreSkipped` states the consequence.

The `let` and `var` branches of the declaration visitor pass no scope to `isPureAndUndefined`. So in a declaration the identifier `undefined` is accepted even where a local binding shadows it. The model follows the code, and `Visitors.LetIgnoresShadowedUndefined` states this.

## Model

| member | source | states |
|---|---|---|
| Classifier.IsPureAndUndefined | packages/babel-plugin-transform-remove-undefined/src/index.js:5-22 | The identifier `undefined` is accepted iff no local binding of that name is visible from the given scope. Any other expression is rejected when impure; a pure one is accepted iff the evaluator folds it to `undefined` with confidence. |
| Classifier.DefaultScopeNeverShadows | packages/babel-plugin-transform-remove-undefined/src/index.js:7-14 | With the default scope (no `scope` option), the identifier `undefined` is always accepted. |
| Classifier.ClassifierFrame | packages/babel-plugin-transform-remove-undefined/src/index.js:9-21 | The verdict depends on the tree only through whether the node is the identifier `undefined`. |
| Ast.FindParentIsFirstMatch | packages/babel-plugin-transform-remove-undefined/src/index.js:25 | `findParent` returns the first strict ancestor, nearest first, that the callback accepts. It returns nothing exactly when no ancestor is accepted. |
| Ast.ProgramParent | packages/babel-plugin-transform-remove-undefined/src/index.js:66 | `getProgramParent` yields the path itself when it is a program, otherwise the nearest strict ancestor that is a program. It yields nothing exactly when neither the path nor any ancestor is a program. |
| Walks.LoopParent | packages/babel-plugin-transform-remove-undefined/src/index.js:24-28 | The result is a strict ancestor that is a loop, and never the scope parent; `LoopChainIsLoopsBelowScope` pins which one. |
| Walks.FunctionParent | packages/babel-plugin-transform-remove-undefined/src/index.js:30-34 | The result is a strict ancestor that is a function, and never the scope parent; `FunctionChainIsFunctionsBelowScope` pins which one. |
| Walks.ScopeParent | packages/babel-plugin-transform-remove-undefined/src/index.js:65-66 | The scope parent is the nearest function ancestor of the declarator (the first one `findParent` meets). Only when there is no function ancestor is it the program parent. |
| Walks.LoopChainIsLoopsBelowScope | packages/babel-plugin-transform-remove-undefined/src/index.js:87-91 | The loop walk visits exactly the loop ancestors of the declarator strictly below the scope parent, nearest first. |
| Walks.FunctionChainIsFunctionsBelowScope | packages/babel-plugin-transform-remove-undefined/src/index.js:37-41 | The function walk visits the function ancestors nearest first, stopping before the scope parent when it meets it. |
| References.FunctionBindingReferences | packages/babel-plugin-transform-remove-undefined/src/index.js:42-49 | A function whose name resolves to a binding yields exactly that binding's reference paths, all in the tree. There are none for a node that is not a function, or when the function's name resolves to no binding. |
| References.GetFunctionReferences | packages/babel-plugin-transform-remove-undefined/src/index.js:36-57 | Started with an empty visited set, the result is exactly the least closed set holding the references found by the walk. Started from any visited set, it keeps that set and lies inside every closed set holding it and the walk's references. |
| References.CollectFromFunction | packages/babel-plugin-transform-remove-undefined/src/index.js:42-54 | One turn of the function walk puts every reference path of the function's binding in the collected set. It keeps the set closed above the start and least, and the rest of the walk still covers every seed not yet collected. |
| References.AddReferencePaths | packages/babel-plugin-transform-remove-undefined/src/index.js:49-54 | The `forEach` callback leaves every given reference path in the result, and keeps the result closed and least. |
| References.CollectFromPath | packages/babel-plugin-transform-remove-undefined/src/index.js:50-53 | The path ends up in the set, which stays closed above the start and least. A path already visited leaves the set unchanged. |
| References.LeastClosedIsFunctionReferences | packages/babel-plugin-transform-remove-undefined/src/index.js:36-57 | A closed set that holds the walk's references and lies inside every other such set is the collected set. |
| Violation.IsUnsafeViolation | packages/babel-plugin-transform-remove-undefined/src/index.js:73-95 | A reassignment site is unsafe iff any of these holds: it has no start offset, or starts before the declaration; some collected reference has no start offset, or starts before the declaration; some loop enclosing the declarator (not the reassignment site) strictly below the scope parent has no end offset, or ends after the site starts. |
| Violation.AnyStartsBefore | packages/babel-plugin-transform-remove-undefined/src/index.js:81-85 | Returns true iff some reference has no start offset or starts before `start`. |
| Violation.AnyLoopEndsAfter | packages/babel-plugin-transform-remove-undefined/src/index.js:87-95 | Returns true iff some loop of the declarator's loop walk has no end offset or ends after the reassignment starts. |
| Violation.HasViolation | packages/babel-plugin-transform-remove-undefined/src/index.js:59-99 | An unresolved binding is a violation. Otherwise there is a violation iff some reassignment site with a node is unsafe. |
| Violation.UnresolvedBindingViolates | packages/babel-plugin-transform-remove-undefined/src/index.js:60-63 | A declarator whose name does not resolve is always violated. |
| Violation.NodelessViolationsAreSkipped | packages/babel-plugin-transform-remove-undefined/src/index.js:68-72 | A binding none of whose reassignment sites has a node is never violated. |
| Violation.ViolatesFrame | packages/babel-plugin-transform-remove-undefined/src/index.js:59-99 | The verdict is the same on two trees that differ only in the slots the visitors rewrite. |
| Visitors.Removals | packages/babel-plugin-transform-remove-undefined/src/index.js:108-120 | Every accepted expression but the last is removed. The last is removed iff it is accepted and the parent is an expression statement. |
| Visitors.SequenceVisitKeepsExactly | packages/babel-plugin-transform-remove-undefined/src/index.js:105-121 | The kept expressions are an order-preserving subsequence of the original list. A non-final expression survives iff it is rejected. The final one survives iff it is not both accepted and in an expression statement. |
| Visitors.RemovalsSettle | packages/babel-plugin-transform-remove-undefined/src/index.js:108-120 | No survivor of a pass is one a second pass would remove. |
| Visitors.SequenceVisitIdempotent | packages/babel-plugin-transform-remove-undefined/src/index.js:105-121 | Visiting the sequence again leaves the tree as the first visit left it. |
| Visitors.Tree.RemoveExpression | packages/babel-plugin-transform-remove-undefined/src/index.js:115-118 | `expr.remove()` deletes the expression at its current position and changes nothing else. |
| Visitors.Tree.RemovesExpression | packages/babel-plugin-transform-remove-undefined/src/index.js:109-119 | The test on the live tree, after earlier removals, gives the decision the rule takes on the original tree. |
| Visitors.Tree.VisitSequenceElement | packages/babel-plugin-transform-remove-undefined/src/index.js:109-119 | One pass of the loop removes the element at its current position iff the rule says so, and counts the removal. |
| Visitors.Tree.VisitSequenceExpression | packages/babel-plugin-transform-remove-undefined/src/index.js:105-121 | The in-place loop leaves the tree `AfterSequenceVisit` gives, and keeps it well formed. |
| Visitors.ReturnArgumentAfterVisit | packages/babel-plugin-transform-remove-undefined/src/index.js:123-134 | The argument is removed iff there was one and it is accepted. Otherwise it is left unchanged. |
| Visitors.ReturnVisitIdempotent | packages/babel-plugin-transform-remove-undefined/src/index.js:123-134 | Visiting the return statement again changes nothing. |
| Visitors.Tree.VisitReturnStatement | packages/babel-plugin-transform-remove-undefined/src/index.js:123-134 | The visit leaves the tree `AfterReturnVisit` gives: only that return's argument can change. |
| Visitors.DecideDeclarator | packages/babel-plugin-transform-remove-undefined/src/index.js:137-161 | The per-declarator decision is `ClearsInit`: never for `const` or `var` without a start offset; for `let`, accepted with the `tdz` option only; for `var`, accepted with no options and no violation. |
| Visitors.AfterDeclarationVisitAt | packages/babel-plugin-transform-remove-undefined/src/index.js:136-163 | Node by node, exactly the listed declarators whose rule says so lose their initialiser. |
| Visitors.DeclarationVisitFrame | packages/babel-plugin-transform-remove-undefined/src/index.js:136-163 | `const` declarations, and `var` declarations without a start offset, are untouched. Nodes not listed are unchanged. A listed declarator is unchanged or has only its initialiser cleared. |
| Visitors.DeclarationVisitClears | packages/babel-plugin-transform-remove-undefined/src/index.js:140-161 | A `let` initialiser is cleared iff it is accepted. A `var` initialiser in a declaration with a start offset is cleared iff it is accepted and `hasViolation` is false. |
| Visitors.LetIgnoresShadowedUndefined | packages/babel-plugin-transform-remove-undefined/src/index.js:140-145 | A `let` initialiser that is the identifier `undefined` is cleared even where `undefined` is locally bound. |
| Visitors.DeclarationVisitIdempotent | packages/babel-plugin-transform-remove-undefined/src/index.js:136-163 | Visiting the declaration again changes nothing. |
| Visitors.Tree.ClearInit | packages/babel-plugin-transform-remove-undefined/src/index.js:143 | `declarator.node.init = null` clears that initialiser and changes nothing else. |
| Visitors.Tree.VisitDeclarator | packages/babel-plugin-transform-remove-undefined/src/index.js:154-160 | One pass of the loop clears the declarator's initialiser iff its rule says so, and changes nothing else. |
| Visitors.Tree.VisitVariableDeclaration | packages/babel-plugin-transform-remove-undefined/src/index.js:136-164 | The visit leaves the tree `AfterDeclarationVisit` gives, and keeps it well formed. |

## Left out

- The purity test and the constant evaluator (`path.isPure()`, `babel-helper-evaluate-path`) are host code outside this repository. They are uninterpreted functions of the node id; only the evaluator's `confident` flag and whether its value is `undefined` are modelled.
- Scope construction and `hasBinding`/`getBinding` are given as one read-only table from (scope, name) to binding. A visible name is one the table maps, which is what `hasBinding(name, true)` means. The table is not updated when a removal deletes a reference.
- Babel's removal hooks are not modelled. For example, a sequence left with one expression is not replaced by that expression. `expr.remove()` only deletes the element from its parent's list.
- Plugin registration and option plumbing (`module.exports`, lines 101-104) are not modelled. The `tdz` option is a parameter of each visitor; `None` stands for an absent `tdz`.
- Traversal order is not modelled: each visitor is one call on one node, and the whole-program pass is left out.
- Violation.AnyStartsBefore: the iteration order of the JavaScript `Set` of references (`index.js:81`) is not modelled; the scan picks members in any order. The verdict does not depend on the order, since it only asks whether some member starts too early. The `forEach` over a binding's reference paths is modelled in array order (`References.AddReferencePaths`).
- Visitors.DecideDeclarator: a declarator without an initialiser is classified directly as not removable. Babel would call `isPure` on an empty path; the result is the same either way.
- Visitors.AfterDeclarationVisit and Visitors.DeclarationStep: the host's purity and evaluation verdicts are assumed not to depend on the initialisers the visitor clears. Babel's evaluator is given the live path, after the initialisers of earlier declarators of the same declaration may already be cleared. An evaluator that resolves an identifier through its binding's initialiser can then answer differently mid-visit (in `let a = undefined, b = a;`, clearing `a` may stop `b = a` from folding). The model takes every verdict on the tree before the visit, because `Host` is keyed by node id. `Classifier.ClassifierFrame` holds by that construction, not by an argument about Babel's evaluator.
- Visitors.SequenceVisitIdempotent, Visitors.ReturnVisitIdempotent and Visitors.DeclarationVisitIdempotent: they rest on the same assumption, that the host gives the same verdicts on the second pass.
- Ast.WellFormed: the arena requires every parent index to be smaller than its child's. This stands for the acyclic parent chain of a real tree.
