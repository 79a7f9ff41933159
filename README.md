# require-await-for-promise, modelled in Dafny

This project models the ESLint rule `require-await-for-promise`. The rule
flags calls whose return type is a Promise when nothing handles them. A call
counts as handled when it is awaited, has `.then`, `.catch` or `.finally`
attached, is passed to one of the `Promise` combinators, or is returned
directly. The model covers `create(context)`: the four walks it defines and
the two visitors it returns.

- `EsTree` (`estree.dfy`): the parent-linked syntax tree as an arena.
  - A tree is a `seq<Node>` and every link is an index.
  - `WellFormed` asks that parents precede their children. This makes the
    parent relation acyclic and gives the ancestor walk its termination
    measure.
- `TypeOracle` (`type_oracle.dfy`): the TypeScript type service as one map.
  - The map goes from a call node to the rendered text of its return type.
  - A call that has no TypeScript node or no resolved signature is absent
    from the map.
  - Also holds the two prefix tests, `Promise<` and `Promise`.
- `AggregatorArgument` (`aggregator_argument.dfy`): `isPromiseAggregatorArgument`.
  - A method with the source's `while` loop.
  - Proved equal to "some strict ancestor is a `Promise.<aggregator>(…)` call".
- `HandledChain` (`handled_chain.dfy`): `isHandledPromiseChain`.
  - A method with the source's bounded loop.
  - Proved equal to "one of the first 30 nodes of the walk is a handler". The
    walk is defined step by step by `Next` and `Trail`.
- `LogicalReturn` (`logical_return.dfy`): `checkLogicalReturnPromise` and
  `findUnawaitedPromiseCallsInLogical`.
  - `checkLogicalReturnPromise` is a predicate.
  - The recursive `check` closure, with its captured `found` flag, is the
    class `LogicalScan`.
- `RequireAwaitForPromise` (`require_await_for_promise.dfy`): the listener.
  - The class `Listener` holds the report list that `context.report` appends
    to.
  - It has one method per visitor, plus `Lint`, which feeds a traversal order
    to the visitors.
  - The ghost predicate `Reported` and the ghost function `Diagnostics` state,
    node by node, what a traversal must report.
- `Fixtures` (`fixtures.dfy`): the sample program at the end of the rule's
  source file as trees, with the exact reports each one draws. Three more
  programs exercise the plain report (`f();`), case-sensitive matching of
  the combinator names (`Promise.All`) and `.finally`.
- `StepBudget` (`step_budget.dfy`): a family of programs that shows where the
  30-step budget cuts off.

Behaviour worth knowing, all of it proved below:

- The call visitor reports an unhandled bare-identifier call even when it sits
  inside a returned logical expression. So
  `return f() || f() || f()` draws four reports: one on the outer logical
  expression and one on each call. `return await f() || f()` draws two.
- The handler walk enters the callee of a method call. On a member access that
  is not a handler it moves to the object. When that object is an identifier,
  as in `Promise.All`, the walk climbs straight back to the same member access
  (`Fixtures.MemberObjectBounce`). On `Promise.All([f()])` (wrong case) it
  bounces like this until the budget is spent, and then reports the inner
  call.
- Running out of the 30 steps means "not handled". The walk starts at the
  call's parent, so a `.then` that the walk reaches only on its 31st visit or
  later is never seen. `StepBudget.CastChainVerdict` proves this for
  `(f() as T … as T).then(cb);`: the inner call is reported although it is
  handled exactly when there are 30 or more casts, i.e. when the `.then` is 31
  or more parent links up.

## Model

| member | source | states |
|---|---|---|
| TypeOracle.RendersPromiseOf | lib/rules/require-await-for-promise.js:143-149 | the `Promise<` test of the direct check and the call visitor (also lines 195-204): a call with no TypeScript node or no resolved signature never passes, and every call that passes also passes the looser `Promise` test |
| TypeOracle.RendersPromise | lib/rules/require-await-for-promise.js:170-177 | the `Promise` test of `check`: a call with no TypeScript node or no resolved signature never passes; otherwise it passes iff the rendering's first seven characters are `Promise` |
| AggregatorArgument.IsAggregatorCall | lib/rules/require-await-for-promise.js:42-47 | the test of lines 42-47 and 55-60 with the list of lines 3-10: an accepted call's callee is a member access whose object is the identifier `Promise` and whose property is exactly one of `all`, `race`, `allSettled`, `any`, `resolve`, `reject` |
| HandledChain.IsHandler | lib/rules/require-await-for-promise.js:95-103 | holds of every `await`, of a member access iff its property's name is `then`, `catch` or `finally`, and of no other node; a handler is never a node at which the walk stops |
| LogicalReturn.IsUnawaitedPromiseCall | lib/rules/require-await-for-promise.js:137-150 | a call not directly under `await` whose rendering starts with `Promise<`; every such call also passes `check`'s looser test |
| LogicalReturn.CheckLogicalReturnPromise | lib/rules/require-await-for-promise.js:127-159 | holds only of a `\|\|` or `&&` expression returned directly, never of `??` or of an expression that is not returned; one of its operands then passes `check`'s test as well |
| LogicalReturn.IsUnawaitedPromiseLikeCall | lib/rules/require-await-for-promise.js:168-177 | the test `check` applies to a call: never passes for a call whose return type is unknown or whose parent is an `await` |
| EsTree.AncestorPrecedes | lib/rules/require-await-for-promise.js:32-34 | every strict ancestor has a smaller index |
| TypeOracle.PromiseOfIsPromise | lib/rules/require-await-for-promise.js:177 | every `Promise<…>` rendering also passes the looser `Promise` test of `check`; `PromiseLike<string>` passes only the looser one |
| AggregatorArgument.AggregatorAncestorStep | lib/rules/require-await-for-promise.js:34-81 | moving `current` to its parent drops exactly the parent from the ancestors still to be examined |
| AggregatorArgument.RootHasNoAggregatorAncestor | lib/rules/require-await-for-promise.js:84 | when the walk reaches the root no aggregator call is left above it, so `false` is the right answer |
| AggregatorArgument.ArrayBranchIsSubsumed | lib/rules/require-await-for-promise.js:37-51 | the array-literal branch only answers true where an aggregator call is already a strict ancestor, so it changes no verdict |
| AggregatorArgument.IsPromiseAggregatorArgument | lib/rules/require-await-for-promise.js:31-85 | returns true iff some strict ancestor is a call `Promise.<name>(…)` with `<name>` one of the six case-sensitive aggregator names; terminates on every well-formed tree |
| HandledChain.Next | lib/rules/require-await-for-promise.js:106-122 | the walk stops after a node exactly when that node is an `ExpressionStatement` or has no parent; otherwise it goes to a node of the tree |
| HandledChain.ReachesHandlerStep | lib/rules/require-await-for-promise.js:95-103 | one iteration: an `await` or a `.then`/`.catch`/`.finally` access answers true at once, else the question moves to the next node with one step less |
| HandledChain.NoHandlerWithoutBudgetOrNode | lib/rules/require-await-for-promise.js:92 | a walk with no node left or with no steps left finds no handler |
| HandledChain.IsHandledPromiseChain | lib/rules/require-await-for-promise.js:87-125 | returns true iff one of the first 30 nodes visited from the call's parent is a handler; false when the budget runs out, at an `ExpressionStatement`, or at the root |
| HandledChain.BudgetMonotone | lib/rules/require-await-for-promise.js:90 | a larger step budget never turns a handled call into an unhandled one |
| LogicalReturn.OperandStep | lib/rules/require-await-for-promise.js:167-187 | a call is judged on its own, a logical expression by its two operands, any other node yields nothing |
| LogicalReturn.LogicalScan.Check | lib/rules/require-await-for-promise.js:167-187 | sets `found` iff it was set or some call reached through nested logical operands is not directly awaited and renders as `Promise…`; never clears it |
| LogicalReturn.FindUnawaitedPromiseCallsInLogical | lib/rules/require-await-for-promise.js:161-190 | returns true iff some call reached from the node through logical operands of any operator is not directly awaited and renders as `Promise…` |
| LogicalReturn.OperandsAreNeverDirectlyAwaited | lib/rules/require-await-for-promise.js:137-141 | in a parent-linked tree an operand's parent is the logical expression, so the `await` guard never changes either check's verdict on an operand |
| LogicalReturn.DirectCheckImpliesScan | lib/rules/require-await-for-promise.js:152-155 | an operand flagged by checkLogicalReturnPromise is also found by the recursive scan |
| RequireAwaitForPromise.Listener.constructor | lib/rules/require-await-for-promise.js:192 | a new listener has reported nothing |
| RequireAwaitForPromise.Listener.VisitCallExpression | lib/rules/require-await-for-promise.js:193-233 | appends one `missingAwait` report on the call exactly when the call qualifies (`CallReported`: the identifier path or the direct logical check), nothing otherwise |
| RequireAwaitForPromise.Listener.VisitLogicalExpression | lib/rules/require-await-for-promise.js:235-246 | appends one `missingAwait` report on the logical expression exactly when it qualifies (`LogicalReported`: returned directly and the recursive scan finds a call), nothing otherwise |
| RequireAwaitForPromise.Listener.Lint | lib/rules/require-await-for-promise.js:192-247 | after a traversal the reports are the earlier ones followed by one report per visited node that qualifies, in visiting order |
| RequireAwaitForPromise.IdentifierCallNeedsPromiseRendering | lib/rules/require-await-for-promise.js:194-205 | a reported bare-identifier call has a return-type rendering that starts with `Promise<` |
| RequireAwaitForPromise.ReturnedIdentifierCallIsNotReported | lib/rules/require-await-for-promise.js:207-209 | `return f()` is never reported, whatever `f` returns |
| RequireAwaitForPromise.UnreturnedIdentifierCallReport | lib/rules/require-await-for-promise.js:207-220 | any other `Promise<…>` bare-identifier call is reported iff neither the handler walk nor the aggregator walk accepts it |
| RequireAwaitForPromise.QualifiedCallReport | lib/rules/require-await-for-promise.js:221-231 | a call whose callee is not an identifier is reported iff its parent is a returned `\|\|`/`&&` expression with an immediate operand that is an unawaited `Promise<…>` call |
| RequireAwaitForPromise.QualifiedReportImpliesLogicalReport | lib/rules/require-await-for-promise.js:222-245 | a report on a qualified call always comes with a report on its parent logical expression |
| RequireAwaitForPromise.DiagnosticsAsEmit | lib/rules/require-await-for-promise.js:192-247 | a traversal's reports are those of visiting the order with the qualifying nodes flagged: one report per flagged visit, in visiting order |
| RequireAwaitForPromise.EmitCount | lib/rules/require-await-for-promise.js:217-244 | visiting an order with a set of flagged nodes reports a node once per visit when it is flagged and never otherwise |
| RequireAwaitForPromise.ReportsPerNode | lib/rules/require-await-for-promise.js:217-244 | a traversal reports a node as many times as it visits it if the node qualifies and never otherwise, so a node visited once draws at most one report |
| Fixtures.MixedReturnVerdicts | lib/rules/require-await-for-promise.js:312-315 | in `return await f() \|\| f()` exactly the logical expression and the bare second call qualify |
| Fixtures.MixedReturnReports | lib/rules/require-await-for-promise.js:312-315 | the traversal reports the logical expression, then the second call |
| Fixtures.AwaitedReturnVerdicts | lib/rules/require-await-for-promise.js:317-320 | in `return await f() \|\| await f()` no node qualifies |
| Fixtures.AwaitedReturnReportsNothing | lib/rules/require-await-for-promise.js:317-320 | the traversal reports nothing |
| Fixtures.AwaitedReturnWithDefaultVerdicts | lib/rules/require-await-for-promise.js:322-324 | with a trailing `\|\| 'default value'` no node qualifies either |
| Fixtures.AwaitedReturnWithDefaultReportsNothing | lib/rules/require-await-for-promise.js:322-324 | the traversal reports nothing |
| Fixtures.UnawaitedReturnChainVerdicts | lib/rules/require-await-for-promise.js:295-299 | in `return f() \|\| f() \|\| f()` the outer logical expression and all three calls qualify |
| Fixtures.UnawaitedReturnChainReports | lib/rules/require-await-for-promise.js:295-299 | the traversal draws four reports, in pre-order |
| Fixtures.QualifiedReturnVerdicts | lib/rules/require-await-for-promise.js:301-304 | in `return A.x() \|\| A.y()` the logical expression and both qualified calls qualify |
| Fixtures.QualifiedReturnReports | lib/rules/require-await-for-promise.js:301-304 | the traversal draws those three reports, in pre-order |
| Fixtures.QualifiedReturnWithDefaultVerdicts | lib/rules/require-await-for-promise.js:306-310 | with a trailing `\|\| undefined` only the outer logical expression qualifies |
| Fixtures.QualifiedReturnWithDefaultReports | lib/rules/require-await-for-promise.js:306-310 | the traversal draws exactly that one report |
| Fixtures.AwaitStatementVerdicts | lib/rules/require-await-for-promise.js:269 | `await f();` draws no report |
| Fixtures.AwaitStatementReportsNothing | lib/rules/require-await-for-promise.js:269 | the traversal reports nothing |
| Fixtures.HandlerStatementVerdicts | lib/rules/require-await-for-promise.js:270-271 | `f().then(cb);`, `f().catch(cb);` and `f().finally(cb);` draw no report |
| Fixtures.HandlerStatementReportsNothing | lib/rules/require-await-for-promise.js:270-271 | the traversal reports nothing |
| Fixtures.AggregatedArrayVerdicts | lib/rules/require-await-for-promise.js:272 | `Promise.<name>([f()]);` draws no report for each of the six aggregator names |
| Fixtures.AggregatedArrayReportsNothing | lib/rules/require-await-for-promise.js:272 | the traversal reports nothing |
| Fixtures.MiscasedAggregatorVerdicts | lib/rules/require-await-for-promise.js:3-10 | names match case-sensitively: in `Promise.All([f()]);` the inner call qualifies |
| Fixtures.MiscasedAggregatorReports | lib/rules/require-await-for-promise.js:3-10 | the traversal reports the inner call only |
| Fixtures.MemberObjectBounce | lib/rules/require-await-for-promise.js:113-122 | from a member access that is not a handler and whose object is an identifier, the walk alternates between the two and never finds a handler |
| Fixtures.AggregatedArgumentVerdicts | lib/rules/require-await-for-promise.js:273 | `Promise.resolve(f());` draws no report |
| Fixtures.AggregatedArgumentReportsNothing | lib/rules/require-await-for-promise.js:273 | the traversal reports nothing |
| Fixtures.AggregatedCallbackVerdicts | lib/rules/require-await-for-promise.js:276 | `const res2 = await Promise.all(arr.map(() => f()))` draws no report: the walk crosses the callback and the `map` call |
| Fixtures.AggregatedCallbackReportsNothing | lib/rules/require-await-for-promise.js:276 | the traversal reports nothing |
| Fixtures.BareStatementVerdicts | lib/rules/require-await-for-promise.js:207-220 | `f();` on its own qualifies |
| Fixtures.BareStatementReports | lib/rules/require-await-for-promise.js:207-220 | the traversal reports the call once |
| Fixtures.DeclaredCallVerdicts | lib/rules/require-await-for-promise.js:291 | `const v = f();` qualifies: the declaration is neither a handler nor an aggregator call |
| Fixtures.DeclaredCallReports | lib/rules/require-await-for-promise.js:291 | the traversal reports the call once |
| Fixtures.ReturnedCallVerdicts | lib/rules/require-await-for-promise.js:279 | `return f();` draws no report |
| Fixtures.ReturnedCallReportsNothing | lib/rules/require-await-for-promise.js:279 | the traversal reports nothing |
| StepBudget.HandlerDistance | lib/rules/require-await-for-promise.js:92-124 | on a chain of casts the handler above the `k`-th cast is found iff the budget exceeds `k` |
| StepBudget.CastChainVerdict | lib/rules/require-await-for-promise.js:90-92 | `(f() as T … as T).then(cb);` with `d` casts reports the inner call iff `d` is at least 30 |

## Left out

- Rule metadata, the message text and the empty option schema (lib/rules/require-await-for-promise.js:12-25). They are registration data with no behaviour. A report carries the message id `MissingAwait` only.
- `getParserServices`, `getTypeChecker`, `esTreeNodeToTSNodeMap`, `getResolvedSignature`, `getReturnTypeOfSignature` and `typeToString` (lib/rules/require-await-for-promise.js:28-29, 143-148, 170-176, 195-202). These are calls into the TypeScript compiler. They are one map from call node to rendered text, and TypeScript's type semantics are not modelled.
- The host's traversal. `Lint` takes the visiting order as a parameter, and the fixtures use pre-order.
- The internals of `context.report`. A report is a `(node, missingAwait)` pair appended to a sequence.
- The empty "do nothing" branch of the aggregator walk (lib/rules/require-await-for-promise.js:74-79). It has no effect, and the model's loop leaves it out.
- Optional-chaining guards such as `parent.parent?.type`, `current.property &&` and `expr.parent &&` become total accesses. Only `Program` lacks a parent, and every member access has its object and property.
- Call arguments, array elements and function bodies: the rule never reads these child links, so the model keeps no link to them. Declarations, casts and the other node kinds the rule does not test are `Other` or `Literal`.
- The commented-out sample program (lib/rules/require-await-for-promise.js:251-338). It is used only as fixture trees. Each fixture keeps the one statement of interest under the root. `delayedStringAsync`, and both `AutomationInstances` calls, render as `Promise<string>`.
- Running the analysis twice yields the same reports. That holds because `Diagnostics` is a function of the tree, the renderings and the order, so no separate lemma is stated for it.
