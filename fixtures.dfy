/**
 Sample programs from the end of the rule's source file, as trees, and
 what a traversal reports on them, plus three programs that exercise the
 plain report (`delayedStringAsync();`), case-sensitive matching of the
 combinator names (`Promise.All`) and `.finally`. The trees keep only the
 statement that matters under the `Program` root (the enclosing function declaration and
 block add nothing the rule looks at), and node indices follow pre-order.
 Every call to `delayedStringAsync` renders as `Promise<string>`.

 Each sample has a `…Verdicts` lemma (which nodes qualify) and a report
 lemma (the exact report list of a pre-order traversal). The report lemmas
 receive the tree and the renderings as parameters fixed by their
 preconditions, so the verifier reasons about one traversal of that tree
 instead of evaluating every definition on the literal.
 */
module Fixtures {
  import opened EsTree
  import opened TypeOracle
  import opened AggregatorArgument
  import opened HandledChain
  import opened LogicalReturn
  import opened RequireAwaitForPromise

  const Callee: string := "delayedStringAsync"
  const PromiseOfString: string := "Promise<string>"

  /** Nodes `j` to `n - 1` in index order; fixture trees are numbered in
      pre-order, so `PreOrder(0, |t|)` is the host's traversal of `t`. */
  function PreOrder(j: nat, n: nat): (order: seq<NodeId>)
    decreases n - j
  {
    if j >= n then [] else [j] + PreOrder(j + 1, n)
  }

  /** The reports a traversal of nodes `j` to `n - 1` makes when exactly the
      nodes in `flagged` qualify: `Emit` over an index range, unfolded on the
      range itself so that a fixture's report list evaluates in one pass. */
  function ReportsOn(j: nat, n: nat, flagged: set<NodeId>): (reports: seq<Report>)
    decreases n - j
  {
    if j >= n then []
    else (if j in flagged then [Report(j, MissingAwait)] else []) + ReportsOn(j + 1, n, flagged)
  }

  lemma {:induction false} DiagnosticsOfFlagged(tree: Tree, types: Renderings, j: nat, n: nat, flagged: set<NodeId>)
    requires WellFormed(tree) && n <= |tree|
    requires forall i | j <= i < n :: Reported(tree, types, i) <==> i in flagged
    ensures AllInTree(tree, PreOrder(j, n))
    ensures Diagnostics(tree, types, PreOrder(j, n)) == ReportsOn(j, n, flagged)
    decreases n - j
  {
    if j < n {
      var order := PreOrder(j, n);
      assert order[0] == j && order[1..] == PreOrder(j + 1, n);
      DiagnosticsOfFlagged(tree, types, j + 1, n, flagged);
      assert Reported(tree, types, j) <==> j in flagged;
      calc {
        Diagnostics(tree, types, order);
        (if Reported(tree, types, j) then [Report(j, MissingAwait)] else []) + Diagnostics(tree, types, PreOrder(j + 1, n));
        (if j in flagged then [Report(j, MissingAwait)] else []) + ReportsOn(j + 1, n, flagged);
        ReportsOn(j, n, flagged);
      }
    }
  }

  /** `return await delayedStringAsync() || delayedStringAsync();`
      The logical expression is reported, and so is the bare second call. */
  function MixedReturn(): (t: Tree)
  {
    [ Program,
      ReturnStatement(0),
      LogicalExpression(1, "||", 3, 6),
      AwaitExpression(2),
      CallExpression(3, 5),
      Identifier(4, Callee),
      CallExpression(2, 7),
      Identifier(6, Callee) ]
  }

  lemma MixedReturnVerdicts()
    ensures WellFormed(MixedReturn())
    ensures forall i | 0 <= i < 8 :: Reported(MixedReturn(), map[4 := PromiseOfString, 6 := PromiseOfString], i) <==> i in {2, 6}
  {
    var t, ty := MixedReturn(), map[4 := PromiseOfString, 6 := PromiseOfString];
    assert WellFormed(t);
    forall i | 0 <= i < 8 ensures Reported(t, ty, i) <==> i in {2, 6} {
      if i == 2 {
        assert ReachableThroughLogical(t, 2, 6) && IsUnawaitedPromiseLikeCall(t, ty, 6);
      } else if i == 4 {
        assert Trail(t, Some(3), 0) == Some(3);
      } else if i == 6 {
        ReachesHandlerStep(t, 2, 29);
        ReachesHandlerStep(t, 1, 28);
        ReachesHandlerStep(t, 0, 27);
        NoHandlerWithoutBudgetOrNode(t, None, 27);
        AggregatorAncestorStep(t, 6);
        AggregatorAncestorStep(t, 2);
        AggregatorAncestorStep(t, 1);
        RootHasNoAggregatorAncestor(t, 0);
      } else {
        assert !t[i].CallExpression? && !t[i].LogicalExpression?;
      }
    }
  }

  lemma MixedReturnReports(t: Tree, ty: Renderings)
    requires t == MixedReturn() && ty == map[4 := PromiseOfString, 6 := PromiseOfString]
    ensures WellFormed(t)
    ensures AllInTree(t, PreOrder(0, 8))
    ensures Diagnostics(t, ty, PreOrder(0, 8)) == [Report(2, MissingAwait), Report(6, MissingAwait)]
  {
    assert ReportsOn(0, 8, {2, 6}) == [Report(2, MissingAwait), Report(6, MissingAwait)];
    MixedReturnVerdicts();
    DiagnosticsOfFlagged(t, ty, 0, 8, {2, 6});
  }

  /** `return await delayedStringAsync() || await delayedStringAsync();`
      Nothing is reported. */
  function AwaitedReturn(): (t: Tree)
  {
    [ Program,
      ReturnStatement(0),
      LogicalExpression(1, "||", 3, 6),
      AwaitExpression(2),
      CallExpression(3, 5),
      Identifier(4, Callee),
      AwaitExpression(2),
      CallExpression(6, 8),
      Identifier(7, Callee) ]
  }

  lemma AwaitedReturnVerdicts()
    ensures WellFormed(AwaitedReturn())
    ensures forall i | 0 <= i < 9 :: !Reported(AwaitedReturn(), map[4 := PromiseOfString, 7 := PromiseOfString], i)
  {
    var t, ty := AwaitedReturn(), map[4 := PromiseOfString, 7 := PromiseOfString];
    assert WellFormed(t);
    forall i | 0 <= i < 9 ensures !Reported(t, ty, i) {
      if i == 2 {
        OperandStep(t, ty, 2);
        OperandStep(t, ty, 3);
        OperandStep(t, ty, 6);
      } else if i == 4 {
        assert Trail(t, Some(3), 0) == Some(3);
      } else if i == 7 {
        assert Trail(t, Some(6), 0) == Some(6);
      } else {
        assert !t[i].CallExpression? && !t[i].LogicalExpression?;
      }
    }
  }

  lemma AwaitedReturnReportsNothing(t: Tree, ty: Renderings)
    requires t == AwaitedReturn() && ty == map[4 := PromiseOfString, 7 := PromiseOfString]
    ensures WellFormed(t)
    ensures AllInTree(t, PreOrder(0, 9))
    ensures Diagnostics(t, ty, PreOrder(0, 9)) == []
  {
    assert ReportsOn(0, 9, {}) == [];
    AwaitedReturnVerdicts();
    DiagnosticsOfFlagged(t, ty, 0, 9, {});
  }

  /** `return await delayedStringAsync() || await delayedStringAsync() || 'default value';`
      which parses as `(await … || await …) || 'default value'`. Nothing is
      reported: the trailing literal is not a call. */
  function AwaitedReturnWithDefault(): (t: Tree)
  {
    [ Program,
      ReturnStatement(0),
      LogicalExpression(1, "||", 3, 10),
      LogicalExpression(2, "||", 4, 7),
      AwaitExpression(3),
      CallExpression(4, 6),
      Identifier(5, Callee),
      AwaitExpression(3),
      CallExpression(7, 9),
      Identifier(8, Callee),
      Literal(2) ]
  }

  lemma AwaitedReturnWithDefaultVerdicts()
    ensures WellFormed(AwaitedReturnWithDefault())
    ensures forall i | 0 <= i < 11 :: !Reported(AwaitedReturnWithDefault(), map[5 := PromiseOfString, 8 := PromiseOfString], i)
  {
    var t, ty := AwaitedReturnWithDefault(), map[5 := PromiseOfString, 8 := PromiseOfString];
    assert WellFormed(t);
    forall i | 0 <= i < 11 ensures !Reported(t, ty, i) {
      if i == 2 || i == 3 {
        OperandStep(t, ty, 2);
        OperandStep(t, ty, 3);
        OperandStep(t, ty, 4);
        OperandStep(t, ty, 7);
        OperandStep(t, ty, 10);
      } else if i == 5 {
        assert Trail(t, Some(4), 0) == Some(4);
      } else if i == 8 {
        assert Trail(t, Some(7), 0) == Some(7);
      } else {
        assert !t[i].CallExpression? && !t[i].LogicalExpression?;
      }
    }
  }

  lemma AwaitedReturnWithDefaultReportsNothing(t: Tree, ty: Renderings)
    requires t == AwaitedReturnWithDefault() && ty == map[5 := PromiseOfString, 8 := PromiseOfString]
    ensures WellFormed(t)
    ensures AllInTree(t, PreOrder(0, 11))
    ensures Diagnostics(t, ty, PreOrder(0, 11)) == []
  {
    assert ReportsOn(0, 11, {}) == [];
    AwaitedReturnWithDefaultVerdicts();
    DiagnosticsOfFlagged(t, ty, 0, 11, {});
  }

  /** `return delayedStringAsync() || delayedStringAsync() || delayedStringAsync();`
      The outer logical expression is reported, and so is each of the three
      bare calls, since none of them is the direct operand of `return`. */
  function UnawaitedReturnChain(): (t: Tree)
  {
    [ Program,
      ReturnStatement(0),
      LogicalExpression(1, "||", 3, 8),
      LogicalExpression(2, "||", 4, 6),
      CallExpression(3, 5),
      Identifier(4, Callee),
      CallExpression(3, 7),
      Identifier(6, Callee),
      CallExpression(2, 9),
      Identifier(8, Callee) ]
  }

  /** Neither walk accepts any of the three calls: the handler walk climbs
      through the logical expressions to the root, and no call above them
      is an aggregator call. */
  lemma UnawaitedReturnChainWalks(t: Tree)
    requires t == UnawaitedReturnChain()
    ensures WellFormed(t)
    ensures !ReachesHandler(t, Some(3), MaxSteps) && !ReachesHandler(t, Some(2), MaxSteps)
    ensures !HasAggregatorAncestor(t, 4) && !HasAggregatorAncestor(t, 6) && !HasAggregatorAncestor(t, 8)
  {
    assert WellFormed(t);
    ReachesHandlerStep(t, 3, 29);
    ReachesHandlerStep(t, 2, 28);
    ReachesHandlerStep(t, 2, 29);
    ReachesHandlerStep(t, 1, 27);
    ReachesHandlerStep(t, 1, 28);
    ReachesHandlerStep(t, 0, 26);
    ReachesHandlerStep(t, 0, 27);
    NoHandlerWithoutBudgetOrNode(t, None, 26);
    NoHandlerWithoutBudgetOrNode(t, None, 27);
    RootHasNoAggregatorAncestor(t, 0);
    AggregatorAncestorStep(t, 1);
    AggregatorAncestorStep(t, 2);
    AggregatorAncestorStep(t, 3);
    AggregatorAncestorStep(t, 4);
    AggregatorAncestorStep(t, 6);
    AggregatorAncestorStep(t, 8);
  }

  lemma UnawaitedReturnChainVerdicts()
    ensures WellFormed(UnawaitedReturnChain())
    ensures forall i | 0 <= i < 10 :: Reported(UnawaitedReturnChain(), map[4 := PromiseOfString, 6 := PromiseOfString, 8 := PromiseOfString], i) <==> i in {2, 4, 6, 8}
  {
    var t, ty := UnawaitedReturnChain(), map[4 := PromiseOfString, 6 := PromiseOfString, 8 := PromiseOfString];
    UnawaitedReturnChainWalks(t);
    forall i | 0 <= i < 10 ensures Reported(t, ty, i) <==> i in {2, 4, 6, 8} {
      if i == 2 {
        assert ReachableThroughLogical(t, 2, 8) && IsUnawaitedPromiseLikeCall(t, ty, 8);
      } else if i == 3 {
      } else if i == 4 || i == 6 || i == 8 {
      } else {
        assert !t[i].CallExpression? && !t[i].LogicalExpression?;
      }
    }
  }

  lemma UnawaitedReturnChainReports(t: Tree, ty: Renderings)
    requires t == UnawaitedReturnChain() && ty == map[4 := PromiseOfString, 6 := PromiseOfString, 8 := PromiseOfString]
    ensures WellFormed(t)
    ensures AllInTree(t, PreOrder(0, 10))
    ensures Diagnostics(t, ty, PreOrder(0, 10)) == [Report(2, MissingAwait), Report(4, MissingAwait), Report(6, MissingAwait), Report(8, MissingAwait)]
  {
    assert ReportsOn(0, 10, {2, 4, 6, 8}) == [Report(2, MissingAwait), Report(4, MissingAwait), Report(6, MissingAwait), Report(8, MissingAwait)];
    UnawaitedReturnChainVerdicts();
    DiagnosticsOfFlagged(t, ty, 0, 10, {2, 4, 6, 8});
  }

  /** `return AutomationInstances.acquireNextTriggeringAutomationInstance()
          || AutomationInstances.acquireNextExecutingAutomationInstance();`
      The logical expression is reported, and each qualified call is
      reported through the direct check on its parent. */
  function QualifiedReturn(): (t: Tree)
  {
    [ Program,
      ReturnStatement(0),
      LogicalExpression(1, "||", 3, 7),
      CallExpression(2, 4),
      MemberExpression(3, 5, 6),
      Identifier(4, "AutomationInstances"),
      Identifier(4, "acquireNextTriggeringAutomationInstance"),
      CallExpression(2, 8),
      MemberExpression(7, 9, 10),
      Identifier(8, "AutomationInstances"),
      Identifier(8, "acquireNextExecutingAutomationInstance") ]
  }

  lemma QualifiedReturnVerdicts()
    ensures WellFormed(QualifiedReturn())
    ensures forall i | 0 <= i < 11 :: Reported(QualifiedReturn(), map[3 := PromiseOfString, 7 := PromiseOfString], i) <==> i in {2, 3, 7}
  {
    var t, ty := QualifiedReturn(), map[3 := PromiseOfString, 7 := PromiseOfString];
    assert WellFormed(t);
    forall i | 0 <= i < 11 ensures Reported(t, ty, i) <==> i in {2, 3, 7} {
      if i == 2 {
        assert Reported(t, ty, 3);
        QualifiedReportImpliesLogicalReport(t, ty, 3);
      } else if i == 3 || i == 7 {
        assert IsUnawaitedPromiseCall(t, ty, 3);
      } else {
        assert !t[i].CallExpression? && !t[i].LogicalExpression?;
      }
    }
  }

  lemma QualifiedReturnReports(t: Tree, ty: Renderings)
    requires t == QualifiedReturn() && ty == map[3 := PromiseOfString, 7 := PromiseOfString]
    ensures WellFormed(t)
    ensures AllInTree(t, PreOrder(0, 11))
    ensures Diagnostics(t, ty, PreOrder(0, 11)) == [Report(2, MissingAwait), Report(3, MissingAwait), Report(7, MissingAwait)]
  {
    assert ReportsOn(0, 11, {2, 3, 7}) == [Report(2, MissingAwait), Report(3, MissingAwait), Report(7, MissingAwait)];
    QualifiedReturnVerdicts();
    DiagnosticsOfFlagged(t, ty, 0, 11, {2, 3, 7});
  }

  /** The same with a trailing `|| undefined`: the qualified calls now sit
      under an inner logical expression that is not returned directly, so
      only the outer logical expression is reported. */
  function QualifiedReturnWithDefault(): (t: Tree)
  {
    [ Program,
      ReturnStatement(0),
      LogicalExpression(1, "||", 3, 12),
      LogicalExpression(2, "||", 4, 8),
      CallExpression(3, 5),
      MemberExpression(4, 6, 7),
      Identifier(5, "AutomationInstances"),
      Identifier(5, "acquireNextTriggeringAutomationInstance"),
      CallExpression(3, 9),
      MemberExpression(8, 10, 11),
      Identifier(9, "AutomationInstances"),
      Identifier(9, "acquireNextExecutingAutomationInstance"),
      Identifier(2, "undefined") ]
  }

  lemma QualifiedReturnWithDefaultVerdicts()
    ensures WellFormed(QualifiedReturnWithDefault())
    ensures forall i | 0 <= i < 13 :: Reported(QualifiedReturnWithDefault(), map[4 := PromiseOfString, 8 := PromiseOfString], i) <==> i in {2}
  {
    var t, ty := QualifiedReturnWithDefault(), map[4 := PromiseOfString, 8 := PromiseOfString];
    assert WellFormed(t);
    forall i | 0 <= i < 13 ensures Reported(t, ty, i) <==> i in {2} {
      if i == 2 {
        assert ReachableThroughLogical(t, 3, 4) && ReachableThroughLogical(t, 2, 4);
        assert IsUnawaitedPromiseLikeCall(t, ty, 4);
      } else if i == 3 || i == 4 || i == 8 {
      } else {
        assert !t[i].CallExpression? && !t[i].LogicalExpression?;
      }
    }
  }

  lemma QualifiedReturnWithDefaultReports(t: Tree, ty: Renderings)
    requires t == QualifiedReturnWithDefault() && ty == map[4 := PromiseOfString, 8 := PromiseOfString]
    ensures WellFormed(t)
    ensures AllInTree(t, PreOrder(0, 13))
    ensures Diagnostics(t, ty, PreOrder(0, 13)) == [Report(2, MissingAwait)]
  {
    assert ReportsOn(0, 13, {2}) == [Report(2, MissingAwait)];
    QualifiedReturnWithDefaultVerdicts();
    DiagnosticsOfFlagged(t, ty, 0, 13, {2});
  }

  /** `await delayedStringAsync();` is not reported. */
  function AwaitStatement(): (t: Tree)
  {
    [ Program,
      ExpressionStatement(0),
      AwaitExpression(1),
      CallExpression(2, 4),
      Identifier(3, Callee) ]
  }

  lemma AwaitStatementVerdicts()
    ensures WellFormed(AwaitStatement())
    ensures forall i | 0 <= i < 5 :: !Reported(AwaitStatement(), map[3 := PromiseOfString], i)
  {
    var t, ty := AwaitStatement(), map[3 := PromiseOfString];
    assert WellFormed(t);
    forall i | 0 <= i < 5 ensures !Reported(t, ty, i) {
      if i == 3 {
        assert Trail(t, Some(2), 0) == Some(2);
      } else {
        assert !t[i].CallExpression? && !t[i].LogicalExpression?;
      }
    }
  }

  lemma AwaitStatementReportsNothing(t: Tree, ty: Renderings)
    requires t == AwaitStatement() && ty == map[3 := PromiseOfString]
    ensures WellFormed(t)
    ensures AllInTree(t, PreOrder(0, 5))
    ensures Diagnostics(t, ty, PreOrder(0, 5)) == []
  {
    assert ReportsOn(0, 5, {}) == [];
    AwaitStatementVerdicts();
    DiagnosticsOfFlagged(t, ty, 0, 5, {});
  }

  /** `delayedStringAsync().<handler>(() => { });` for a handler name. */
  function HandlerStatement(handler: string): (t: Tree)
  {
    [ Program,
      ExpressionStatement(0),
      CallExpression(1, 3),
      MemberExpression(2, 4, 6),
      CallExpression(3, 5),
      Identifier(4, Callee),
      Identifier(3, handler),
      ArrowFunctionExpression(2) ]
  }

  /** `.then`, `.catch` and `.finally` all handle the call; the outer method
      call is not reported either, since it is not inside a returned logical
      expression. */
  lemma HandlerStatementVerdicts(handler: string)
    requires handler in HandlerNames
    ensures WellFormed(HandlerStatement(handler))
    ensures forall i | 0 <= i < 8 :: !Reported(HandlerStatement(handler), map[4 := PromiseOfString, 2 := "Promise<void>"], i)
  {
    var t, ty := HandlerStatement(handler), map[4 := PromiseOfString, 2 := "Promise<void>"];
    assert WellFormed(t);
    forall i | 0 <= i < 8 ensures !Reported(t, ty, i) {
      if i == 2 {
      } else if i == 4 {
        assert Trail(t, Some(3), 0) == Some(3);
      } else {
        assert !t[i].CallExpression? && !t[i].LogicalExpression?;
      }
    }
  }

  lemma HandlerStatementReportsNothing(t: Tree, ty: Renderings, handler: string)
    requires handler in HandlerNames
    requires t == HandlerStatement(handler) && ty == map[4 := PromiseOfString, 2 := "Promise<void>"]
    ensures WellFormed(t)
    ensures AllInTree(t, PreOrder(0, 8))
    ensures Diagnostics(t, ty, PreOrder(0, 8)) == []
  {
    assert ReportsOn(0, 8, {}) == [];
    HandlerStatementVerdicts(handler);
    DiagnosticsOfFlagged(t, ty, 0, 8, {});
  }

  /** `Promise.<name>([delayedStringAsync()]);` */
  function AggregatedArray(name: string): (t: Tree)
  {
    [ Program,
      ExpressionStatement(0),
      CallExpression(1, 3),
      MemberExpression(2, 4, 5),
      Identifier(3, "Promise"),
      Identifier(3, name),
      ArrayExpression(2),
      CallExpression(6, 8),
      Identifier(7, Callee) ]
  }

  /** An array passed to any of the six aggregators handles its elements. */
  lemma AggregatedArrayVerdicts(name: string)
    requires name in PromiseAggregators
    ensures WellFormed(AggregatedArray(name))
    ensures forall i | 0 <= i < 9 :: !Reported(AggregatedArray(name), map[7 := PromiseOfString], i)
  {
    var t, ty := AggregatedArray(name), map[7 := PromiseOfString];
    assert WellFormed(t);
    forall i | 0 <= i < 9 ensures !Reported(t, ty, i) {
      if i == 2 {
      } else if i == 7 {
        assert IsStrictAncestor(t, 2, 7) && IsAggregatorCall(t, 2);
      } else {
        assert !t[i].CallExpression? && !t[i].LogicalExpression?;
      }
    }
  }

  lemma AggregatedArrayReportsNothing(t: Tree, ty: Renderings, name: string)
    requires name in PromiseAggregators
    requires t == AggregatedArray(name) && ty == map[7 := PromiseOfString]
    ensures WellFormed(t)
    ensures AllInTree(t, PreOrder(0, 9))
    ensures Diagnostics(t, ty, PreOrder(0, 9)) == []
  {
    assert ReportsOn(0, 9, {}) == [];
    AggregatedArrayVerdicts(name);
    DiagnosticsOfFlagged(t, ty, 0, 9, {});
  }

  /** A lookalike aggregator name differing only in case does not count:
      `Promise.All([delayedStringAsync()]);` reports the inner call. */
  lemma MiscasedAggregatorVerdicts()
    ensures WellFormed(AggregatedArray("All"))
    ensures forall i | 0 <= i < 9 :: Reported(AggregatedArray("All"), map[7 := PromiseOfString], i) <==> i in {7}
  {
    var t, ty := AggregatedArray("All"), map[7 := PromiseOfString];
    assert WellFormed(t);
    forall i | 0 <= i < 9 ensures Reported(t, ty, i) <==> i in {7} {
      if i == 2 {
      } else if i == 7 {
        assert !HasAggregatorAncestor(t, 7) by {
          assert "All" !in PromiseAggregators;
          assert !IsAggregatorCall(t, 2);
          AggregatorAncestorStep(t, 7);
          AggregatorAncestorStep(t, 6);
          AggregatorAncestorStep(t, 2);
          AggregatorAncestorStep(t, 1);
          RootHasNoAggregatorAncestor(t, 0);
        }
        // the walk enters `Promise.All`, then bounces between the member
        // access and its object until the budget is spent
        assert !ReachesHandler(t, Some(6), MaxSteps) by {
          ReachesHandlerStep(t, 6, 29);
          ReachesHandlerStep(t, 2, 28);
          MemberObjectBounce(t, 3, 4, 27);
        }
      } else {
        assert !t[i].CallExpression? && !t[i].LogicalExpression?;
      }
    }
  }

  lemma MiscasedAggregatorReports(t: Tree, ty: Renderings)
    requires t == AggregatedArray("All") && ty == map[7 := PromiseOfString]
    ensures WellFormed(t)
    ensures AllInTree(t, PreOrder(0, 9))
    ensures Diagnostics(t, ty, PreOrder(0, 9)) == [Report(7, MissingAwait)]
  {
    assert ReportsOn(0, 9, {7}) == [Report(7, MissingAwait)];
    MiscasedAggregatorVerdicts();
    DiagnosticsOfFlagged(t, ty, 0, 9, {7});
  }

  /** A walk that reaches a non-handler member access whose object is an
      identifier bounces between the two until the budget is spent. */
  lemma {:induction false} MemberObjectBounce(t: Tree, m: NodeId, o: NodeId, budget: nat)
    requires WellFormed(t) && m < |t| && o < |t|
    requires t[m].MemberExpression? && t[m].obj == o && !IsHandler(t, m)
    requires t[o].Identifier? && t[o].parent == m
    ensures !ReachesHandler(t, Some(m), budget)
    decreases budget
  {
    if budget == 0 {
      NoHandlerWithoutBudgetOrNode(t, Some(m), 0);
    } else {
      ReachesHandlerStep(t, m, budget - 1);
      if budget - 1 == 0 {
        NoHandlerWithoutBudgetOrNode(t, Some(o), 0);
      } else {
        ReachesHandlerStep(t, o, budget - 2);
        MemberObjectBounce(t, m, o, budget - 2);
      }
    }
  }

  /** `Promise.resolve(delayedStringAsync());`: a plain argument of an
      aggregator call is handled too. */
  function AggregatedArgument(): (t: Tree)
  {
    [ Program,
      ExpressionStatement(0),
      CallExpression(1, 3),
      MemberExpression(2, 4, 5),
      Identifier(3, "Promise"),
      Identifier(3, "resolve"),
      CallExpression(2, 7),
      Identifier(6, Callee) ]
  }

  lemma AggregatedArgumentVerdicts()
    ensures WellFormed(AggregatedArgument())
    ensures forall i | 0 <= i < 8 :: !Reported(AggregatedArgument(), map[6 := PromiseOfString], i)
  {
    var t, ty := AggregatedArgument(), map[6 := PromiseOfString];
    assert WellFormed(t);
    forall i | 0 <= i < 8 ensures !Reported(t, ty, i) {
      if i == 2 {
      } else if i == 6 {
        assert IsStrictAncestor(t, 2, 6) && IsAggregatorCall(t, 2);
      } else {
        assert !t[i].CallExpression? && !t[i].LogicalExpression?;
      }
    }
  }

  lemma AggregatedArgumentReportsNothing(t: Tree, ty: Renderings)
    requires t == AggregatedArgument() && ty == map[6 := PromiseOfString]
    ensures WellFormed(t)
    ensures AllInTree(t, PreOrder(0, 8))
    ensures Diagnostics(t, ty, PreOrder(0, 8)) == []
  {
    assert ReportsOn(0, 8, {}) == [];
    AggregatedArgumentVerdicts();
    DiagnosticsOfFlagged(t, ty, 0, 8, {});
  }

  /** `const res2 = await Promise.all(arr.map(() => delayedStringAsync()));`:
      the walk crosses the callback and the `map` call to reach `Promise.all`.
      Nodes 1 to 3 are the declaration, its declarator and the name `res2`. */
  function AggregatedCallback(): (t: Tree)
  {
    [ Program,
      Other(0),
      Other(1),
      Identifier(2, "res2"),
      AwaitExpression(2),
      CallExpression(4, 6),
      MemberExpression(5, 7, 8),
      Identifier(6, "Promise"),
      Identifier(6, "all"),
      CallExpression(5, 10),
      MemberExpression(9, 11, 12),
      Identifier(10, "arr"),
      Identifier(10, "map"),
      ArrowFunctionExpression(9),
      CallExpression(13, 15),
      Identifier(14, Callee) ]
  }

  lemma AggregatedCallbackVerdicts()
    ensures WellFormed(AggregatedCallback())
    ensures forall i | 0 <= i < 16 :: !Reported(AggregatedCallback(), map[14 := PromiseOfString], i)
  {
    var t, ty := AggregatedCallback(), map[14 := PromiseOfString];
    assert WellFormed(t);
    forall i | 0 <= i < 16 ensures !Reported(t, ty, i) {
      if i == 5 || i == 9 {
      } else if i == 14 {
        assert IsStrictAncestor(t, 5, 14) && IsAggregatorCall(t, 5);
      } else {
        assert !t[i].CallExpression? && !t[i].LogicalExpression?;
      }
    }
  }

  lemma AggregatedCallbackReportsNothing(t: Tree, ty: Renderings)
    requires t == AggregatedCallback() && ty == map[14 := PromiseOfString]
    ensures WellFormed(t)
    ensures AllInTree(t, PreOrder(0, 16))
    ensures Diagnostics(t, ty, PreOrder(0, 16)) == []
  {
    assert ReportsOn(8, 16, {}) == [];
    assert ReportsOn(0, 16, {}) == [];
    AggregatedCallbackVerdicts();
    DiagnosticsOfFlagged(t, ty, 0, 16, {});
  }

  /** `delayedStringAsync();` alone is reported once, on the call. */
  function BareStatement(): (t: Tree)
  {
    [ Program,
      ExpressionStatement(0),
      CallExpression(1, 3),
      Identifier(2, Callee) ]
  }

  lemma BareStatementVerdicts()
    ensures WellFormed(BareStatement())
    ensures forall i | 0 <= i < 4 :: Reported(BareStatement(), map[2 := PromiseOfString], i) <==> i in {2}
  {
    var t, ty := BareStatement(), map[2 := PromiseOfString];
    assert WellFormed(t);
    forall i | 0 <= i < 4 ensures Reported(t, ty, i) <==> i in {2} {
      if i == 2 {
        ReachesHandlerStep(t, 1, 29);
        NoHandlerWithoutBudgetOrNode(t, None, 29);
        AggregatorAncestorStep(t, 2);
        AggregatorAncestorStep(t, 1);
        RootHasNoAggregatorAncestor(t, 0);
      } else {
        assert !t[i].CallExpression? && !t[i].LogicalExpression?;
      }
    }
  }

  lemma BareStatementReports(t: Tree, ty: Renderings)
    requires t == BareStatement() && ty == map[2 := PromiseOfString]
    ensures WellFormed(t)
    ensures AllInTree(t, PreOrder(0, 4))
    ensures Diagnostics(t, ty, PreOrder(0, 4)) == [Report(2, MissingAwait)]
  {
    assert ReportsOn(0, 4, {2}) == [Report(2, MissingAwait)];
    BareStatementVerdicts();
    DiagnosticsOfFlagged(t, ty, 0, 4, {2});
  }

  /** `const v = delayedStringAsync();` is reported: the declaration and its
      declarator are neither handlers nor aggregator calls, and the walk runs
      out of parents at the root. The sample program marks this line "OK",
      as it marks the unreported `return` of a call; whatever that mark
      means, the rule's code reports the call. */
  function DeclaredCall(): (t: Tree)
  {
    [ Program,
      Other(0),
      Other(1),
      Identifier(2, "v"),
      CallExpression(2, 5),
      Identifier(4, Callee) ]
  }

  lemma DeclaredCallVerdicts()
    ensures WellFormed(DeclaredCall())
    ensures forall i | 0 <= i < 6 :: Reported(DeclaredCall(), map[4 := PromiseOfString], i) <==> i in {4}
  {
    var t, ty := DeclaredCall(), map[4 := PromiseOfString];
    assert WellFormed(t);
    forall i | 0 <= i < 6 ensures Reported(t, ty, i) <==> i in {4} {
      if i == 4 {
        ReachesHandlerStep(t, 2, 29);
        ReachesHandlerStep(t, 1, 28);
        ReachesHandlerStep(t, 0, 27);
        NoHandlerWithoutBudgetOrNode(t, None, 27);
        AggregatorAncestorStep(t, 4);
        AggregatorAncestorStep(t, 2);
        AggregatorAncestorStep(t, 1);
        RootHasNoAggregatorAncestor(t, 0);
      } else {
        assert !t[i].CallExpression? && !t[i].LogicalExpression?;
      }
    }
  }

  lemma DeclaredCallReports(t: Tree, ty: Renderings)
    requires t == DeclaredCall() && ty == map[4 := PromiseOfString]
    ensures WellFormed(t)
    ensures AllInTree(t, PreOrder(0, 6))
    ensures Diagnostics(t, ty, PreOrder(0, 6)) == [Report(4, MissingAwait)]
  {
    assert ReportsOn(0, 6, {4}) == [Report(4, MissingAwait)];
    DeclaredCallVerdicts();
    DiagnosticsOfFlagged(t, ty, 0, 6, {4});
  }

  /** `return delayedStringAsync();` is not reported. */
  function ReturnedCall(): (t: Tree)
  {
    [ Program,
      ReturnStatement(0),
      CallExpression(1, 3),
      Identifier(2, Callee) ]
  }

  lemma ReturnedCallVerdicts()
    ensures WellFormed(ReturnedCall())
    ensures forall i | 0 <= i < 4 :: !Reported(ReturnedCall(), map[2 := PromiseOfString], i)
  {
    var t, ty := ReturnedCall(), map[2 := PromiseOfString];
    assert WellFormed(t);
    forall i | 0 <= i < 4 ensures !Reported(t, ty, i) {
      if i == 2 {
      } else {
        assert !t[i].CallExpression? && !t[i].LogicalExpression?;
      }
    }
  }

  lemma ReturnedCallReportsNothing(t: Tree, ty: Renderings)
    requires t == ReturnedCall() && ty == map[2 := PromiseOfString]
    ensures WellFormed(t)
    ensures AllInTree(t, PreOrder(0, 4))
    ensures Diagnostics(t, ty, PreOrder(0, 4)) == []
  {
    assert ReportsOn(0, 4, {}) == [];
    ReturnedCallVerdicts();
    DiagnosticsOfFlagged(t, ty, 0, 4, {});
  }
}
