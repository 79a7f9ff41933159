/**
 The rule `require-await-for-promise`: `create(context)` returns a listener
 with two visitors, `CallExpression` and `LogicalExpression`, which append
 `missingAwait` reports to the context. The listener is a class whose
 `reports` field is the context's report list; the host traversal is a list
 of node indices fed to the visitors in order.
 */
module RequireAwaitForPromise {
  import opened EsTree
  import opened TypeOracle
  import opened AggregatorArgument
  import opened HandledChain
  import opened LogicalReturn

  datatype MessageId = MissingAwait

  datatype Report = Report(node: NodeId, messageId: MessageId)

  /** The CallExpression visitor's verdict. A call on a bare identifier is
      reported when it returns `Promise<…>`, is not returned directly, and
      neither the handler walk nor the aggregator walk accepts it. Any other
      call is reported when its parent passes checkLogicalReturnPromise. */
  ghost predicate CallReported(tree: Tree, types: Renderings, node: NodeId)
    requires WellFormed(tree) && node < |tree| && tree[node].CallExpression?
  {
    var parent := tree[node].parent;
    if tree[tree[node].callee].Identifier? then
      && RendersPromiseOf(types, node)
      && !tree[parent].ReturnStatement?
      && !ReachesHandler(tree, Some(parent), MaxSteps)
      && !HasAggregatorAncestor(tree, node)
    else
      CheckLogicalReturnPromise(tree, types, parent)
  }

  /** The LogicalExpression visitor's verdict: returned directly, and some
      call reached through its logical operands is an unawaited Promise call. */
  ghost predicate LogicalReported(tree: Tree, types: Renderings, node: NodeId)
    requires WellFormed(tree) && node < |tree| && tree[node].LogicalExpression?
  {
    tree[tree[node].parent].ReturnStatement? && HasUnawaitedPromiseOperand(tree, types, node)
  }

  /** The node draws a report when the host visits it. */
  ghost predicate Reported(tree: Tree, types: Renderings, node: NodeId)
    requires WellFormed(tree) && node < |tree|
  {
    || (tree[node].CallExpression? && CallReported(tree, types, node))
    || (tree[node].LogicalExpression? && LogicalReported(tree, types, node))
  }

  predicate AllInTree(tree: Tree, order: seq<NodeId>)
  {
    forall k | 0 <= k < |order| :: order[k] < |tree|
  }

  /** The reports of a whole traversal visiting `order`. */
  ghost function Diagnostics(tree: Tree, types: Renderings, order: seq<NodeId>): (reports: seq<Report>)
    requires WellFormed(tree) && AllInTree(tree, order)
    decreases |order|
  {
    if order == [] then []
    else
      (if Reported(tree, types, order[0]) then [Report(order[0], MissingAwait)] else []) +
      Diagnostics(tree, types, order[1..])
  }

  /** The listener `create(context)` returns, over one file's tree and type
      service; `reports` collects what `context.report` receives. */
  class Listener {
    const tree: Tree
    const types: Renderings
    var reports: seq<Report>

    constructor (tree: Tree, types: Renderings)
      ensures this.tree == tree && this.types == types && reports == []
    {
      this.tree := tree;
      this.types := types;
      reports := [];
    }

    method VisitCallExpression(node: NodeId)
      requires WellFormed(tree) && node < |tree| && tree[node].CallExpression?
      modifies this
      ensures reports == old(reports) + if Reported(tree, types, node) then [Report(node, MissingAwait)] else []
    {
      if tree[tree[node].callee].Identifier? {
        var text := ReturnTypeText(types, node);
        if text.None? {
          return;
        }
        var isPromise := StartsWith(text.value, PromiseOfPrefix);
        if !isPromise {
          return;
        }

        var parent := tree[node].parent;
        if tree[parent].ReturnStatement? {
          return;
        }

        var check1 := IsHandledPromiseChain(tree, node);
        var check2 := IsPromiseAggregatorArgument(tree, node);
        if check1 || check2 {
          return;
        }

        reports := reports + [Report(node, MissingAwait)];
      } else {
        if CheckLogicalReturnPromise(tree, types, tree[node].parent) {
          reports := reports + [Report(node, MissingAwait)];
          return;
        }
        return;
      }
    }

    method VisitLogicalExpression(node: NodeId)
      requires WellFormed(tree) && node < |tree| && tree[node].LogicalExpression?
      modifies this
      ensures reports == old(reports) + if Reported(tree, types, node) then [Report(node, MissingAwait)] else []
    {
      if tree[tree[node].parent].ReturnStatement? {
        var found := FindUnawaitedPromiseCallsInLogical(tree, types, node);
        if found {
          reports := reports + [Report(node, MissingAwait)];
        }
      }
    }

    /** The host traversal: every node of `order` is handed to the visitor
        for its kind; other kinds have no visitor. */
    method Lint(order: seq<NodeId>)
      requires WellFormed(tree) && AllInTree(tree, order)
      modifies this
      ensures reports == old(reports) + Diagnostics(tree, types, order)
    {
      for k := 0 to |order|
        invariant reports + Diagnostics(tree, types, order[k..]) == old(reports) + Diagnostics(tree, types, order)
      {
        assert order[k..][1..] == order[k + 1..];
        var node := order[k];
        ghost var before := reports;
        ghost var head := if Reported(tree, types, node) then [Report(node, MissingAwait)] else [];
        ghost var rest := Diagnostics(tree, types, order[k + 1..]);
        if tree[node].CallExpression? {
          VisitCallExpression(node);
        } else if tree[node].LogicalExpression? {
          VisitLogicalExpression(node);
        }
        assert reports == before + head;
        assert (before + head) + rest == before + (head + rest);
      }
    }
  }

  /** A call on a bare identifier is reported only when the type service
      knows its return type and renders it as `Promise<…>`; a missing TS
      node, a missing signature, or another rendering keeps it silent. */
  lemma IdentifierCallNeedsPromiseRendering(tree: Tree, types: Renderings, node: NodeId)
    requires WellFormed(tree) && node < |tree| && tree[node].CallExpression?
    requires tree[tree[node].callee].Identifier?
    requires Reported(tree, types, node)
    ensures node in types && StartsWith(types[node], PromiseOfPrefix)
  {
  }

  /** `return f()` is never reported through the identifier path, however
      `f` is typed. */
  lemma ReturnedIdentifierCallIsNotReported(tree: Tree, types: Renderings, node: NodeId)
    requires WellFormed(tree) && node < |tree| && tree[node].CallExpression?
    requires tree[tree[node].callee].Identifier?
    requires tree[tree[node].parent].ReturnStatement?
    ensures !Reported(tree, types, node)
  {
  }

  /** Any other `Promise<…>` call on a bare identifier is reported exactly
      when no handler is met within MaxSteps and no strict ancestor is an
      aggregator call. */
  lemma UnreturnedIdentifierCallReport(tree: Tree, types: Renderings, node: NodeId)
    requires WellFormed(tree) && node < |tree| && tree[node].CallExpression?
    requires tree[tree[node].callee].Identifier? && RendersPromiseOf(types, node)
    requires !tree[tree[node].parent].ReturnStatement?
    ensures Reported(tree, types, node) <==>
            !ReachesHandler(tree, Some(tree[node].parent), MaxSteps) && !HasAggregatorAncestor(tree, node)
  {
  }

  /** A qualified call is reported only inside `return a || b` or
      `return a && b`, and only when one of the two immediate operands is an
      unawaited `Promise<…>` call; deeper operands are never looked at. */
  lemma QualifiedCallReport(tree: Tree, types: Renderings, node: NodeId)
    requires WellFormed(tree) && node < |tree| && tree[node].CallExpression?
    requires !tree[tree[node].callee].Identifier?
    ensures Reported(tree, types, node) <==>
            var p := tree[node].parent;
            && tree[p].LogicalExpression?
            && (tree[p].operator == "||" || tree[p].operator == "&&")
            && tree[tree[p].parent].ReturnStatement?
            && (IsUnawaitedPromiseCall(tree, types, tree[p].left) || IsUnawaitedPromiseCall(tree, types, tree[p].right))
  {
  }

  /** A qualified call reported inside a returned logical expression always
      comes with a report on that logical expression. */
  lemma QualifiedReportImpliesLogicalReport(tree: Tree, types: Renderings, node: NodeId)
    requires WellFormed(tree) && node < |tree| && tree[node].CallExpression?
    requires !tree[tree[node].callee].Identifier?
    requires Reported(tree, types, node)
    ensures tree[tree[node].parent].LogicalExpression? && Reported(tree, types, tree[node].parent)
  {
    DirectCheckImpliesScan(tree, types, tree[node].parent);
  }

  /** The reports of visiting `order` when exactly the nodes in `flagged`
      qualify. */
  function Emit(order: seq<NodeId>, flagged: set<NodeId>): (reports: seq<Report>)
    decreases |order|
  {
    if order == [] then []
    else (if order[0] in flagged then [Report(order[0], MissingAwait)] else []) + Emit(order[1..], flagged)
  }

  /** A traversal reports exactly as `Emit` does with the qualifying nodes. */
  lemma {:induction false} DiagnosticsAsEmit(tree: Tree, types: Renderings, order: seq<NodeId>, flagged: set<NodeId>)
    requires WellFormed(tree) && AllInTree(tree, order)
    requires forall k | 0 <= k < |order| :: Reported(tree, types, order[k]) <==> order[k] in flagged
    ensures Diagnostics(tree, types, order) == Emit(order, flagged)
    decreases |order|
  {
    if order != [] {
      DiagnosticsAsEmit(tree, types, order[1..], flagged);
    }
  }

  /** `Emit` makes one report on `i` per occurrence of `i` when it is
      flagged, and none otherwise. */
  lemma {:induction false} EmitCount(order: seq<NodeId>, flagged: set<NodeId>, i: NodeId)
    ensures multiset(Emit(order, flagged))[Report(i, MissingAwait)] ==
            if i in flagged then multiset(order)[i] else 0
    decreases |order|
  {
    if order != [] {
      var head := if order[0] in flagged then [Report(order[0], MissingAwait)] else [];
      var rest := Emit(order[1..], flagged);
      EmitCount(order[1..], flagged, i);
      assert Emit(order, flagged) == head + rest;
      assert multiset(head + rest) == multiset(head) + multiset(rest);
      assert order == [order[0]] + order[1..];
      assert multiset(order) == multiset([order[0]]) + multiset(order[1..]);
    }
  }

  /** The traversal reports node `i` as many times as it visits it when `i`
      qualifies, and never otherwise; in particular a node visited once is
      reported at most once. */
  lemma ReportsPerNode(tree: Tree, types: Renderings, order: seq<NodeId>, i: NodeId)
    requires WellFormed(tree) && AllInTree(tree, order) && i < |tree|
    ensures multiset(Diagnostics(tree, types, order))[Report(i, MissingAwait)] ==
            if Reported(tree, types, i) then multiset(order)[i] else 0
  {
    var flagged := set k | 0 <= k < |order| && Reported(tree, types, order[k]) :: order[k];
    DiagnosticsAsEmit(tree, types, order, flagged);
    EmitCount(order, flagged, i);
    if i in order {
      var k :| 0 <= k < |order| && order[k] == i;
      assert Reported(tree, types, i) <==> i in flagged;
    }
  }
}
