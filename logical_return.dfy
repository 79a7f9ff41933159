/**
 The two checks on `return a || b` and `return a && b`:
 checkLogicalReturnPromise looks at the two immediate operands only and
 asks for a `Promise<…>` rendering; findUnawaitedPromiseCallsInLogical
 descends through nested logical operands and asks only for a rendering
 that starts with `Promise`.
 */
module LogicalReturn {
  import opened EsTree
  import opened TypeOracle

  /** isUnawaitedPromiseCall(expr): a call, not directly under `await`,
      whose return type renders as `Promise<…>`. Every such call also
      passes the looser test that `check` applies. */
  predicate IsUnawaitedPromiseCall(tree: Tree, types: Renderings, e: NodeId): (b: bool)
    requires WellFormed(tree) && e < |tree|
    ensures b ==> IsUnawaitedPromiseLikeCall(tree, types, e)
  {
    && tree[e].CallExpression?
    && !tree[tree[e].parent].AwaitExpression?
    && RendersPromiseOf(types, e)
  }

  /** checkLogicalReturnPromise(n): `n` is `a || b` or `a && b`, returned
      directly, and one of `a`, `b` is an unawaited `Promise<…>` call. Such
      an operand passes `check`'s test as well, and no other operator (`??`)
      and no expression that is not returned directly ever passes. */
  predicate CheckLogicalReturnPromise(tree: Tree, types: Renderings, n: NodeId): (b: bool)
    requires WellFormed(tree) && n < |tree|
    ensures b ==> tree[n].LogicalExpression? &&
                  (IsUnawaitedPromiseLikeCall(tree, types, tree[n].left) || IsUnawaitedPromiseLikeCall(tree, types, tree[n].right))
    ensures tree[n].LogicalExpression? && tree[n].operator == "??" ==> !b
    ensures tree[n].LogicalExpression? && !tree[tree[n].parent].ReturnStatement? ==> !b
  {
    && tree[n].LogicalExpression?
    && (tree[n].operator == "||" || tree[n].operator == "&&")
    && tree[tree[n].parent].ReturnStatement?
    && (IsUnawaitedPromiseCall(tree, types, tree[n].left) || IsUnawaitedPromiseCall(tree, types, tree[n].right))
  }

  /** The test `check` applies to a call: not directly under `await`, and a
      return type whose rendering starts with `Promise`. A call whose return
      type is unknown, or whose parent is an `await`, never passes. */
  predicate IsUnawaitedPromiseLikeCall(tree: Tree, types: Renderings, e: NodeId): (b: bool)
    requires WellFormed(tree) && e < |tree|
    ensures b ==> e in types
    ensures !tree[e].Program? && tree[tree[e].parent].AwaitExpression? ==> !b
  {
    && tree[e].CallExpression?
    && !tree[tree[e].parent].AwaitExpression?
    && RendersPromise(types, e)
  }

  /** `c` is `e` itself or is reached from `e` by descending only through the
      operands of logical expressions (of any operator). */
  predicate ReachableThroughLogical(tree: Tree, e: NodeId, c: NodeId)
    requires WellFormed(tree) && e < |tree|
    decreases |tree| - e
  {
    || c == e
    || (&& tree[e].LogicalExpression?
        && (ReachableThroughLogical(tree, tree[e].left, c) || ReachableThroughLogical(tree, tree[e].right, c)))
  }

  /** Some call reached from `e` through logical operands passes `check`'s test. */
  ghost predicate HasUnawaitedPromiseOperand(tree: Tree, types: Renderings, e: NodeId)
    requires WellFormed(tree) && e < |tree|
  {
    exists c: NodeId | c < |tree| :: ReachableThroughLogical(tree, e, c) && IsUnawaitedPromiseLikeCall(tree, types, c)
  }

  /** What one call of `check(expr)` decides: a call is judged alone, a
      logical expression by its two operands, anything else contributes
      nothing. */
  lemma OperandStep(tree: Tree, types: Renderings, e: NodeId)
    requires WellFormed(tree) && e < |tree|
    ensures tree[e].CallExpression? ==>
              (HasUnawaitedPromiseOperand(tree, types, e) <==> IsUnawaitedPromiseLikeCall(tree, types, e))
    ensures tree[e].LogicalExpression? ==>
              (HasUnawaitedPromiseOperand(tree, types, e) <==>
               HasUnawaitedPromiseOperand(tree, types, tree[e].left) ||
               HasUnawaitedPromiseOperand(tree, types, tree[e].right))
    ensures !tree[e].CallExpression? && !tree[e].LogicalExpression? ==> !HasUnawaitedPromiseOperand(tree, types, e)
  {
    if HasUnawaitedPromiseOperand(tree, types, e) {
      var c: NodeId :| c < |tree| && ReachableThroughLogical(tree, e, c) && IsUnawaitedPromiseLikeCall(tree, types, c);
      if tree[e].LogicalExpression? && c == e {
        assert false;
      }
    }
    if tree[e].LogicalExpression? {
      var l, r := tree[e].left, tree[e].right;
      if HasUnawaitedPromiseOperand(tree, types, l) {
        var c: NodeId :| c < |tree| && ReachableThroughLogical(tree, l, c) && IsUnawaitedPromiseLikeCall(tree, types, c);
        assert ReachableThroughLogical(tree, e, c);
      }
      if HasUnawaitedPromiseOperand(tree, types, r) {
        var c: NodeId :| c < |tree| && ReachableThroughLogical(tree, r, c) && IsUnawaitedPromiseLikeCall(tree, types, c);
        assert ReachableThroughLogical(tree, e, c);
      }
    }
    if IsUnawaitedPromiseLikeCall(tree, types, e) {
      assert ReachableThroughLogical(tree, e, e);
    }
  }

  /** The closure of findUnawaitedPromiseCallsInLogical: the captured `found`
      flag and the recursive `check`. */
  class LogicalScan {
    const tree: Tree
    const types: Renderings
    var found: bool

    constructor (tree: Tree, types: Renderings)
      ensures this.tree == tree && this.types == types && !found
    {
      this.tree := tree;
      this.types := types;
      found := false;
    }

    /** check(expr): sets `found` when some call reached from `expr` through
        logical operands is an unawaited Promise call; never clears it. */
    method Check(expr: NodeId)
      requires WellFormed(tree) && expr < |tree|
      modifies this
      ensures found <==> old(found) || HasUnawaitedPromiseOperand(tree, types, expr)
      decreases |tree| - expr
    {
      OperandStep(tree, types, expr);
      if tree[expr].CallExpression? {
        if !tree[tree[expr].parent].AwaitExpression? {
          var text := ReturnTypeText(types, expr);
          if text.Some? && StartsWith(text.value, PromisePrefix) {
            found := true;
          }
        }
      } else if tree[expr].LogicalExpression? {
        Check(tree[expr].left);
        Check(tree[expr].right);
      }
    }
  }

  /** findUnawaitedPromiseCallsInLogical(node): some call reached from `node`
      through logical operands is not directly awaited and renders as a
      Promise. */
  method FindUnawaitedPromiseCallsInLogical(tree: Tree, types: Renderings, node: NodeId) returns (found: bool)
    requires WellFormed(tree) && node < |tree|
    ensures found <==> HasUnawaitedPromiseOperand(tree, types, node)
  {
    var scan := new LogicalScan(tree, types);
    scan.Check(node);
    found := scan.found;
  }

  /** In a linked tree the `await` guard of both checks never fires on an
      operand: an operand's parent is the logical expression itself, so
      `await f() || g()` leaves `await f()` out because it is not a call,
      and the guard changes no verdict. */
  lemma OperandsAreNeverDirectlyAwaited(tree: Tree, types: Renderings, n: NodeId)
    requires WellFormed(tree) && Linked(tree) && n < |tree| && tree[n].LogicalExpression?
    ensures IsUnawaitedPromiseCall(tree, types, tree[n].left) <==>
            tree[tree[n].left].CallExpression? && RendersPromiseOf(types, tree[n].left)
    ensures IsUnawaitedPromiseCall(tree, types, tree[n].right) <==>
            tree[tree[n].right].CallExpression? && RendersPromiseOf(types, tree[n].right)
    ensures IsUnawaitedPromiseLikeCall(tree, types, tree[n].left) <==>
            tree[tree[n].left].CallExpression? && RendersPromise(types, tree[n].left)
    ensures IsUnawaitedPromiseLikeCall(tree, types, tree[n].right) <==>
            tree[tree[n].right].CallExpression? && RendersPromise(types, tree[n].right)
  {
    assert ChildrenPointBack(tree, n);
  }

  /** Every operand the direct check flags is also found by the recursive
      scan, so a report on a qualified call inside `return a || b` always
      comes with a report on the logical expression itself. */
  lemma {:induction false} DirectCheckImpliesScan(tree: Tree, types: Renderings, n: NodeId)
    requires WellFormed(tree) && n < |tree|
    requires CheckLogicalReturnPromise(tree, types, n)
    ensures HasUnawaitedPromiseOperand(tree, types, n)
  {
    var l, r := tree[n].left, tree[n].right;
    var c := if IsUnawaitedPromiseCall(tree, types, l) then l else r;
    PromiseOfIsPromise(types, c);
    assert ReachableThroughLogical(tree, c, c);
    assert ReachableThroughLogical(tree, n, c);
  }
}
