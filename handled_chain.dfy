/**
 isHandledPromiseChain: a call counts as handled when a bounded walk that
 starts at its parent meets an `await`, or a `.then`, `.catch` or
 `.finally` member access, before it stops. The walk climbs through
 parents, but steps down into the callee of a method call and into the
 object of a member access, so it has no structural measure: a budget of
 MaxSteps visits is what makes it end.
 */
module HandledChain {
  import opened EsTree

  const MaxSteps: nat := 30

  /** The member names that attach a handler. */
  const HandlerNames: seq<string> := ["then", "catch", "finally"]

  /** Visiting `c` ends the walk with "handled": an `await`, or a member
      access whose property is named `then`, `catch` or `finally` (the name
      of a private identifier counts too). A handler is never a node at
      which the walk would have stopped. */
  predicate IsHandler(tree: Tree, c: NodeId): (b: bool)
    requires WellFormed(tree) && c < |tree|
    ensures tree[c].AwaitExpression? ==> b
    ensures tree[c].MemberExpression? ==>
              (b <==> NameOf(tree[tree[c].property]) in {Some("then"), Some("catch"), Some("finally")})
    ensures !tree[c].AwaitExpression? && !tree[c].MemberExpression? ==> !b
    ensures b ==> Next(tree, c).Some?
  {
    || tree[c].AwaitExpression?
    || (tree[c].MemberExpression? &&
        var name := NameOf(tree[tree[c].property]);
        name.Some? && name.value in HandlerNames)
  }

  /** Where the walk goes after visiting `c` when `c` is not a handler:
      into the callee of a method call, into the object of a member access,
      nowhere after an expression statement or the root, else to the parent. */
  function Next(tree: Tree, c: NodeId): (next: Option<NodeId>)
    requires WellFormed(tree) && c < |tree|
    ensures next.Some? ==> next.value < |tree|
    ensures tree[c].ExpressionStatement? || tree[c].Program? <==> next.None?
  {
    if tree[c].CallExpression? && tree[tree[c].callee].MemberExpression? then Some(tree[c].callee)
    else if tree[c].MemberExpression? then Some(tree[c].obj)
    else if tree[c].ExpressionStatement? then None
    else ParentOf(tree[c])
  }

  predicate InTree(tree: Tree, at: Option<NodeId>)
  {
    at.Some? ==> at.value < |tree|
  }

  /** The node the walk from `start` visits at its `k`-th iteration, had it
      no budget and ignored handlers; None once it has stopped. */
  function Trail(tree: Tree, start: Option<NodeId>, k: nat): (at: Option<NodeId>)
    requires WellFormed(tree) && InTree(tree, start)
    ensures InTree(tree, at)
    decreases k
  {
    if k == 0 then start
    else match start
      case None => None
      case Some(c) => Trail(tree, Next(tree, c), k - 1)
  }

  /** One of the first `budget` nodes the walk from `start` visits is a handler. */
  ghost predicate ReachesHandler(tree: Tree, start: Option<NodeId>, budget: nat)
    requires WellFormed(tree) && InTree(tree, start)
  {
    exists k: nat | k < budget :: Trail(tree, start, k).Some? && IsHandler(tree, Trail(tree, start, k).value)
  }

  /** One iteration of the loop: a handler answers at once; otherwise the
      question moves to the next node with one step less. */
  lemma ReachesHandlerStep(tree: Tree, c: NodeId, budget: nat)
    requires WellFormed(tree) && c < |tree|
    ensures ReachesHandler(tree, Some(c), budget + 1) <==>
            IsHandler(tree, c) || ReachesHandler(tree, Next(tree, c), budget)
  {
    var start := Some(c);
    if ReachesHandler(tree, start, budget + 1) && !IsHandler(tree, c) {
      var k: nat :| k < budget + 1 && Trail(tree, start, k).Some? && IsHandler(tree, Trail(tree, start, k).value);
      assert k != 0;
      assert Trail(tree, start, k) == Trail(tree, Next(tree, c), k - 1);
    }
    if ReachesHandler(tree, Next(tree, c), budget) {
      var k: nat :| k < budget && Trail(tree, Next(tree, c), k).Some? && IsHandler(tree, Trail(tree, Next(tree, c), k).value);
      assert Trail(tree, start, k + 1) == Trail(tree, Next(tree, c), k);
    }
    if IsHandler(tree, c) {
      assert Trail(tree, start, 0) == start;
    }
  }

  /** A walk that has stopped, or has no budget left, never finds a handler. */
  lemma NoHandlerWithoutBudgetOrNode(tree: Tree, start: Option<NodeId>, budget: nat)
    requires WellFormed(tree) && InTree(tree, start)
    requires start.None? || budget == 0
    ensures !ReachesHandler(tree, start, budget)
  {
    if start.None? {
      forall k: nat | k < budget ensures Trail(tree, start, k).None? {
      }
    }
  }

  /** isHandledPromiseChain(node): the walk from `node.parent` meets a handler
      within MaxSteps iterations. */
  method IsHandledPromiseChain(tree: Tree, node: NodeId) returns (handled: bool)
    requires WellFormed(tree) && node < |tree|
    ensures handled <==> ReachesHandler(tree, ParentOf(tree[node]), MaxSteps)
  {
    var current := ParentOf(tree[node]);
    var steps := 0;

    while current.Some? && steps < MaxSteps
      invariant InTree(tree, current)
      invariant steps <= MaxSteps
      invariant ReachesHandler(tree, current, MaxSteps - steps) ==
                ReachesHandler(tree, ParentOf(tree[node]), MaxSteps)
      decreases MaxSteps - steps
    {
      var c := current.value;
      ReachesHandlerStep(tree, c, MaxSteps - steps - 1);
      steps := steps + 1;

      if tree[c].AwaitExpression? {
        return true;
      }

      if tree[c].MemberExpression? {
        var name := NameOf(tree[tree[c].property]);
        if name.Some? && name.value in HandlerNames {
          return true;
        }
      }

      if tree[c].CallExpression? && tree[tree[c].callee].MemberExpression? {
        current := Some(tree[c].callee);
        continue;
      }

      if tree[c].MemberExpression? {
        current := Some(tree[c].obj);
        continue;
      }

      if tree[c].ExpressionStatement? {
        NoHandlerWithoutBudgetOrNode(tree, None, MaxSteps - steps);
        break;
      }

      current := ParentOf(tree[c]);
    }
    if current.None? || steps == MaxSteps {
      NoHandlerWithoutBudgetOrNode(tree, current, MaxSteps - steps);
    }
    return false;
  }

  /** More budget never turns a handled call into an unhandled one. */
  lemma {:induction false} BudgetMonotone(tree: Tree, start: Option<NodeId>, budget: nat, more: nat)
    requires WellFormed(tree) && InTree(tree, start)
    requires budget <= more
    ensures ReachesHandler(tree, start, budget) ==> ReachesHandler(tree, start, more)
  {
    if ReachesHandler(tree, start, budget) {
      var k: nat :| k < budget && Trail(tree, start, k).Some? && IsHandler(tree, Trail(tree, start, k).value);
      assert k < more;
    }
  }
}
