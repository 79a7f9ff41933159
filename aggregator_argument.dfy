/**
 isPromiseAggregatorArgument: a call counts as handled when some call
 above it in the tree is `Promise.all`, `Promise.race`, `Promise.allSettled`,
 `Promise.any`, `Promise.resolve` or `Promise.reject`. That covers a call
 passed directly, inside an array literal or from inside a callback, and
 also one nested deeper, such as `f()` in `Promise.resolve(g(f()))`.
 */
module AggregatorArgument {
  import opened EsTree

  /** The member names of `Promise` whose call handles its arguments,
      matched case-sensitively. */
  const PromiseAggregators: seq<string> := ["all", "race", "allSettled", "any", "resolve", "reject"]

  /** `c` is a call `Promise.<name>(…)` with `<name>` in PromiseAggregators:
      both names are identifiers, compared case-sensitively. */
  predicate IsAggregatorCall(tree: Tree, c: NodeId): (b: bool)
    requires WellFormed(tree) && c < |tree|
    ensures b ==> && tree[c].CallExpression?
                  && tree[tree[c].callee].MemberExpression?
                  && NameOf(tree[tree[tree[c].callee].obj]) == Some("Promise")
                  && NameOf(tree[tree[tree[c].callee].property]) in
                       {Some("all"), Some("race"), Some("allSettled"), Some("any"), Some("resolve"), Some("reject")}
  {
    && tree[c].CallExpression?
    && var callee := tree[c].callee;
    && tree[callee].MemberExpression?
    && tree[tree[callee].obj].Identifier?
    && tree[tree[callee].obj].name == "Promise"
    && tree[tree[callee].property].Identifier?
    && tree[tree[callee].property].name in PromiseAggregators
  }

  /** Some strict ancestor of `i` is an aggregator call. */
  ghost predicate HasAggregatorAncestor(tree: Tree, i: NodeId)
    requires WellFormed(tree) && i < |tree|
  {
    exists a: NodeId | a < |tree| :: IsStrictAncestor(tree, a, i) && IsAggregatorCall(tree, a)
  }

  /** Moving `current` to its parent loses exactly the parent as a candidate. */
  lemma AggregatorAncestorStep(tree: Tree, i: NodeId)
    requires WellFormed(tree) && i < |tree| && !tree[i].Program?
    ensures HasAggregatorAncestor(tree, i) <==>
            IsAggregatorCall(tree, tree[i].parent) || HasAggregatorAncestor(tree, tree[i].parent)
  {
    var p := tree[i].parent;
    if HasAggregatorAncestor(tree, i) && !IsAggregatorCall(tree, p) {
      var a: NodeId :| a < |tree| && IsStrictAncestor(tree, a, i) && IsAggregatorCall(tree, a);
      assert a != p;
      assert IsStrictAncestor(tree, a, p);
    }
    if HasAggregatorAncestor(tree, p) {
      var a: NodeId :| a < |tree| && IsStrictAncestor(tree, a, p) && IsAggregatorCall(tree, a);
      assert IsStrictAncestor(tree, a, i);
    }
    if IsAggregatorCall(tree, p) {
      assert IsStrictAncestor(tree, p, i);
    }
  }

  /** The root has no ancestors at all. */
  lemma RootHasNoAggregatorAncestor(tree: Tree, i: NodeId)
    requires WellFormed(tree) && i < |tree| && tree[i].Program?
    ensures !HasAggregatorAncestor(tree, i)
  {
  }

  /** The array-literal test of the loop never changes its answer: an array
      whose parent is an aggregator call is below that call anyway. */
  lemma {:induction false} ArrayBranchIsSubsumed(tree: Tree, i: NodeId)
    requires WellFormed(tree) && i < |tree| && !tree[i].Program?
    requires tree[tree[i].parent].ArrayExpression?
    requires IsAggregatorCall(tree, tree[tree[i].parent].parent)
    ensures HasAggregatorAncestor(tree, i)
  {
    var p := tree[i].parent;
    var c := tree[p].parent;
    assert IsStrictAncestor(tree, c, p);
    assert IsStrictAncestor(tree, c, i);
  }

  /** isPromiseAggregatorArgument(node): walks every strict ancestor of
      `node`, and answers true exactly when one of them is an aggregator call. */
  method IsPromiseAggregatorArgument(tree: Tree, node: NodeId) returns (r: bool)
    requires WellFormed(tree) && node < |tree|
    ensures r <==> HasAggregatorAncestor(tree, node)
  {
    var current: NodeId := node;
    while !tree[current].Program?
      invariant current < |tree|
      invariant HasAggregatorAncestor(tree, current) == HasAggregatorAncestor(tree, node)
      decreases current
    {
      var parent := tree[current].parent;
      AggregatorAncestorStep(tree, current);

      if tree[parent].ArrayExpression? && tree[tree[parent].parent].CallExpression? {
        var callExpr := tree[parent].parent;
        if IsAggregatorCall(tree, callExpr) {
          ArrayBranchIsSubsumed(tree, current);
          return true;
        }
      }

      if tree[parent].CallExpression? {
        if IsAggregatorCall(tree, parent) {
          return true;
        }
      }

      if tree[parent].ArrowFunctionExpression? || tree[parent].FunctionExpression? {
        current := parent;
        continue;
      }

      current := parent;
    }
    RootHasNoAggregatorAncestor(tree, current);
    return false;
  }
}
