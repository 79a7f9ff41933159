/**
 What the 30-step budget of isHandledPromiseChain means for a program:
 `(delayedStringAsync() as T … as T).then(cb);` with `d` nested casts. The
 walk from the inner call climbs one cast per step and meets the `.then`
 member access after `d` steps, so the handler is seen only while `d` is
 below MaxSteps; from there on the call is reported although it is handled.
 */
module StepBudget {
  import opened EsTree
  import opened TypeOracle
  import opened AggregatorArgument
  import opened HandledChain
  import opened RequireAwaitForPromise
  import opened Fixtures

  /** Node 3 is the `.then` access, nodes 5 to 4 + d the casts (outermost
      first), node 5 + d the inner call. */
  function CastChain(d: nat): (t: Tree)
    ensures |t| == d + 7
  {
    [ Program,
      ExpressionStatement(0),
      CallExpression(1, 3),
      MemberExpression(2, 5, 4),
      Identifier(3, "then") ]
    + seq(d, k requires 0 <= k => Other(if k == 0 then 3 else 4 + k))
    + [ CallExpression(if d == 0 then 3 else 4 + d, 6 + d),
        Identifier(5 + d, Callee) ]
  }

  lemma CastChainNodes(d: nat)
    ensures WellFormed(CastChain(d))
    ensures CastChain(d)[3] == MemberExpression(2, 5, 4) && CastChain(d)[4] == Identifier(3, "then")
    ensures forall q | 5 <= q < 5 + d :: CastChain(d)[q] == Other(if q == 5 then 3 else q - 1)
    ensures CastChain(d)[5 + d] == CallExpression(if d == 0 then 3 else 4 + d, 6 + d)
    ensures CastChain(d)[6 + d] == Identifier(5 + d, Callee)
  {
    var t := CastChain(d);
    forall i | 0 <= i < |t| ensures Fits(t[i], i, |t|) {
      if 5 <= i < 5 + d {
        assert t[i] == Other(if i == 5 then 3 else i - 1);
      }
    }
  }

  /** The walk that starts on the `.then` access stops at once when it may
      take a step. */
  lemma HandlerAtTop(d: nat, budget: nat)
    requires WellFormed(CastChain(d)) && CastChain(d)[3] == MemberExpression(2, 5, 4)
    requires CastChain(d)[4] == Identifier(3, "then")
    ensures ReachesHandler(CastChain(d), Some(3), budget) <==> budget > 0
  {
    var t := CastChain(d);
    if budget == 0 {
      NoHandlerWithoutBudgetOrNode(t, Some(3), 0);
    } else {
      assert IsHandler(t, 3);
      ReachesHandlerStep(t, 3, budget - 1);
    }
  }

  /** From the cast at node `q` the handler is `q - 4` steps away. */
  lemma {:induction false} HandlerDistance(d: nat, q: NodeId, budget: nat)
    requires WellFormed(CastChain(d)) && CastChain(d)[3] == MemberExpression(2, 5, 4)
    requires CastChain(d)[4] == Identifier(3, "then")
    requires forall q | 5 <= q < 5 + d :: CastChain(d)[q] == Other(if q == 5 then 3 else q - 1)
    requires 5 <= q < 5 + d
    ensures ReachesHandler(CastChain(d), Some(q), budget) <==> q - 4 < budget
    decreases q
  {
    var t := CastChain(d);
    if budget == 0 {
      NoHandlerWithoutBudgetOrNode(t, Some(q), 0);
    } else {
      ReachesHandlerStep(t, q, budget - 1);
      if q == 5 {
        HandlerAtTop(d, budget - 1);
      } else {
        HandlerDistance(d, q - 1, budget - 1);
      }
    }
  }

  /** No call of the chain is a `Promise.<aggregator>(…)` call. */
  lemma NoAggregatorInChain(d: nat)
    ensures WellFormed(CastChain(d))
    ensures !HasAggregatorAncestor(CastChain(d), 5 + d)
  {
    CastChainNodes(d);
    var t := CastChain(d);
    forall a: NodeId | a < |t| ensures !IsAggregatorCall(t, a) {
      if a == 2 {
        assert !t[5].Identifier?;
      }
    }
  }

  /** The inner call is reported exactly when the handler lies MaxSteps or
      more casts away: the budget turns a handled call into a report. */
  lemma CastChainVerdict(d: nat)
    ensures WellFormed(CastChain(d))
    ensures Reported(CastChain(d), map[5 + d := PromiseOfString], 5 + d) <==> d >= MaxSteps
  {
    CastChainNodes(d);
    NoAggregatorInChain(d);
    var t, ty := CastChain(d), map[5 + d := PromiseOfString];
    assert RendersPromiseOf(ty, 5 + d);
    if d == 0 {
      HandlerAtTop(d, MaxSteps);
    } else {
      HandlerDistance(d, 4 + d, MaxSteps);
    }
  }
}
