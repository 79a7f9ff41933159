/**
 The parent-linked ESTree syntax tree the rule walks, stored as an arena:
 a tree is a sequence of nodes and every link (parent, callee, object,
 property, left, right) is an index into that sequence.

 Only the node kinds the rule distinguishes get their own constructor;
 every other kind is `Other` (or `Literal`). Only the child links the rule
 reads are kept: it never descends into call arguments, array elements or
 function bodies.
 */
module EsTree {

  datatype Option<+T> = None | Some(value: T)

  type NodeId = nat

  datatype Node =
    | Program
    | ExpressionStatement(parent: NodeId)
    | ReturnStatement(parent: NodeId)
    | CallExpression(parent: NodeId, callee: NodeId)
      /** `obj` is ESTree's `object`, a reserved word in Dafny */
    | MemberExpression(parent: NodeId, obj: NodeId, property: NodeId)
    | LogicalExpression(parent: NodeId, operator: string, left: NodeId, right: NodeId)
    | AwaitExpression(parent: NodeId)
    | ArrayExpression(parent: NodeId)
    | ArrowFunctionExpression(parent: NodeId)
    | FunctionExpression(parent: NodeId)
    | Identifier(parent: NodeId, name: string)
    | PrivateIdentifier(parent: NodeId, name: string)
    | Literal(parent: NodeId)
    | Other(parent: NodeId)

  type Tree = seq<Node>

  /** `node.parent`: absent only for the root `Program`. */
  function ParentOf(n: Node): (parent: Option<NodeId>)
  {
    if n.Program? then None else Some(n.parent)
  }

  /** `node.name`: only identifiers carry one. */
  function NameOf(n: Node): (name: Option<string>)
  {
    if n.Identifier? || n.PrivateIdentifier? then Some(n.name) else None
  }

  /** Node `n`, stored at index `i` of a tree of `size` nodes, has its parent
      before it and its children after it, all inside the tree. */
  predicate Fits(n: Node, i: NodeId, size: nat)
  {
    && (n.Program? || n.parent < i)
    && (n.CallExpression? ==> i < n.callee < size)
    && (n.MemberExpression? ==> i < n.obj < size && i < n.property < size)
    && (n.LogicalExpression? ==> i < n.left < size && i < n.right < size)
  }

  /** Every link stays inside the arena, and parents precede their children,
      so the parent relation is acyclic and every upward walk ends at a root. */
  predicate WellFormed(tree: Tree)
  {
    forall i {:trigger tree[i]} | 0 <= i < |tree| :: Fits(tree[i], i, |tree|)
  }

  /** The child links the rule reads point back at their parent, as ESTree
      parent links do. */
  predicate ChildrenPointBack(tree: Tree, i: NodeId)
    requires WellFormed(tree) && i < |tree|
  {
    match tree[i]
    case CallExpression(_, callee) => ParentOf(tree[callee]) == Some(i)
    case MemberExpression(_, obj, property) =>
      ParentOf(tree[obj]) == Some(i) && ParentOf(tree[property]) == Some(i)
    case LogicalExpression(_, _, left, right) =>
      ParentOf(tree[left]) == Some(i) && ParentOf(tree[right]) == Some(i)
    case _ => true
  }

  predicate Linked(tree: Tree)
    requires WellFormed(tree)
  {
    forall i | 0 <= i < |tree| :: ChildrenPointBack(tree, i)
  }

  /** `a` is reached from `i` by following parent links at least once. */
  predicate IsStrictAncestor(tree: Tree, a: NodeId, i: NodeId)
    requires WellFormed(tree) && i < |tree|
    decreases i
  {
    match ParentOf(tree[i])
    case None => false
    case Some(p) => p == a || IsStrictAncestor(tree, a, p)
  }

  /** Parent links only ever lead to smaller indices, so a walk up the
      tree ends at the root. */
  lemma {:induction false} AncestorPrecedes(tree: Tree, a: NodeId, i: NodeId)
    requires WellFormed(tree) && i < |tree|
    requires IsStrictAncestor(tree, a, i)
    ensures a < i
    decreases i
  {
    var p := tree[i].parent;
    if p != a {
      AncestorPrecedes(tree, a, p);
    }
  }
}
