/**
 * _bst_clone of srcs/rb_tree.hpp: a node-by-node copy of a subtree into
 * fresh nodes, keeping every value and colour.
 */
module RbClone {
  import opened Wrappers
  import opened RbShape

  /** `c` has the shape, colours and values of `t` (its nodes may differ). */
  ghost predicate Copied<T>(c: Tree<T>, t: Tree<T>) {
    match t
    case Nil => c.Nil?
    case Node(l, _, col, v, r) =>
      c.Node? && c.color == col && c.value == v && Copied(c.left, l) && Copied(c.right, r)
  }

  /** The heap fields of the nodes of `t` follow `t`, and its top hangs from `p`. */
  ghost predicate HeapLinked<T>(t: Tree<T>, p: RBNode?<T>)
    reads Nodes(t)
  {
    match t
    case Nil => true
    case Node(l, n, c, v, r) =>
      && n.left == Top(l) && n.right == Top(r) && n.parent == p && n.color == c && n.value == Some(v)
      && HeapLinked(l, n) && HeapLinked(r, n)
  }

  /**
   * _bst_clone(root, NULL) as the copy constructor and operator= call it: a
   * fresh copy of the whole tree `t` whose root hangs from NULL, with the
   * record of its heap fields.
   */
  method CloneTree<T>(node: RBNode?<T>, ghost t: Tree<T>) returns (r: RBNode?<T>, ghost c: Tree<T>, ghost record: Links<T>)
    requires HeapTree(t) && node == Top(t)
    ensures r == Top(c) && Copied(c, t) && Distinct(c) && fresh(Nodes(c))
    ensures Linked(c, null, record) && forall n :: n in Nodes(c) ==> n in record && record[n] == FieldsOf(n)
    ensures Values(c) == Values(t) && RootBlack(c) == RootBlack(t)
  {
    r, c := CloneNodes(node, null, t);
    CopiedKeeps(c, t);
    record := MirrorOf(c, null);
  }

  /**
   * _bst_clone(node, parent): a fresh copy of the subtree `t` below `node`
   * whose top points back to `parent`; the old nodes are left alone.
   */
  method CloneNodes<T>(node: RBNode?<T>, parent: RBNode?<T>, ghost t: Tree<T>) returns (r: RBNode?<T>, ghost c: Tree<T>)
    requires HeapTree(t) && node == Top(t)
    ensures r == Top(c) && Copied(c, t) && Distinct(c) && fresh(Nodes(c))
    ensures HeapLinked(c, parent)
    decreases t, 1
  {
    if node == null {
      return null, Nil;
    }
    NodesAllocated(t);
    var n := new RBNode(node.value);
    assert n !in Nodes(t);
    n.parent, n.color := parent, node.color;
    ghost var cl, cr := CloneChildren(n, node, t);
    c := Node(cl, n, t.color, t.value, cr);
    r := n;
    assert fresh(Nodes(cl) + {n} + Nodes(cr));
    assert Nodes(c) == Nodes(cl) + {n} + Nodes(cr);
    Assemble(c, parent);
  }

  /** The two recursive calls of _bst_clone and the links from the new node `n` to the copies. */
  method CloneChildren<T>(n: RBNode<T>, node: RBNode<T>, ghost t: Tree<T>) returns (ghost cl: Tree<T>, ghost cr: Tree<T>)
    requires t.Node? && node == t.node && HeapTree(t) && n !in Nodes(t)
    modifies n
    ensures n.parent == old(n.parent) && n.color == old(n.color) && n.value == old(n.value)
    ensures n.left == Top(cl) && n.right == Top(cr)
    ensures Copied(cl, t.left) && Copied(cr, t.right) && Distinct(cl) && Distinct(cr)
    ensures Nodes(cl) !! Nodes(cr) && n !in Nodes(cl) && n !in Nodes(cr)
    ensures fresh(Nodes(cl)) && fresh(Nodes(cr))
    ensures HeapLinked(cl, n) && HeapLinked(cr, n)
    decreases t, 0
  {
    NodesAllocated(t);
    var left, right;
    left, cl := CloneNodes(node.left, n, t.left);
    NodesAllocated(cl);
    right, cr := CloneNodes(node.right, n, t.right);
    SetChildren(n, left, right, cl, cr);
  }

  /** `new_node->left = ...; new_node->right = ...;` once both copies hang from `n`. */
  method SetChildren<T>(n: RBNode<T>, left: RBNode?<T>, right: RBNode?<T>, ghost cl: Tree<T>, ghost cr: Tree<T>)
    requires n !in Nodes(cl) && n !in Nodes(cr) && HeapLinked(cl, n) && HeapLinked(cr, n)
    modifies n
    ensures n.left == left && n.right == right
    ensures n.parent == old(n.parent) && n.color == old(n.color) && n.value == old(n.value)
    ensures HeapLinked(cl, n) && HeapLinked(cr, n)
  {
    n.left, n.right := left, right;
  }

  /** A node whose fields follow `t`'s top, over linked subtrees, makes `t` linked. */
  lemma Assemble<T>(t: Tree<T>, p: RBNode?<T>)
    requires t.Node? && t.node.left == Top(t.left) && t.node.right == Top(t.right) && t.node.parent == p
    requires t.node.color == t.color && t.node.value == Some(t.value)
    requires HeapLinked(t.left, t.node) && HeapLinked(t.right, t.node)
    ensures HeapLinked(t, p)
  {
  }

  /** The nodes of a tree are allocated objects (so a fresh node is none of them). */
  lemma {:induction false} NodesAllocated<T>(t: Tree<T>)
    ensures forall o :: o in Nodes(t) ==> allocated(o)
  {
    if t.Node? {
      NodesAllocated(t.left);
      NodesAllocated(t.right);
    }
  }

  /** A copy holds the same values in the same order and keeps the colour invariants. */
  lemma {:induction false} CopiedKeeps<T>(c: Tree<T>, t: Tree<T>)
    requires Copied(c, t)
    ensures Values(c) == Values(t) && |NodeSeq(c)| == |NodeSeq(t)|
    ensures RootBlack(c) == RootBlack(t)
    ensures forall red: bool :: RedRule(c, red) == RedRule(t, red)
    ensures BlackHeight(c) == BlackHeight(t) && BlackBalanced(c) == BlackBalanced(t)
  {
    if t.Node? {
      CopiedKeeps(c.left, t.left);
      CopiedKeeps(c.right, t.right);
    }
  }

  /** Tree nodes whose heap fields follow the shape are linked in any record that mirrors the heap. */
  lemma {:induction false} HeapLinkedLinked<T>(t: Tree<T>, p: RBNode?<T>, links: Links<T>)
    requires HeapLinked(t, p)
    requires forall n :: n in Nodes(t) ==> n in links && links[n] == FieldsOf(n)
    ensures Linked(t, p, links)
  {
    if t.Node? {
      HeapLinkedLinked(t.left, t.node, links);
      HeapLinkedLinked(t.right, t.node, links);
    }
  }

  /** The record of the heap fields of a cloned subtree, which is linked along it. */
  lemma MirrorOf<T>(c: Tree<T>, p: RBNode?<T>) returns (links: Links<T>)
    requires HeapLinked(c, p)
    ensures Linked(c, p, links)
    ensures forall n :: n in Nodes(c) ==> n in links && links[n] == FieldsOf(n)
  {
    links := map n | n in Nodes(c) :: FieldsOf(n);
    HeapLinkedLinked(c, p, links);
  }
}
