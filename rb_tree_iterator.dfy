/**
 * srcs/iterators/rb_tree_iterator.hpp: the cursor over a red-black tree.
 *
 * A cursor holds one node.  `++` moves to the in-order successor and `--`
 * to the predecessor by walking `left`, `right` and `parent` links; the
 * sentinel is the position after the last element.  Positions are stated
 * through `RBTree.At`: position `k` is the node of the k-th element and
 * position |Contents()| is the sentinel.
 */
module RbTreeIterator {
  import opened Wrappers
  import opened RbShape
  import opened RedBlackTree

  class TreeIterator<T(!new)> {
    var node: RBNode?<T>

    /** rb_tree_iterator(node). */
    constructor (n: RBNode?<T>)
      ensures node == n
    {
      node := n;
    }

    /**
     * operator++: with a right child, the leftmost node of the right
     * subtree; otherwise climb while the current node is its parent's right
     * child, then step to the parent.  From the last element this reaches
     * the sentinel, whose `right` is null.
     */
    method Increment(ghost tr: RBTree<T>, ghost k: nat)
      requires tr.Valid() && k < |tr.Contents()| && node == tr.At(k)
      modifies this
      ensures node == tr.At(k + 1)
    {
      NodesOfNodeSeq(tr.tree);
      if node.right != null {
        SuccessorDown(tr, k);
      } else {
        SuccessorUp(tr, k);
      }
    }

    /** The first branch of operator++: down to the right child, then left while possible. */
    method SuccessorDown(ghost tr: RBTree<T>, ghost k: nat)
      requires tr.Valid() && k < |NodeSeq(tr.tree)| && node == NodeSeq(tr.tree)[k] && node.right != null
      modifies this
      ensures node == tr.At(k + 1)
    {
      ghost var path, sub := Locate(tr.tree, k);
      tr.Around(path, sub, tr.end);
      MirroredHeapTree(tr.tree, tr.end, tr.links);
      HeapTreePlug(path, sub);
      SuccessorBelow(path, sub, k);
      var m := Leftmost(node.right, sub.right);
      node := m;
    }

    /** The second branch of operator++: the climb over right edges. */
    method SuccessorUp(ghost tr: RBTree<T>, ghost k: nat)
      requires tr.Valid() && k < |NodeSeq(tr.tree)| && node == NodeSeq(tr.tree)[k] && node.right == null
      modifies this
      ensures node == tr.At(k + 1)
    {
      ghost var path, sub := Locate(tr.tree, k);
      tr.Around(path, sub, tr.end);
      var p := node.parent;
      while p != null && node == p.right
        invariant tr.tree == Plug(path, sub) && sub.Node? && node == sub.node
        invariant p == HoleParent(path, tr.end)
        invariant |BeforeNodes(path)| + |NodeSeq(sub)| == k + 1
        decreases |path|
      {
        tr.Around(path, sub, tr.end);
        ClimbFromRight(path, sub);
        node := p;
        p := p.parent;
        sub, path := Fill(path[0], sub), path[1..];
      }
      tr.Around(path, sub, tr.end);
      SuccessorAbove(path, sub, k);
      node := node.parent;
    }

    /**
     * operator--: with a left child, the rightmost node of the left
     * subtree; otherwise climb while the current node is its parent's left
     * child, then step to the parent.  The sentinel's left child is the
     * root, so from the end this reaches the last element.
     */
    method Decrement(ghost tr: RBTree<T>, ghost k: nat)
      requires tr.Valid() && 0 < k <= |tr.Contents()| && node == tr.At(k)
      modifies this
      ensures node == tr.At(k - 1)
    {
      NodesOfNodeSeq(tr.tree);
      if k < |tr.Contents()| {
        ghost var path, sub := Locate(tr.tree, k);
        tr.Around(path, sub, tr.end);
      }
      if node.left != null {
        PredecessorDown(tr, k);
      } else {
        PredecessorUp(tr, k);
      }
    }

    /** The first branch of operator--: down to the left child, then right while possible. */
    method PredecessorDown(ghost tr: RBTree<T>, ghost k: nat)
      requires tr.Valid() && 0 < k <= |NodeSeq(tr.tree)| && node == tr.At(k) && node.left != null
      modifies this
      ensures node == tr.At(k - 1)
    {
      MirroredHeapTree(tr.tree, tr.end, tr.links);
      ghost var below := tr.tree;
      if k < |NodeSeq(tr.tree)| {
        ghost var path, sub := Locate(tr.tree, k);
        tr.Around(path, sub, tr.end);
        HeapTreePlug(path, sub);
        PredecessorBelow(path, sub, k);
        below := sub.left;
      }
      var m := Rightmost(node.left, below);
      node := m;
    }

    /** The second branch of operator--: the climb over left edges. */
    method PredecessorUp(ghost tr: RBTree<T>, ghost k: nat)
      requires tr.Valid() && 0 < k < |NodeSeq(tr.tree)| && node == NodeSeq(tr.tree)[k] && node.left == null
      modifies this
      ensures node == tr.At(k - 1)
    {
      ghost var path, sub := Locate(tr.tree, k);
      tr.Around(path, sub, tr.end);
      var p := node.parent;
      while p != null && node == p.left
        invariant tr.tree == Plug(path, sub) && sub.Node? && node == sub.node
        invariant p == HoleParent(path, tr.end)
        invariant |BeforeNodes(path)| == k
        decreases |path|
      {
        tr.Around(path, sub, tr.end);
        ClimbFromLeft(path, sub);
        node := p;
        p := p.parent;
        sub, path := Fill(path[0], sub), path[1..];
      }
      tr.Around(path, sub, tr.end);
      PredecessorAbove(path, sub, k);
      node := node.parent;
    }

    /** operator++(int): the cursor moves on; a copy of its old position is returned. */
    method PostIncrement(ghost tr: RBTree<T>, ghost k: nat) returns (it: TreeIterator<T>)
      requires tr.Valid() && k < |tr.Contents()| && node == tr.At(k)
      modifies this
      ensures fresh(it) && it.node == tr.At(k) && node == tr.At(k + 1)
    {
      it := new TreeIterator(node);
      Increment(tr, k);
    }

    /** operator--(int): the cursor moves back; a copy of its old position is returned. */
    method PostDecrement(ghost tr: RBTree<T>, ghost k: nat) returns (it: TreeIterator<T>)
      requires tr.Valid() && 0 < k <= |tr.Contents()| && node == tr.At(k)
      modifies this
      ensures fresh(it) && it.node == tr.At(k) && node == tr.At(k - 1)
    {
      it := new TreeIterator(node);
      Decrement(tr, k);
    }

    /** `--(++it)` is back where it started, for every position before the end. */
    method StepForthAndBack(ghost tr: RBTree<T>, ghost k: nat)
      requires tr.Valid() && k < |tr.Contents()| && node == tr.At(k)
      modifies this
      ensures node == tr.At(k)
    {
      Increment(tr, k);
      Decrement(tr, k + 1);
    }

    /** operator* and operator->: the element of the current node. */
    function Get(ghost tr: RBTree<T>, ghost k: nat): (v: T)
      requires tr.Valid() && k < |tr.Contents()| && node == tr.At(k)
      reads this, tr, tr.Repr()
      ensures v == tr.Contents()[k]
    {
      tr.ValueAt(k, tr.end);
      node.value.value
    }

    /** operator== and operator!=: cursors are equal when they hold the same node. */
    predicate Equals(other: TreeIterator<T>)
      reads this, other
      ensures other == this ==> Equals(other)
      ensures Equals(other) ==> other.node == node
    {
      node == other.node
    }

    /** On a valid tree, two cursors are equal exactly when they are at the same position. */
    lemma EqualsIsSamePosition(other: TreeIterator<T>, tr: RBTree<T>, i: nat, j: nat)
      requires tr.Valid() && i <= |tr.Contents()| && j <= |tr.Contents()|
      requires node == tr.At(i) && other.node == tr.At(j)
      ensures Equals(other) <==> i == j
    {
      tr.AtInjective(i, j);
    }
  }
  /** `next = first; next++;`: the node after position `k`, read before anything is erased. */
  method Next<T(!new)>(tr: RBTree<T>, cur: RBNode<T>, ghost k: nat) returns (next: RBNode?<T>)
    requires tr.Valid() && k < |tr.Contents()| && cur == tr.At(k)
    ensures next == tr.At(k + 1)
  {
    var it := new TreeIterator(cur);
    it.Increment(tr, k);
    next := it.node;
  }

  /**
   * One step of erase(first, last): `next = first; next++; erase(first);
   * first = next;`.  The successor is taken before the erase.  When the
   * tree holds `c0[..i] + c0[m..]` with `last`'s node `stop` at position
   * `i + j - m`, afterwards it holds `c0[..i] + c0[m + 1..]` with `stop`
   * at position `i + j - m - 1`.
   */
  method EraseStep<T(!new)>(tr: RBTree<T>, cur: RBNode<T>, stop: RBNode?<T>, ghost i: nat, ghost m: nat, ghost p: nat, ghost c0: seq<T>, ghost j: nat)
      returns (next: RBNode?<T>, ghost m': nat, ghost p': nat)
    requires tr.Valid() && i <= m < j <= |c0| && p == i + j - m && p <= |tr.Contents()|
    requires cur == tr.At(i) && stop == tr.At(p)
    requires tr.Contents() == c0[..i] + c0[m..]
    modifies tr, tr.Repr()
    ensures tr.Valid() && tr.end == old(tr.end) && tr.less == old(tr.less)
    ensures m' == m + 1 && p' == p - 1 && p' <= |tr.Contents()|
    ensures tr.Contents() == c0[..i] + c0[m'..]
    ensures tr.size == old(tr.size) - 1
    ensures tr.Repr() <= old(tr.Repr())
    ensures next == tr.At(i) && stop == tr.At(p')
  {
    m', p' := m + 1, p - 1;
    ghost var n0 := NodeSeq(tr.tree);
    ghost var c := tr.Contents();
    next := Next(tr, cur, i);
    tr.Erase(cur, i);
    tr.AtShifted(n0, i, i);
    tr.AtShifted(n0, i, p');
    DropNext(c0, c, i, m);
  }

  /**
   * erase(first, last) of srcs/rb_tree.hpp: erases the elements from
   * position `i` of `first` up to, not including, position `j` of `last`.
   * Both cursors are taken by value, so the loop works on the nodes they
   * hold; `last`'s node keeps its place while the elements before it go.
   */
  method EraseRange<T(!new)>(tr: RBTree<T>, first: TreeIterator<T>, last: TreeIterator<T>, ghost i: nat, ghost j: nat)
    requires tr.Valid() && i <= j <= |tr.Contents()| && first.node == tr.At(i) && last.node == tr.At(j)
    modifies tr, tr.Repr()
    ensures tr.Valid() && tr.end == old(tr.end) && tr.less == old(tr.less)
    ensures tr.Contents() == old(tr.Contents())[..i] + old(tr.Contents())[j..]
    ensures tr.size == old(tr.size) - (j - i)
  {
    var cur := first.node;
    var stop := last.node;
    ghost var c0, e0, l0, s0, r0 := tr.Contents(), tr.end, tr.less, tr.size, tr.Repr();
    ghost var m: nat, p: nat := i, j;
    while cur != stop
      invariant tr.Valid() && tr.end == e0 && tr.less == l0
      invariant tr.Repr() <= r0
      invariant i <= m <= j && p == i + j - m && p <= |tr.Contents()|
      invariant cur == tr.At(i) && stop == tr.At(p)
      invariant tr.Contents() == c0[..i] + c0[m..]
      invariant tr.size == s0 - (m - i)
      decreases j - m
    {
      tr.AtInjective(i, p);
      cur, m, p := EraseStep(tr, cur, stop, i, m, p, c0, j);
    }
    tr.AtInjective(i, p);
  }

  /** Erasing position `i` of `c0[..i] + c0[m..]` leaves `c0[..i] + c0[m + 1..]`. */
  lemma DropNext<X>(c0: seq<X>, c: seq<X>, i: nat, m: nat)
    requires i <= m < |c0| && c == c0[..i] + c0[m..]
    ensures c[..i] + c[i + 1..] == c0[..i] + c0[m + 1..]
  {
    assert c[..i] == c0[..i];
    assert c[i + 1..] == c0[m + 1..];
  }
}
