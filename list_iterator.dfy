/**
 * srcs/iterators/list_iterator.hpp: the bidirectional iterator of ft::list,
 * a pointer to one node of the ring.  `++` and `--` follow the node's
 * links, `==` compares nodes, and `*` reads the node's value.
 *
 * Each operation takes, as ghost parameters, the list the iterator walks
 * and the position it stands at, so that its contract can say which
 * position it moves to.
 */
module ListIter {
  import opened Wrappers
  import opened List

  class ListIterator<T(==, !new)> {
    /** `_node` in the source. */
    var node: ListNode?<T>

    /** The default constructor: an iterator on no node. */
    constructor ()
      ensures node == null
    {
      node := null;
    }

    /** The constructor from a node pointer. */
    constructor FromNode(n: ListNode<T>)
      ensures node == n
    {
      node := n;
    }

    /** The converting copy constructor: the copy stands on the same node. */
    constructor Copy(src: ListIterator<T>)
      ensures node == src.node
    {
      node := src.node;
    }

    /** operator=: this iterator moves to the node of `other`. */
    method Assign(other: ListIterator<T>)
      modifies this
      ensures node == other.node
    {
      node := other.node;
    }

    /** operator*: the value held by the node at position `k` of `l`, which is not the sentinel. */
    function Get(ghost l: List<T>, ghost k: nat): (v: T)
      requires l.Valid() && k < |l.contents| && node == l.At(k)
      reads this, l, l.Repr()
      ensures v == l.contents[k]
    {
      l.AtValue(k);
      node.value.value
    }

    /** operator++: from position `k` of `l` to the next one; from the sentinel, around to the first. */
    method Increment(ghost l: List<T>, ghost k: nat)
      requires l.Valid() && k <= |l.contents| && node == l.At(k)
      modifies this
      ensures node == l.At(if k < |l.contents| then k + 1 else 0)
    {
      l.AtLinks(k);
      node := node.next;
    }

    /** operator++(int): moves like operator++ and returns an iterator on the node it left. */
    method PostIncrement(ghost l: List<T>, ghost k: nat) returns (it: ListIterator<T>)
      requires l.Valid() && k <= |l.contents| && node == l.At(k)
      modifies this
      ensures fresh(it) && it.node == l.At(k)
      ensures node == l.At(if k < |l.contents| then k + 1 else 0)
    {
      it := new ListIterator.Copy(this);
      l.AtLinks(k);
      node := node.next;
    }

    /** operator--: from position `k` of `l` to the previous one; from the first, around to the sentinel. */
    method Decrement(ghost l: List<T>, ghost k: nat)
      requires l.Valid() && k <= |l.contents| && node == l.At(k)
      modifies this
      ensures node == l.At(if 0 < k then k - 1 else |l.contents|)
    {
      l.AtLinks(k);
      node := node.prev;
    }

    /** operator--(int): moves like operator-- and returns an iterator on the node it left. */
    method PostDecrement(ghost l: List<T>, ghost k: nat) returns (it: ListIterator<T>)
      requires l.Valid() && k <= |l.contents| && node == l.At(k)
      modifies this
      ensures fresh(it) && it.node == l.At(k)
      ensures node == l.At(if 0 < k then k - 1 else |l.contents|)
    {
      it := new ListIterator.Copy(this);
      l.AtLinks(k);
      node := node.prev;
    }
  }

  /** operator==: the two iterators stand on the same node. */
  function Equal<T(==, !new)>(lhs: ListIterator<T>, rhs: ListIterator<T>): (r: bool)
    reads lhs, rhs
    ensures lhs == rhs ==> r
  {
    lhs.node == rhs.node
  }

  /** operator!=: the negation of operator==. */
  function NotEqual<T(==, !new)>(lhs: ListIterator<T>, rhs: ListIterator<T>): (r: bool)
    reads lhs, rhs
    ensures r <==> !Equal(lhs, rhs)
  {
    !Equal(lhs, rhs)
  }

  /** Two iterators over the same list are equal exactly when they stand at the same position. */
  lemma EqualAtSamePosition<T(!new)>(l: List<T>, lhs: ListIterator<T>, i: nat, rhs: ListIterator<T>, j: nat)
    requires l.Valid() && i <= |l.contents| && j <= |l.contents|
    requires lhs.node == l.At(i) && rhs.node == l.At(j)
    ensures Equal(lhs, rhs) <==> i == j
    ensures NotEqual(lhs, rhs) <==> i != j
  {
    l.AtInjective(i, j);
  }
}
