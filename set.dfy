/**
 * srcs/set.hpp: ft::set, an ordered container of unique values held in a
 * red-black tree.  The comparator orders the values themselves, so every
 * operation hands its value to the tree unchanged.
 */
module Set {
  import opened Wrappers
  import opened Ordering
  import opened Utility
  import opened RbShape
  import opened RedBlackTree
  import RbTreeIterator

  class Set<T(!new)> {
    /** The red-black tree the set holds by value. */
    const tree: RBTree<T>

    ghost function Repr(): set<object>
      reads this, tree
    {
      {tree} + tree.Repr()
    }

    ghost predicate Valid()
      reads this, tree, tree.Repr()
    {
      tree.Valid()
    }

    /** The values in order. */
    ghost function Elements(): seq<T>
      reads this, tree
    {
      tree.Contents()
    }

    /** The empty container constructor. */
    constructor (comp: (T, T) -> bool)
      requires StrictWeakOrder(comp)
      ensures Valid() && Elements() == [] && tree.less == comp
      ensures fresh(Repr())
    {
      tree := new RBTree(comp);
    }

    /** The range constructor: an empty set, then insert(first, last) of the values `vs`. */
    constructor FromRange(comp: (T, T) -> bool, vs: seq<T>)
      requires StrictWeakOrder(comp)
      ensures Valid() && Elements() == InsertedAll(comp, [], vs) && tree.less == comp
      ensures fresh(Repr())
    {
      tree := new RBTree(comp);
      new;
      tree.InsertRange(vs);
    }

    /** The copy constructor: the tree is copied. */
    constructor Copy(src: Set<T>)
      requires src.Valid()
      ensures Valid() && Elements() == src.Elements() && tree.less == src.tree.less
      ensures fresh(Repr())
    {
      tree := new RBTree.Copy(src.tree);
    }

    /** operator=: unless `other` is this set, its tree is assigned to this one. */
    method Assign(other: Set<T>)
      requires Valid() && other.Valid()
      modifies tree, tree.end
      ensures Valid() && Elements() == old(other.Elements()) && tree.less == old(other.tree.less)
    {
      if this == other {
        return;
      }
      tree.Assign(other.tree);
    }

    /** empty(). */
    function Empty(): (b: bool)
      requires Valid()
      reads this, tree, tree.Repr()
      ensures b <==> Elements() == []
    {
      tree.Empty()
    }

    /** size(). */
    function Size(): (n: nat)
      requires Valid()
      reads this, tree, tree.Repr()
      ensures n == |Elements()|
    {
      tree.Size()
    }

    /**
     * key_comp() and value_comp(): both are the tree's comparator, a strict
     * weak order under which the values are strictly increasing.
     */
    function KeyComp(): (comp: (T, T) -> bool)
      requires Valid()
      reads this, tree, tree.Repr()
      ensures StrictWeakOrder(comp) && StrictlySorted(comp, Elements())
    {
      tree.less
    }

    /**
     * insert(val): a value equivalent to one already held leaves the set as
     * it was and is answered with `false`; otherwise it goes in at its place
     * and `true` is returned.  Either way `r` is the node of the equivalent
     * element.
     */
    method Insert(v: T) returns (r: RBNode<T>, inserted: bool)
      requires Valid()
      modifies tree, tree.Repr()
      ensures Valid() && tree.less == old(tree.less)
      ensures inserted <==> !HasEquivalent(tree.less, old(Elements()), v)
      ensures !inserted ==> Elements() == old(Elements())
      ensures inserted ==> var i := LowerIndex(tree.less, old(Elements()), v);
        Elements() == old(Elements())[..i] + [v] + old(Elements())[i..]
      ensures var i := LowerIndex(tree.less, old(Elements()), v);
        && i < |Elements()| && r == tree.At(i) && r.value == Some(Elements()[i])
        && Equivalent(tree.less, Elements()[i], v)
    {
      r, inserted := tree.Insert(v);
      tree.ValueAt(LowerIndex(tree.less, old(Elements()), v), tree.end);
    }

    /** insert(position, val): the hint is ignored. */
    method InsertHint(position: RBNode?<T>, v: T) returns (r: RBNode<T>)
      requires Valid()
      modifies tree, tree.Repr()
      ensures Valid() && tree.less == old(tree.less)
      ensures Elements() == Inserted(tree.less, old(Elements()), v)
      ensures r == tree.At(LowerIndex(tree.less, old(Elements()), v))
      ensures r.value.Some? && Equivalent(tree.less, r.value.value, v)
    {
      r := tree.InsertHint(position, v);
    }

    /** insert(first, last): the values `vs` are inserted one after the other. */
    method InsertRange(vs: seq<T>)
      requires Valid()
      modifies tree, tree.Repr()
      ensures Valid() && tree.less == old(tree.less)
      ensures Elements() == InsertedAll(tree.less, old(Elements()), vs)
    {
      tree.InsertRange(vs);
    }

    /** erase(position): the value at position `i`, held by `z`, is removed. */
    method EraseAt(z: RBNode<T>, ghost i: nat)
      requires Valid() && i < |Elements()| && z == tree.At(i)
      modifies tree, tree.Repr()
      ensures Valid() && tree.less == old(tree.less)
      ensures Elements() == old(Elements())[..i] + old(Elements())[i + 1..]
    {
      tree.Erase(z, i);
    }

    /**
     * erase(val): the element equivalent to `v` goes and 1 is returned, or 0
     * when there is none and nothing changes.  Afterwards no element is
     * equivalent to `v`.
     */
    method Erase(v: T) returns (n: nat)
      requires Valid()
      modifies tree, tree.Repr()
      ensures Valid() && tree.less == old(tree.less)
      ensures n <= 1 && (n == 1 <==> HasEquivalent(tree.less, old(Elements()), v))
      ensures n == 0 ==> Elements() == old(Elements())
      ensures n == 1 ==> var i := LowerIndex(tree.less, old(Elements()), v);
        && i < |old(Elements())| && Equivalent(tree.less, old(Elements())[i], v)
        && Elements() == old(Elements())[..i] + old(Elements())[i + 1..]
      ensures !HasEquivalent(tree.less, Elements(), v)
    {
      n := tree.EraseValue(v);
    }

    /** erase(first, last): the values from position `i` up to position `j` are removed. */
    method EraseRange(first: RbTreeIterator.TreeIterator<T>, last: RbTreeIterator.TreeIterator<T>, ghost i: nat, ghost j: nat)
      requires Valid() && i <= j <= |Elements()| && first.node == tree.At(i) && last.node == tree.At(j)
      modifies tree, tree.Repr()
      ensures Valid() && tree.less == old(tree.less)
      ensures Elements() == old(Elements())[..i] + old(Elements())[j..]
    {
      RbTreeIterator.EraseRange(tree, first, last, i, j);
    }

    /** swap(x): the two sets exchange their trees' contents and comparators. */
    method Swap(x: Set<T>)
      requires Valid() && x.Valid()
      modifies tree, x.tree
      ensures Valid() && x.Valid()
      ensures Elements() == old(x.Elements()) && x.Elements() == old(Elements())
      ensures tree.less == old(x.tree.less) && x.tree.less == old(tree.less)
    {
      tree.Swap(x.tree);
    }

    /** clear(): the set is emptied. */
    method Clear()
      requires Valid()
      modifies tree
      ensures Valid() && Elements() == [] && Size() == 0 && tree.less == old(tree.less)
    {
      tree.Clear();
    }

    /**
     * find(val): the node of the element equivalent to `v`, at its position,
     * or the sentinel when there is none.
     */
    function Find(v: T): (r: RBNode<T>)
      requires Valid()
      reads this, tree, tree.Repr()
      ensures r == tree.end <==> !HasEquivalent(tree.less, Elements(), v)
      ensures r != tree.end ==> var i := LowerIndex(tree.less, Elements(), v);
        && i < |Elements()| && r == tree.At(i) && r.value == Some(Elements()[i])
        && Equivalent(tree.less, Elements()[i], v)
    {
      tree.Find(v)
    }

    /** count(val): 1 when an element is equivalent to `v`, 0 otherwise. */
    function Count(v: T): (n: nat)
      requires Valid()
      reads this, tree, tree.Repr()
      ensures n <= 1 && (n == 1 <==> HasEquivalent(tree.less, Elements(), v))
    {
      tree.Count(v)
    }

    /** lower_bound(val): the node of the first element that does not go before `v`, or the sentinel. */
    function LowerBound(v: T): (r: RBNode<T>)
      requires Valid()
      reads this, tree, tree.Repr()
      ensures var i := LowerIndex(tree.less, Elements(), v);
        && (r == tree.end <==> i == |Elements()|)
        && r == tree.At(i)
        && (r != tree.end ==> r.value == Some(Elements()[i]) && !tree.less(Elements()[i], v))
    {
      NodeSeqLength(tree.tree);
      tree.LowerBound(v)
    }

    /**
     * upper_bound(val) as written: it returns the tree's lower_bound, the
     * first element that does not go before `v`, rather than the first one
     * that goes after it.  Its contract only names that answer: it is the
     * witness of the defect, which UpperBoundAsWrittenWrong measures against
     * the documented UpperBound.
     */
    function UpperBoundAsWritten(v: T): (r: RBNode<T>)
      requires Valid()
      reads this, tree, tree.Repr()
      ensures r == LowerBound(v)
    {
      tree.LowerBound(v)
    }

    /** upper_bound(val) as documented: the node of the first element that goes after `v`, or the sentinel. */
    function UpperBound(v: T): (r: RBNode<T>)
      requires Valid()
      reads this, tree, tree.Repr()
      ensures var i := UpperIndex(tree.less, Elements(), v);
        && (r == tree.end <==> i == |Elements()|)
        && r == tree.At(i)
        && (r != tree.end ==> r.value == Some(Elements()[i]) && tree.less(v, Elements()[i]))
    {
      NodeSeqLength(tree.tree);
      tree.UpperBound(v)
    }

    /**
     * The as-written upper_bound answers the lower bound, which is the
     * documented upper bound only when no element is equivalent to `v`;
     * when one is, it returns that element's node instead of the next one.
     */
    lemma UpperBoundAsWrittenWrong(v: T)
      requires Valid()
      ensures UpperBoundAsWritten(v) == UpperBound(v) <==> !HasEquivalent(tree.less, Elements(), v)
      ensures HasEquivalent(tree.less, Elements(), v) ==> UpperBoundAsWritten(v) == Find(v)
    {
      var r := tree.EqualRange(v);
    }

    /**
     * equal_range(val): (lower_bound(val), upper_bound(val)), which is empty
     * when no element is equivalent to `v` and holds exactly the equivalent
     * element otherwise.  The set's own upper_bound does not take part: the
     * tree's equal_range uses the tree's upper_bound.
     */
    function EqualRange(v: T): (r: Pair<RBNode<T>, RBNode<T>>)
      requires Valid()
      reads this, tree, tree.Repr()
      ensures r.first == LowerBound(v) && r.second == UpperBound(v)
      ensures !HasEquivalent(tree.less, Elements(), v) ==> r.first == r.second
      ensures HasEquivalent(tree.less, Elements(), v) ==>
        r.first == Find(v) && r.first != r.second
        && UpperIndex(tree.less, Elements(), v) == LowerIndex(tree.less, Elements(), v) + 1
    {
      tree.EqualRange(v)
    }
  }
}
