/**
 * The comparator-driven descents of srcs/rb_tree.hpp, stated on shapes:
 * while walking down from the root towards `v`, every value left of the
 * current subtree orders before `v` and every value right of it after.
 */
module RbSearch {
  import opened Ordering
  import opened RbShape

  /** The values before the subtree at `path` order before `v`, those after it after `v`. */
  ghost predicate Brackets<T>(less: (T, T) -> bool, path: Path<T>, v: T) {
    && (forall i :: 0 <= i < |Before(path)| ==> less(Before(path)[i], v))
    && (forall i :: 0 <= i < |After(path)| ==> less(v, After(path)[i]))
  }

  /** Stepping right past a node whose value orders before `v` keeps `v` bracketed. */
  lemma StepRight<T(!new)>(less: (T, T) -> bool, path: Path<T>, t: Tree<T>, v: T)
    requires StrictWeakOrder(less) && t.Node? && StrictlySorted(less, Values(Plug(path, t)))
    requires Brackets(less, path, v) && less(t.value, v)
    ensures var path' := [RightOf(t.left, t.node, t.color, t.value)] + path;
      Brackets(less, path', v) && Plug(path', t.right) == Plug(path, t)
  {
    var path' := [RightOf(t.left, t.node, t.color, t.value)] + path;
    assert path'[1..] == path;
    PlugValues(path, t);
    DescendRight(less, Before(path), Values(t.left), t.value, Values(t.right), After(path), v);
    assert Before(path') == Before(path) + Values(t.left) + [t.value];
  }

  /** Stepping left past a node whose value orders after `v` keeps `v` bracketed. */
  lemma StepLeft<T(!new)>(less: (T, T) -> bool, path: Path<T>, t: Tree<T>, v: T)
    requires StrictWeakOrder(less) && t.Node? && StrictlySorted(less, Values(Plug(path, t)))
    requires Brackets(less, path, v) && less(v, t.value)
    ensures var path' := [LeftOf(t.node, t.color, t.value, t.right)] + path;
      Brackets(less, path', v) && Plug(path', t.left) == Plug(path, t)
  {
    var path' := [LeftOf(t.node, t.color, t.value, t.right)] + path;
    assert path'[1..] == path;
    PlugValues(path, t);
    DescendLeft(less, Before(path), Values(t.left), t.value, Values(t.right), After(path), v);
    assert Before(path') == Before(path);
  }

  /** Where the descent fell off, the side it took from the last node is the side `v` compares to. */
  lemma SideOf<T(!new)>(less: (T, T) -> bool, path: Path<T>, v: T)
    requires StrictWeakOrder(less) && path != [] && Brackets(less, path, v)
    ensures path[0].RightOf? <==> less(path[0].value, v)
  {
    if path[0].RightOf? {
      var b := Before(path);
      assert b == Before(path[1..]) + (Values(path[0].sibling) + [path[0].value]);
      assert b[|b| - 1] == path[0].value;
    } else {
      var a := After(path);
      assert a == ([path[0].value] + Values(path[0].sibling)) + After(path[1..]);
      assert a[0] == path[0].value;
      assert less(v, path[0].value);
      assert less(path[0].value, v) ==> less(v, v);
    }
  }

  /**
   * A leaf holding `v` hung where the descent fell off adds `v` at its lower
   * bound, and no element was equivalent to it before.
   */
  lemma LeafPlace<T(!new)>(less: (T, T) -> bool, path: Path<T>, n: RBNode<T>, v: T)
    requires StrictWeakOrder(less) && Brackets(less, path, v)
    ensures var s := Values(Plug(path, Nil)); var k := LowerIndex(less, s, v);
      && k == |Before(path)| && !HasEquivalent(less, s, v)
      && Values(Plug(path, Node(Nil, n, Red, v, Nil))) == s[..k] + [v] + s[k..]
  {
    PlugValues(path, Nil);
    PlugValues(path, Node(Nil, n, Red, v, Nil));
    assert Values(Plug(path, Nil)) == Before(path) + After(path);
    SplitAt(less, Before(path), After(path), v);
  }

  /** The descent stopped at a node equivalent to `v`: it is the node at `v`'s lower bound. */
  lemma FoundPlace<T(!new)>(less: (T, T) -> bool, path: Path<T>, t: Tree<T>, v: T)
    requires StrictWeakOrder(less) && t.Node? && StrictlySorted(less, Values(Plug(path, t)))
    requires Equivalent(less, t.value, v)
    ensures var s := Values(Plug(path, t)); var k := LowerIndex(less, s, v);
      && HasEquivalent(less, s, v)
      && k < |NodeSeq(Plug(path, t))| && NodeSeq(Plug(path, t))[k] == t.node
      && t.node in Nodes(Plug(path, t))
  {
    PlugValues(path, t);
    FoundAt(less, Before(path), Values(t.left), t.value, Values(t.right), After(path), v);
    PlugAt(path, t);
    NodesOfNodeSeq(Plug(path, t));
  }

  /** Both subtrees of a sorted tree are sorted, and each has as many nodes as values. */
  lemma SubtreesSorted<T(!new)>(less: (T, T) -> bool, t: Tree<T>)
    requires StrictWeakOrder(less) && t.Node? && StrictlySorted(less, Values(t))
    ensures StrictlySorted(less, Values(t.left)) && StrictlySorted(less, Values(t.right))
    ensures |NodeSeq(t.left)| == |Values(t.left)| && |NodeSeq(t.right)| == |Values(t.right)|
  {
    var Node(l, _, _, x, r) := t;
    assert Values(t) == Values(l) + [x] + Values(r);
    SortedParts(less, Values(l), x, Values(r));
    NodeSeqLength(l);
    NodeSeqLength(r);
  }

  /** The lower bound in a sorted tree is found in the subtree that the top's order against `v` selects. */
  lemma LowerStep<T(!new)>(less: (T, T) -> bool, t: Tree<T>, v: T)
    requires StrictWeakOrder(less) && t.Node? && StrictlySorted(less, Values(t))
    ensures less(t.value, v) ==> LowerIndex(less, Values(t), v) == |Values(t.left)| + 1 + LowerIndex(less, Values(t.right), v)
    ensures !less(t.value, v) ==> LowerIndex(less, Values(t), v) == LowerIndex(less, Values(t.left), v)
  {
    var Node(l, _, _, x, r) := t;
    assert Values(t) == Values(l) + [x] + Values(r);
    SortedParts(less, Values(l), x, Values(r));
    LowerSplit(less, Values(l), x, Values(r), v);
  }

  /** The upper bound in a sorted tree is found in the subtree that the order of `v` against the top selects. */
  lemma UpperStep<T(!new)>(less: (T, T) -> bool, t: Tree<T>, v: T)
    requires StrictWeakOrder(less) && t.Node? && StrictlySorted(less, Values(t))
    ensures !less(v, t.value) ==> UpperIndex(less, Values(t), v) == |Values(t.left)| + 1 + UpperIndex(less, Values(t.right), v)
    ensures less(v, t.value) ==> UpperIndex(less, Values(t), v) == UpperIndex(less, Values(t.left), v)
  {
    var Node(l, _, _, x, r) := t;
    assert Values(t) == Values(l) + [x] + Values(r);
    SortedParts(less, Values(l), x, Values(r));
    UpperSplit(less, Values(l), x, Values(r), v);
  }

  /** An element equivalent to `v` is at the top or in the subtree that the order against the top selects. */
  lemma FindStep<T(!new)>(less: (T, T) -> bool, t: Tree<T>, v: T)
    requires StrictWeakOrder(less) && t.Node? && StrictlySorted(less, Values(t))
    ensures less(t.value, v) ==> LowerIndex(less, Values(t), v) == |Values(t.left)| + 1 + LowerIndex(less, Values(t.right), v)
    ensures less(v, t.value) ==> LowerIndex(less, Values(t), v) == LowerIndex(less, Values(t.left), v)
    ensures less(t.value, v) ==> (HasEquivalent(less, Values(t), v) <==> HasEquivalent(less, Values(t.right), v))
    ensures less(v, t.value) ==> (HasEquivalent(less, Values(t), v) <==> HasEquivalent(less, Values(t.left), v))
    ensures Equivalent(less, t.value, v) ==> HasEquivalent(less, Values(t), v)
    ensures Equivalent(less, t.value, v) ==> LowerIndex(less, Values(t), v) == |Values(t.left)|
  {
    var Node(l, _, _, x, r) := t;
    var vl, vr := Values(l), Values(r);
    assert Values(t) == vl + [x] + vr;
    if Equivalent(less, x, v) {
      assert [] + (vl + [x] + vr) + [] == vl + [x] + vr;
      FoundAt(less, [], vl, x, vr, [], v);
    }
    SortedParts(less, vl, x, vr);
    LowerStep(less, t, v);
    EquivalentSplit(less, vl, x, vr, v);
  }

  /** Position `j` of the right subtree is position |left| + 1 + j of the tree. */
  lemma InRight<T>(t: Tree<T>, j: nat)
    requires t.Node? && j <= |Values(t.right)|
    ensures |Values(t.left)| + 1 + j == |Values(t)| <==> j == |Values(t.right)|
    ensures j < |Values(t.right)| ==>
      (j < |NodeSeq(t.right)| && |Values(t.left)| + 1 + j < |NodeSeq(t)|
       && NodeSeq(t)[|Values(t.left)| + 1 + j] == NodeSeq(t.right)[j])
  {
    NodesOfNodeSeq(t.left);
    NodesOfNodeSeq(t.right);
  }

  /** Position `j` of the left subtree is position `j` of the tree; position |left| is the top. */
  lemma InLeft<T>(t: Tree<T>, j: nat)
    requires t.Node? && j <= |Values(t.left)|
    ensures j < |Values(t)|
    ensures j < |Values(t.left)| ==> j < |NodeSeq(t.left)| && j < |NodeSeq(t)| && NodeSeq(t)[j] == NodeSeq(t.left)[j]
    ensures j == |Values(t.left)| ==> j < |NodeSeq(t)| && NodeSeq(t)[j] == t.node
  {
    NodesOfNodeSeq(t.left);
    NodesOfNodeSeq(t.right);
  }
}
