/**
 * Shape facts behind _bst_erase in srcs/rb_tree.hpp: cutting out a node
 * with at most one child, and overwriting the value of a node with two.
 */
module RbErase {
  import opened Wrappers
  import opened RbShape

  /** `t`'s top has at most one child, and `rest` is the subtree that takes its place. */
  ghost predicate Excisable<T>(t: Tree<T>, rest: Tree<T>) {
    t.Node? && ((t.right == Nil && rest == t.left) || (t.left == Nil && rest == t.right))
  }

  /**
   * Cutting out the top of the subtree at `path` removes exactly that node
   * from the tree and keeps the others distinct.
   */
  lemma ExciseNodes<T>(path: Path<T>, t: Tree<T>, rest: Tree<T>)
    requires Excisable(t, rest) && Distinct(Plug(path, t))
    ensures Distinct(Plug(path, rest))
    ensures Nodes(Plug(path, rest)) == Nodes(Plug(path, t)) - {t.node}
    ensures Nodes(rest) <= Nodes(Plug(path, rest))
  {
    PlugDistinct(path, t);
    PlugDistinct(path, rest);
    PlugNodes(path, t);
    PlugNodes(path, rest);
  }

  /** Cutting out the top of the subtree at `path` removes its value from the in-order sequence. */
  lemma ExciseValues<T>(path: Path<T>, t: Tree<T>, rest: Tree<T>)
    requires Excisable(t, rest)
    ensures var k := |BeforeNodes(path)| + |NodeSeq(t.left)|;
      && k < |Values(Plug(path, t))|
      && Values(Plug(path, rest)) == Values(Plug(path, t))[..k] + Values(Plug(path, t))[k + 1..]
  {
    var b, l, r, a := Before(path), Values(t.left), Values(t.right), After(path);
    assert Values(rest) == l + r by {
      if t.right == Nil {
        assert r == [];
      } else {
        assert l == [];
      }
    }
    PlugValues(path, t);
    PlugValues(path, rest);
    BeforeNodesLength(path);
    NodeSeqLength(t.left);
    assert |BeforeNodes(path)| + |NodeSeq(t.left)| == |b| + |l|;
    CutOut(b, l, t.value, r, a);
  }

  /** Cutting out the top of the subtree at `path` removes its node from the in-order sequence. */
  lemma ExciseNodeSeq<T>(path: Path<T>, t: Tree<T>, rest: Tree<T>)
    requires Excisable(t, rest)
    ensures var k := |BeforeNodes(path)| + |NodeSeq(t.left)|;
      && k < |NodeSeq(Plug(path, t))|
      && NodeSeq(Plug(path, rest)) == NodeSeq(Plug(path, t))[..k] + NodeSeq(Plug(path, t))[k + 1..]
  {
    PlugNodeSeq(path, t);
    PlugNodeSeq(path, rest);
    assert NodeSeq(rest) == NodeSeq(t.left) + NodeSeq(t.right);
    CutOut(BeforeNodes(path), NodeSeq(t.left), t.node, NodeSeq(t.right), AfterNodes(path));
  }

  /** Removing `x` from the middle of a sequence. */
  lemma CutOut<X>(b: seq<X>, l: seq<X>, x: X, r: seq<X>, a: seq<X>)
    ensures var s := b + (l + [x] + r) + a; var k := |b| + |l|;
      k < |s| && s[..k] + s[k + 1..] == b + (l + r) + a
  {
    var s := b + (l + [x] + r) + a;
    var k := |b| + |l|;
    assert s[..k] == b + l;
    assert s[k + 1..] == r + a;
  }

  /** A tail that starts one position earlier than `q`'s at `k` also does so one position later. */
  lemma ShiftedTail<X>(c: seq<X>, q: seq<X>, k: nat)
    requires 0 < k <= |c| && k <= |q| && c[k - 1..] == q[k..]
    ensures k < |q| ==> c[k..] == q[k + 1..]
  {
    assert c[k..] == c[k - 1..][1..];
  }

  /** Replacing `x` in the middle of a sequence. */
  lemma ReplaceMiddle<X>(b: seq<X>, l: seq<X>, x: X, r: seq<X>, a: seq<X>, w: X)
    ensures var s := b + (l + [x] + r) + a; var k := |b| + |l|;
      k < |s| && s[k := w] == b + (l + [w] + r) + a
  {
  }

  /**
   * Once the innermost ancestor `q` points to `rest` instead of the top of
   * `t`, and `rest`'s top (if any) points back to `q`, with no other node
   * changed, the tree without the top of `t` is linked.
   */
  lemma ExciseLinked<T>(path: Path<T>, t: Tree<T>, rest: Tree<T>, a: RBNode?<T>, links: Links<T>, after: Links<T>)
    requires Excisable(t, rest) && path != [] && Distinct(Plug(path, t)) && Linked(Plug(path, t), a, links)
    requires path[0].node in links && path[0].node in after
    requires after[path[0].node] == ReplaceChild(links[path[0].node], t.node, Top(rest))
    requires rest.Node? ==> rest.node in links && rest.node in after && after[rest.node] == links[rest.node].(parent := path[0].node)
    requires forall n :: n in links && n != path[0].node && n != t.node && n != Top(rest) ==> n in after && after[n] == links[n]
    ensures Linked(Plug(path, rest), a, after)
  {
    var q := path[0].node;
    var touched := {q, t.node} + (if rest.Node? then {rest.node} else {});
    PlugLinked(path, t, a, links);
    PlugDistinct(path, t);
    assert PathNodes(path) == {q} + Nodes(path[0].sibling) + PathNodes(path[1..]);
    assert Nodes(rest) <= Nodes(t);
    LinkedPathRetop(path, t.node, Top(rest), a, links, after, touched);
    if rest.Node? {
      assert Linked(rest, t.node, links);
      ReparentTop(rest, t.node, q, links);
      var mid := links[rest.node := links[rest.node].(parent := q)];
      assert Agree(mid, after, Nodes(rest)) by {
        forall n | n in Nodes(rest) && n in mid ensures n in after && after[n] == mid[n] {
          if n != rest.node {
            assert n != q && n != t.node;
          }
        }
      }
      LinkedFrame(rest, q, mid, after);
    }
    PlugLinked(path, rest, a, after);
  }

  /**
   * Giving the top of the subtree at `path` the value `w` keeps the tree
   * linked once its record is updated, and keeps the nodes and their order.
   */
  lemma RevaluePlug<T>(path: Path<T>, t: Tree<T>, a: RBNode?<T>, links: Links<T>, w: T)
    requires t.Node? && Distinct(Plug(path, t)) && Linked(Plug(path, t), a, links)
    ensures t.node in links
    ensures var t' := Plug(path, t.(value := w));
      && Linked(t', a, links[t.node := links[t.node].(value := Some(w))])
      && Distinct(t')
      && Nodes(t') == Nodes(Plug(path, t))
      && NodeSeq(t') == NodeSeq(Plug(path, t))
      && Top(t') == Top(Plug(path, t))
  {
    var n := t.node;
    var t1 := t.(value := w);
    PlugLinked(path, t, a, links);
    assert n in links;
    var after := links[n := links[n].(value := Some(w))];
    PlugDistinct(path, t);
    LinkedPathFrame(path, n, a, links, after);
    LinkedFrame(t.left, n, links, after);
    LinkedFrame(t.right, n, links, after);
    assert Linked(t1, HoleParent(path, a), after);
    PlugLinked(path, t1, a, after);
    PlugDistinct(path, t1);
    PlugNodes(path, t);
    PlugNodes(path, t1);
    PlugNodeSeq(path, t);
    PlugNodeSeq(path, t1);
    PlugTop(path, t);
    PlugTop(path, t1);
  }

  /** The new value replaces the old one at the top's in-order position. */
  lemma RevalueValues<T>(path: Path<T>, t: Tree<T>, w: T)
    requires t.Node?
    ensures var k := |BeforeNodes(path)| + |NodeSeq(t.left)|;
      && k < |Values(Plug(path, t))|
      && Values(Plug(path, t.(value := w))) == Values(Plug(path, t))[k := w]
  {
    PlugValues(path, t);
    PlugValues(path, t.(value := w));
    BeforeNodesLength(path);
    NodesOfNodeSeq(t.left);
    ReplaceMiddle(Before(path), Values(t.left), t.value, Values(t.right), After(path), w);
  }

  /**
   * The values and nodes after the copy step of _bst_erase at position `k`
   * and the removal of the predecessor's position `k - 1`: position `k` is
   * gone from both.
   */
  lemma CopiedDown<T, N>(s0: seq<T>, s1: seq<T>, s2: seq<T>, q0: seq<N>, q2: seq<N>, k: nat)
    requires 0 < k < |s0| && k < |q0| && s1 == s0[k := s0[k - 1]] && s2 == s1[..k - 1] + s1[k..]
    requires |q2| + 1 == |q0| && q2[k - 1..] == q0[k..]
    ensures s2 == s0[..k] + s0[k + 1..] && q2[k..] == q0[k + 1..]
  {
    CopyThenRemove(s0, k);
    ShiftedTail(q2, q0, k);
  }

  /**
   * Copying the predecessor's value into position `k` and then removing the
   * predecessor's position removes position `k`.
   */
  lemma CopyThenRemove<T>(s: seq<T>, k: nat)
    requires 0 < k < |s|
    ensures s[k := s[k - 1]][..k - 1] + s[k := s[k - 1]][k..] == s[..k] + s[k + 1..]
  {
    var s1 := s[k := s[k - 1]];
    assert s1[..k - 1] == s[..k - 1];
    assert s1[k..] == [s[k - 1]] + s[k + 1..];
    assert s[..k] == s[..k - 1] + [s[k - 1]];
  }
}
