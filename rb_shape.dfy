/**
 * Nodes of the red-black tree (srcs/rb_tree.hpp, RBTreeNode) and the ghost
 * shape that describes how they are linked.
 *
 * A `Tree` records, for every node of the heap structure, the colour and the
 * value it holds; `Linked` states that the nodes' `left`, `right` and `parent`
 * fields agree with the shape.  A `Path` is the list of ancestors of a
 * subtree, innermost first: it plays the role of the parent pointers when a
 * loop walks down or up the tree.
 */
module RbShape {
  import opened Wrappers

  datatype Color = Red | Black

  /** A tree node.  The sentinel is a node without a value; a new node is red and unlinked. */
  class RBNode<T> {
    var value: Option<T>
    var left: RBNode?<T>
    var right: RBNode?<T>
    var parent: RBNode?<T>
    var color: Color

    constructor (v: Option<T>)
      ensures value == v && left == null && right == null && parent == null && color == Red
    {
      value, left, right, parent, color := v, null, null, null, Red;
    }
  }

  datatype Tree<T> = Nil | Node(left: Tree<T>, node: RBNode<T>, color: Color, value: T, right: Tree<T>)

  /** An ancestor of a subtree: the subtree is its left (`LeftOf`) or right (`RightOf`) child. */
  datatype Frame<T> =
    | LeftOf(node: RBNode<T>, color: Color, value: T, sibling: Tree<T>)
    | RightOf(sibling: Tree<T>, node: RBNode<T>, color: Color, value: T)

  type Path<T> = seq<Frame<T>>

  // ---------------------------------------------------------------- shape

  ghost function Top<T>(t: Tree<T>): RBNode?<T> {
    if t.Nil? then null else t.node
  }

  ghost function Fill<T>(f: Frame<T>, t: Tree<T>): Tree<T> {
    match f
    case LeftOf(n, c, v, s) => Node(t, n, c, v, s)
    case RightOf(s, n, c, v) => Node(s, n, c, v, t)
  }

  /** The whole tree, given a subtree and the path from it to the root. */
  ghost function Plug<T>(path: Path<T>, t: Tree<T>): Tree<T>
    decreases |path|
  {
    if path == [] then t else Plug(path[1..], Fill(path[0], t))
  }

  /** The node the subtree at `path` hangs from (`top` for the whole tree). */
  ghost function HoleParent<T>(path: Path<T>, top: RBNode?<T>): RBNode?<T> {
    if path == [] then top else path[0].node
  }

  ghost function Nodes<T>(t: Tree<T>): set<RBNode<T>> {
    match t
    case Nil => {}
    case Node(l, n, _, _, r) => Nodes(l) + {n} + Nodes(r)
  }

  ghost function PathNodes<T>(path: Path<T>): set<RBNode<T>>
    decreases |path|
  {
    if path == [] then {} else {path[0].node} + Nodes(path[0].sibling) + PathNodes(path[1..])
  }

  /** In-order sequence of the nodes. */
  ghost function NodeSeq<T>(t: Tree<T>): seq<RBNode<T>> {
    match t
    case Nil => []
    case Node(l, n, _, _, r) => NodeSeq(l) + [n] + NodeSeq(r)
  }

  /** In-order sequence of the values: what iteration from begin() to end() yields. */
  ghost function Values<T>(t: Tree<T>): seq<T> {
    match t
    case Nil => []
    case Node(l, _, _, v, r) => Values(l) + [v] + Values(r)
  }

  /** Values of the tree that come before the subtree at `path`. */
  ghost function Before<T>(path: Path<T>): seq<T>
    decreases |path|
  {
    if path == [] then []
    else Before(path[1..]) + (if path[0].RightOf? then Values(path[0].sibling) + [path[0].value] else [])
  }

  /** Values of the tree that come after the subtree at `path`. */
  ghost function After<T>(path: Path<T>): seq<T>
    decreases |path|
  {
    if path == [] then []
    else (if path[0].LeftOf? then [path[0].value] + Values(path[0].sibling) else []) + After(path[1..])
  }

  ghost function BeforeNodes<T>(path: Path<T>): seq<RBNode<T>>
    decreases |path|
  {
    if path == [] then []
    else BeforeNodes(path[1..]) + (if path[0].RightOf? then NodeSeq(path[0].sibling) + [path[0].node] else [])
  }

  ghost function AfterNodes<T>(path: Path<T>): seq<RBNode<T>>
    decreases |path|
  {
    if path == [] then []
    else (if path[0].LeftOf? then [path[0].node] + NodeSeq(path[0].sibling) else []) + AfterNodes(path[1..])
  }

  /** No node occurs twice. */
  ghost predicate Distinct<T>(t: Tree<T>) {
    match t
    case Nil => true
    case Node(l, n, _, _, r) =>
      Distinct(l) && Distinct(r) && Nodes(l) !! Nodes(r) && n !in Nodes(l) && n !in Nodes(r)
  }

  ghost predicate DistinctPath<T>(path: Path<T>)
    decreases |path|
  {
    path == [] ||
      (Distinct(path[0].sibling) && path[0].node !in Nodes(path[0].sibling)
       && ({path[0].node} + Nodes(path[0].sibling)) !! PathNodes(path[1..])
       && DistinctPath(path[1..]))
  }

  // ---------------------------------------------------------------- links

  /** The fields of one node, as the heap holds them. */
  datatype Fields<T> = Fields(left: RBNode?<T>, right: RBNode?<T>, parent: RBNode?<T>, color: Color, value: Option<T>)

  /** The fields of every node of a tree: the tree keeps this map equal to its heap nodes. */
  type Links<T> = map<RBNode<T>, Fields<T>>

  ghost function FieldsOf<T>(n: RBNode<T>): Fields<T>
    reads n
  {
    Fields(n.left, n.right, n.parent, n.color, n.value)
  }

  /** The links of the nodes of `t` follow the shape; the top's parent is `p`. */
  ghost predicate Linked<T>(t: Tree<T>, p: RBNode?<T>, links: Links<T>) {
    match t
    case Nil => true
    case Node(l, n, c, v, r) =>
      && n in links && links[n] == Fields(Top(l), Top(r), p, c, Some(v))
      && Linked(l, n, links) && Linked(r, n, links)
  }

  /** The downward heap fields of the nodes of `t` (children, colour, value) follow `t`. */
  ghost predicate HeapTree<T>(t: Tree<T>)
    reads Nodes(t)
  {
    match t
    case Nil => true
    case Node(l, n, c, v, r) =>
      && n.left == Top(l) && n.right == Top(r) && n.color == c && n.value == Some(v)
      && HeapTree(l) && HeapTree(r)
  }

  /** The fields an ancestor has when its child on the path is `c` and its parent `p`. */
  ghost function FrameFields<T>(f: Frame<T>, c: RBNode?<T>, p: RBNode?<T>): Fields<T> {
    if f.LeftOf? then Fields(c, Top(f.sibling), p, f.color, Some(f.value))
    else Fields(Top(f.sibling), c, p, f.color, Some(f.value))
  }

  /** The ancestors on `path` are linked, the innermost one to the subtree top `c`. */
  ghost predicate LinkedPath<T>(path: Path<T>, c: RBNode?<T>, p: RBNode?<T>, links: Links<T>)
    decreases |path|
  {
    path == [] ||
      (var f := path[0];
       && f.node in links && links[f.node] == FrameFields(f, c, HoleParent(path[1..], p))
       && Linked(f.sibling, f.node, links)
       && LinkedPath(path[1..], f.node, p, links))
  }

  /** `after` holds what `before` holds for the nodes of `s`. */
  ghost predicate Agree<T>(before: Links<T>, after: Links<T>, s: set<RBNode<T>>) {
    forall n :: n in s && n in before ==> n in after && after[n] == before[n]
  }

  // ---------------------------------------------------------------- colours

  /** No red node has a red child; `parentRed` says whether the top hangs from a red node. */
  ghost predicate RedRule<T>(t: Tree<T>, parentRed: bool) {
    match t
    case Nil => true
    case Node(l, _, c, _, r) =>
      !(parentRed && c == Red) && RedRule(l, c == Red) && RedRule(r, c == Red)
  }

  /** Black nodes on the leftmost path. */
  ghost function BlackHeight<T>(t: Tree<T>): nat {
    match t
    case Nil => 0
    case Node(l, _, c, _, _) => BlackHeight(l) + (if c == Black then 1 else 0)
  }

  /** Every path from a node down to a leaf crosses the same number of black nodes. */
  ghost predicate BlackBalanced<T>(t: Tree<T>) {
    match t
    case Nil => true
    case Node(l, _, _, _, r) => BlackHeight(l) == BlackHeight(r) && BlackBalanced(l) && BlackBalanced(r)
  }

  ghost predicate RootBlack<T>(t: Tree<T>) {
    t.Nil? || t.color == Black
  }

  ghost predicate HoleParentRed<T>(path: Path<T>) {
    path != [] && path[0].color == Red
  }

  /** The red rule holds on the path, whatever (red-rule respecting) subtree fills the hole. */
  ghost predicate RedRuleCtx<T>(path: Path<T>)
    decreases |path|
  {
    path == [] ||
      (RedRule(path[0].sibling, path[0].color == Red)
       && !(path[0].color == Red && HoleParentRed(path[1..]))
       && RedRuleCtx(path[1..]))
  }

  /** The path is black-balanced around a hole of black height `h`. */
  ghost predicate BalancedCtx<T>(path: Path<T>, h: nat)
    decreases |path|
  {
    path == [] ||
      (BlackBalanced(path[0].sibling) && BlackHeight(path[0].sibling) == h
       && BalancedCtx(path[1..], h + if path[0].color == Black then 1 else 0))
  }

  // ---------------------------------------------------------------- rotations

  /** The shape after _rotateLeft at the top of `t`: colours and values are untouched. */
  ghost function RotateLeftShape<T>(t: Tree<T>): Tree<T>
    requires t.Node? && t.right.Node?
  {
    var Node(a, x, xc, xv, Node(b, y, yc, yv, c)) := t;
    Node(Node(a, x, xc, xv, b), y, yc, yv, c)
  }

  /** The shape after _rotateRight at the top of `t`. */
  ghost function RotateRightShape<T>(t: Tree<T>): Tree<T>
    requires t.Node? && t.left.Node?
  {
    var Node(Node(a, y, yc, yv, b), x, xc, xv, c) := t;
    Node(a, y, yc, yv, Node(b, x, xc, xv, c))
  }

  /** The nodes whose fields a rotation at `x` changes. */
  ghost function RotationTouched<T>(x: RBNode<T>, y: RBNode<T>, b: RBNode?<T>, q: RBNode?<T>): set<RBNode<T>> {
    {x, y} + (if b != null then {b} else {}) + (if q != null then {q} else {})
  }

  /** In `q`'s fields, the child `x` is replaced by `y`. */
  ghost function ReplaceChild<T>(f: Fields<T>, x: RBNode?<T>, y: RBNode?<T>): Fields<T> {
    if f.left == x then f.(left := y) else f.(right := y)
  }

  /**
   * `after` is `before` once _rotateLeft(x) has run: `y`, the right child of
   * `x`, takes the place of `x` under `q`; `b`, the left child of `y`,
   * becomes the right child of `x`; no other node changes.
   */
  ghost predicate RotatedLeft<T>(before: Links<T>, after: Links<T>, x: RBNode<T>, y: RBNode<T>, b: RBNode?<T>, q: RBNode?<T>) {
    && x in before && y in before && (b != null ==> b in before) && (q != null ==> q in before)
    && x in after && after[x] == before[x].(right := b, parent := y)
    && y in after && after[y] == before[y].(left := x, parent := q)
    && (b != null ==> b in after && after[b] == before[b].(parent := x))
    && (q != null ==> q in after && after[q] == ReplaceChild(before[q], x, y))
    && forall n :: n in before && n !in RotationTouched(x, y, b, q) ==> n in after && after[n] == before[n]
  }

  /** The mirror image: _rotateRight(x) lifts the left child `y`, whose right child `b` moves under `x`. */
  ghost predicate RotatedRight<T>(before: Links<T>, after: Links<T>, x: RBNode<T>, y: RBNode<T>, b: RBNode?<T>, q: RBNode?<T>) {
    && x in before && y in before && (b != null ==> b in before) && (q != null ==> q in before)
    && x in after && after[x] == before[x].(left := b, parent := y)
    && y in after && after[y] == before[y].(right := x, parent := q)
    && (b != null ==> b in after && after[b] == before[b].(parent := x))
    && (q != null ==> q in after && after[q] == ReplaceChild(before[q], x, y))
    && forall n :: n in before && n !in RotationTouched(x, y, b, q) ==> n in after && after[n] == before[n]
  }

  // ================================================================ lemmas

  lemma {:induction false} PlugValues<T>(path: Path<T>, t: Tree<T>)
    ensures Values(Plug(path, t)) == Before(path) + Values(t) + After(path)
    decreases |path|
  {
    if path != [] {
      PlugValues(path[1..], Fill(path[0], t));
    }
  }

  lemma {:induction false} PlugNodeSeq<T>(path: Path<T>, t: Tree<T>)
    ensures NodeSeq(Plug(path, t)) == BeforeNodes(path) + NodeSeq(t) + AfterNodes(path)
    decreases |path|
  {
    if path != [] {
      PlugNodeSeq(path[1..], Fill(path[0], t));
    }
  }

  lemma {:induction false} PlugNodes<T>(path: Path<T>, t: Tree<T>)
    ensures Nodes(Plug(path, t)) == PathNodes(path) + Nodes(t)
    decreases |path|
  {
    if path != [] {
      PlugNodes(path[1..], Fill(path[0], t));
    }
  }

  /** Plugging two subtrees whose tops have the same colour gives roots of the same colour. */
  lemma {:induction false} PlugSameColor<T>(path: Path<T>, t: Tree<T>, u: Tree<T>)
    requires t.Node? && u.Node? && t.color == u.color
    ensures RootBlack(Plug(path, t)) == RootBlack(Plug(path, u))
    decreases |path|
  {
    if path != [] {
      PlugSameColor(path[1..], Fill(path[0], t), Fill(path[0], u));
    }
  }

  /** A tree has as many nodes in order as values. */
  lemma {:induction false} NodeSeqLength<T>(t: Tree<T>)
    ensures |NodeSeq(t)| == |Values(t)|
  {
    if t.Node? {
      NodeSeqLength(t.left);
      NodeSeqLength(t.right);
    }
  }

  lemma {:induction false} NodesOfNodeSeq<T>(t: Tree<T>)
    ensures Nodes(t) == set n | n in NodeSeq(t)
    ensures |NodeSeq(t)| == |Values(t)|
  {
    if t.Node? {
      NodesOfNodeSeq(t.left);
      NodesOfNodeSeq(t.right);
    }
  }

  lemma {:induction false} PlugDistinct<T>(path: Path<T>, t: Tree<T>)
    ensures Distinct(Plug(path, t)) <==> DistinctPath(path) && Distinct(t) && Nodes(t) !! PathNodes(path)
    decreases |path|
  {
    if path != [] {
      PlugDistinct(path[1..], Fill(path[0], t));
    }
  }

  lemma {:induction false} PlugLinked<T>(path: Path<T>, t: Tree<T>, p: RBNode?<T>, links: Links<T>)
    ensures Linked(Plug(path, t), p, links) <==>
      LinkedPath(path, Top(t), p, links) && Linked(t, HoleParent(path, p), links)
    decreases |path|
  {
    if path != [] {
      PlugLinked(path[1..], Fill(path[0], t), p, links);
    }
  }

  /** Links of nodes outside a tree do not matter to it. */
  lemma {:induction false} LinkedFrame<T>(t: Tree<T>, p: RBNode?<T>, before: Links<T>, after: Links<T>)
    requires Linked(t, p, before)
    requires Agree(before, after, Nodes(t))
    ensures Linked(t, p, after)
  {
    if t.Node? {
      LinkedFrame(t.left, t.node, before, after);
      LinkedFrame(t.right, t.node, before, after);
    }
  }

  lemma {:induction false} LinkedPathFrame<T>(path: Path<T>, c: RBNode?<T>, p: RBNode?<T>, before: Links<T>, after: Links<T>)
    requires LinkedPath(path, c, p, before)
    requires Agree(before, after, PathNodes(path))
    ensures LinkedPath(path, c, p, after)
    decreases |path|
  {
    if path != [] {
      LinkedFrame(path[0].sibling, path[0].node, before, after);
      LinkedPathFrame(path[1..], path[0].node, p, before, after);
    }
  }

  lemma {:induction false} PlugRedRule<T>(path: Path<T>, t: Tree<T>)
    ensures RedRule(Plug(path, t), false) <==> RedRuleCtx(path) && RedRule(t, HoleParentRed(path))
    decreases |path|
  {
    if path != [] {
      PlugRedRule(path[1..], Fill(path[0], t));
    }
  }

  lemma {:induction false} PlugBalanced<T>(path: Path<T>, t: Tree<T>)
    ensures BlackBalanced(Plug(path, t)) <==> BlackBalanced(t) && BalancedCtx(path, BlackHeight(t))
    decreases |path|
  {
    if path != [] {
      var f := path[0];
      PlugBalanced(path[1..], Fill(f, t));
      if BlackBalanced(Fill(f, t)) {
        assert BlackHeight(Fill(f, t)) == BlackHeight(t) + if f.color == Black then 1 else 0;
      }
    }
  }

  /** Below a non-empty path, the root's colour does not depend on the subtree. */
  lemma {:induction false} PlugRootColor<T>(path: Path<T>, a: Tree<T>, b: Tree<T>)
    requires path != []
    ensures Plug(path, a).Node? && Plug(path, b).Node?
    ensures Plug(path, a).color == Plug(path, b).color
    decreases |path|
  {
    if |path| > 1 {
      PlugRootColor(path[1..], Fill(path[0], a), Fill(path[0], b));
    }
  }

  /** Below a non-empty path, the root node is the outermost ancestor. */
  lemma {:induction false} PlugTop<T>(path: Path<T>, t: Tree<T>)
    ensures Top(Plug(path, t)) == if path == [] then Top(t) else path[|path| - 1].node
    decreases |path|
  {
    if path != [] {
      PlugTop(path[1..], Fill(path[0], t));
    }
  }

  /** A red rule that holds below a red parent also holds below a black one. */
  lemma RedRuleWeaken<T>(t: Tree<T>)
    requires RedRule(t, true)
    ensures RedRule(t, false)
  {
  }

  lemma RotateLeftDistinct<T>(t: Tree<T>)
    requires t.Node? && t.right.Node?
    ensures Distinct(RotateLeftShape(t)) == Distinct(t)
  {
  }

  lemma RotateRightDistinct<T>(t: Tree<T>)
    requires t.Node? && t.left.Node?
    ensures Distinct(RotateRightShape(t)) == Distinct(t)
  {
  }

  lemma {:induction false} RotateLeftKeeps<T>(t: Tree<T>)
    requires t.Node? && t.right.Node?
    ensures Values(RotateLeftShape(t)) == Values(t)
    ensures NodeSeq(RotateLeftShape(t)) == NodeSeq(t)
    ensures Nodes(RotateLeftShape(t)) == Nodes(t)
  {
    var Node(a, x, xc, xv, Node(b, y, yc, yv, c)) := t;
    Regroup(Values(a), xv, Values(b), yv, Values(c));
    Regroup(NodeSeq(a), x, NodeSeq(b), y, NodeSeq(c));
  }

  lemma {:induction false} RotateRightKeeps<T>(t: Tree<T>)
    requires t.Node? && t.left.Node?
    ensures Values(RotateRightShape(t)) == Values(t)
    ensures NodeSeq(RotateRightShape(t)) == NodeSeq(t)
    ensures Nodes(RotateRightShape(t)) == Nodes(t)
  {
    var Node(Node(a, y, yc, yv, b), x, xc, xv, c) := t;
    Regroup(Values(a), yv, Values(b), xv, Values(c));
    Regroup(NodeSeq(a), y, NodeSeq(b), x, NodeSeq(c));
  }

  /** The two groupings of an in-order sequence around two neighbouring nodes agree. */
  lemma Regroup<X>(a: seq<X>, x: X, b: seq<X>, y: X, c: seq<X>)
    ensures a + [x] + b + [y] + c == a + [x] + (b + [y] + c)
  {
  }

  /** Links that agree outside `touched` agree on every set that avoids it. */
  lemma AgreeAway<T>(before: Links<T>, after: Links<T>, touched: set<RBNode<T>>, s: set<RBNode<T>>)
    requires forall n :: n in before && n !in touched ==> n in after && after[n] == before[n]
    requires s !! touched
    ensures Agree(before, after, s)
  {
  }

  /** The rotated subtree is linked when the rotation's nodes got their new fields and nothing else changed. */
  lemma RotateLeftSubtree<T>(t: Tree<T>, q: RBNode?<T>, before: Links<T>, after: Links<T>)
    requires t.Node? && t.right.Node? && Distinct(t) && Linked(t, q, before) && q !in Nodes(t)
    requires RotatedLeft(before, after, t.node, t.right.node, Top(t.right.left), q)
    ensures Linked(RotateLeftShape(t), q, after)
  {
    var Node(a, x, xc, xv, Node(b, y, yc, yv, c)) := t;
    var touched := RotationTouched(x, y, Top(b), q);
    assert Linked(t.right, x, before);
    assert Nodes(a) !! Nodes(t.right) && x !in Nodes(a) && x !in Nodes(t.right);
    assert Distinct(t.right);
    assert Nodes(b) !! Nodes(c) && y !in Nodes(b) && y !in Nodes(c);
    AgreeAway(before, after, touched, Nodes(a));
    LinkedFrame(a, x, before, after);
    AgreeAway(before, after, touched, Nodes(c));
    LinkedFrame(c, y, before, after);
    if b.Node? {
      assert Linked(b, y, before);
      assert Distinct(b);
      AgreeAway(before, after, touched, Nodes(b.left));
      LinkedFrame(b.left, b.node, before, after);
      AgreeAway(before, after, touched, Nodes(b.right));
      LinkedFrame(b.right, b.node, before, after);
      assert Linked(b, x, after);
    }
    assert Linked(Node(a, x, xc, xv, b), y, after);
  }

  lemma RotateRightSubtree<T>(t: Tree<T>, q: RBNode?<T>, before: Links<T>, after: Links<T>)
    requires t.Node? && t.left.Node? && Distinct(t) && Linked(t, q, before) && q !in Nodes(t)
    requires RotatedRight(before, after, t.node, t.left.node, Top(t.left.right), q)
    ensures Linked(RotateRightShape(t), q, after)
  {
    var Node(Node(a, y, yc, yv, b), x, xc, xv, c) := t;
    var touched := RotationTouched(x, y, Top(b), q);
    assert Linked(t.left, x, before);
    assert Nodes(c) !! Nodes(t.left) && x !in Nodes(c) && x !in Nodes(t.left);
    assert Distinct(t.left);
    assert Nodes(a) !! Nodes(b) && y !in Nodes(a) && y !in Nodes(b);
    AgreeAway(before, after, touched, Nodes(a));
    LinkedFrame(a, y, before, after);
    AgreeAway(before, after, touched, Nodes(c));
    LinkedFrame(c, x, before, after);
    if b.Node? {
      assert Linked(b, y, before);
      assert Distinct(b);
      AgreeAway(before, after, touched, Nodes(b.left));
      LinkedFrame(b.left, b.node, before, after);
      AgreeAway(before, after, touched, Nodes(b.right));
      LinkedFrame(b.right, b.node, before, after);
      assert Linked(b, x, after);
    }
    assert Linked(Node(b, x, xc, xv, c), y, after);
  }

  /**
   * The ancestors stay linked when the child of the innermost one changes from
   * `c` to `c'` and nothing else of theirs changes.
   */
  lemma LinkedPathRetop<T>(path: Path<T>, c: RBNode?<T>, c': RBNode?<T>, p: RBNode?<T>, before: Links<T>, after: Links<T>, touched: set<RBNode<T>>)
    requires LinkedPath(path, c, p, before) && DistinctPath(path)
    requires forall n :: n in before && n !in touched ==> n in after && after[n] == before[n]
    requires path != [] ==>
      (var q := path[0].node; q in before && q in after && after[q] == ReplaceChild(before[q], c, c'))
    requires path != [] ==> Nodes(path[0].sibling) !! touched && PathNodes(path[1..]) !! touched
    requires path != [] ==> c != Top(path[0].sibling)
    ensures LinkedPath(path, c', p, after)
  {
    if path != [] {
      var q := path[0].node;
      LinkedFrame(path[0].sibling, q, before, after) by {
        AgreeAway(before, after, touched, Nodes(path[0].sibling));
      }
      LinkedPathFrame(path[1..], q, p, before, after) by {
        AgreeAway(before, after, touched, PathNodes(path[1..]));
      }
    }
  }

  /** The facts about a rotation site that the tree reads off its links before rotating. */
  ghost predicate RotationSite<T>(links: Links<T>, x: RBNode<T>, y: RBNode<T>, b: RBNode?<T>, q: RBNode?<T>, s: set<RBNode<T>>) {
    && x != y && b != x && b != y && q != x && q != y && (q != null ==> q != b)
    && RotationTouched(x, y, b, q) <= s
    && x in links && y in links && (b != null ==> b in links) && (q != null ==> q in links)
    && links[x].parent == q
  }

  /**
   * _rotateLeft at the top of the subtree `t` of a tree whose root hangs from
   * no node: the links, once rotated, follow the rotated shape, and the
   * in-order sequences and the node set do not change.
   */
  lemma RotateLeftPlug<T>(path: Path<T>, t: Tree<T>, before: Links<T>)
    requires t.Node? && t.right.Node?
    requires Distinct(Plug(path, t)) && Linked(Plug(path, t), null, before)
    ensures var x, y, b, q := t.node, t.right.node, Top(t.right.left), HoleParent(path, null);
      && RotationSite(before, x, y, b, q, Nodes(Plug(path, t)))
      && before[x].right == y && before[y].left == b
      && (q != null ==> before[q].left == x || before[q].right == x)
    ensures var t' := Plug(path, RotateLeftShape(t));
      && Distinct(t')
      && Nodes(t') == Nodes(Plug(path, t))
      && Values(t') == Values(Plug(path, t))
      && NodeSeq(t') == NodeSeq(Plug(path, t))
      && Top(t') == if path == [] then t.right.node else Top(Plug(path, t))
  {
    var Node(a, x, xc, xv, Node(b, y, yc, yv, c)) := t;
    var q := HoleParent(path, null);
    PlugLinked(path, t, null, before);
    PlugDistinct(path, t);
    PlugNodes(path, t);
    PlugTop(path, t);
    assert Linked(t.right, x, before);
    if b.Node? {
      assert Linked(b, y, before);
    }
    assert Distinct(t) && Distinct(t.right);
    assert q != null ==> q in PathNodes(path);
    if path != [] {
      assert PathNodes(path) == {q} + Nodes(path[0].sibling) + PathNodes(path[1..]);
      assert q !in Nodes(path[0].sibling);
    }
    var t' := RotateLeftShape(t);
    RotateLeftKeeps(t);
    RotateLeftDistinct(t);
    PlugTop(path, t');
    PlugDistinct(path, t');
    PlugNodes(path, t');
    PlugValues(path, t);
    PlugValues(path, t');
    PlugNodeSeq(path, t);
    PlugNodeSeq(path, t');
  }

  lemma RotateRightPlug<T>(path: Path<T>, t: Tree<T>, before: Links<T>)
    requires t.Node? && t.left.Node?
    requires Distinct(Plug(path, t)) && Linked(Plug(path, t), null, before)
    ensures var x, y, b, q := t.node, t.left.node, Top(t.left.right), HoleParent(path, null);
      && RotationSite(before, x, y, b, q, Nodes(Plug(path, t)))
      && before[x].left == y && before[y].right == b
      && (q != null ==> before[q].left == x || before[q].right == x)
    ensures var t' := Plug(path, RotateRightShape(t));
      && Distinct(t')
      && Nodes(t') == Nodes(Plug(path, t))
      && Values(t') == Values(Plug(path, t))
      && NodeSeq(t') == NodeSeq(Plug(path, t))
      && Top(t') == if path == [] then t.left.node else Top(Plug(path, t))
  {
    var Node(Node(a, y, yc, yv, b), x, xc, xv, c) := t;
    var q := HoleParent(path, null);
    PlugLinked(path, t, null, before);
    PlugDistinct(path, t);
    PlugNodes(path, t);
    PlugTop(path, t);
    assert Linked(t.left, x, before);
    if b.Node? {
      assert Linked(b, y, before);
    }
    assert Distinct(t) && Distinct(t.left);
    assert q != null ==> q in PathNodes(path);
    if path != [] {
      assert PathNodes(path) == {q} + Nodes(path[0].sibling) + PathNodes(path[1..]);
      assert q !in Nodes(path[0].sibling);
    }
    var t' := RotateRightShape(t);
    RotateRightKeeps(t);
    RotateRightDistinct(t);
    PlugTop(path, t');
    PlugDistinct(path, t');
    PlugNodes(path, t');
    PlugValues(path, t);
    PlugValues(path, t');
    PlugNodeSeq(path, t);
    PlugNodeSeq(path, t');
  }

  /** Once the links are rotated at the top of `t`, they follow the rotated shape. */
  lemma RotateLeftRelinked<T>(path: Path<T>, t: Tree<T>, before: Links<T>, after: Links<T>)
    requires t.Node? && t.right.Node?
    requires Distinct(Plug(path, t)) && Linked(Plug(path, t), null, before)
    requires RotatedLeft(before, after, t.node, t.right.node, Top(t.right.left), HoleParent(path, null))
    ensures Linked(Plug(path, RotateLeftShape(t)), null, after)
  {
    var Node(a, x, xc, xv, Node(b, y, yc, yv, c)) := t;
    var q := HoleParent(path, null);
    PlugLinked(path, t, null, before);
    PlugDistinct(path, t);
    assert Distinct(t) && Distinct(t.right);
    if path != [] {
      assert PathNodes(path) == {q} + Nodes(path[0].sibling) + PathNodes(path[1..]);
      assert q !in Nodes(path[0].sibling);
    }
    RotateLeftSubtree(t, q, before, after);
    LinkedPathRetop(path, x, y, null, before, after, RotationTouched(x, y, Top(b), q));
    PlugLinked(path, RotateLeftShape(t), null, after);
  }

  lemma RotateRightRelinked<T>(path: Path<T>, t: Tree<T>, before: Links<T>, after: Links<T>)
    requires t.Node? && t.left.Node?
    requires Distinct(Plug(path, t)) && Linked(Plug(path, t), null, before)
    requires RotatedRight(before, after, t.node, t.left.node, Top(t.left.right), HoleParent(path, null))
    ensures Linked(Plug(path, RotateRightShape(t)), null, after)
  {
    var Node(Node(a, y, yc, yv, b), x, xc, xv, c) := t;
    var q := HoleParent(path, null);
    PlugLinked(path, t, null, before);
    PlugDistinct(path, t);
    assert Distinct(t) && Distinct(t.left);
    if path != [] {
      assert PathNodes(path) == {q} + Nodes(path[0].sibling) + PathNodes(path[1..]);
      assert q !in Nodes(path[0].sibling);
    }
    RotateRightSubtree(t, q, before, after);
    LinkedPathRetop(path, x, y, null, before, after, RotationTouched(x, y, Top(b), q));
    PlugLinked(path, RotateRightShape(t), null, after);
  }

  // ---------------------------------------------------------------- neighbourhoods

  /** One step of Plug: the innermost ancestor is filled first. */
  lemma PlugCons<T>(f: Frame<T>, path: Path<T>, t: Tree<T>)
    ensures Plug([f] + path, t) == Plug(path, Fill(f, t))
  {
    assert ([f] + path)[1..] == path;
  }

  /** Below a non-empty path, the root's colour is the outermost ancestor's. */
  lemma {:induction false} PlugRootIsLast<T>(path: Path<T>, t: Tree<T>)
    requires path != []
    ensures Plug(path, t).Node? && Plug(path, t).color == path[|path| - 1].color
    decreases |path|
  {
    if |path| > 1 {
      PlugRootIsLast(path[1..], Fill(path[0], t));
    }
  }

  /**
   * What the links say about the top of the subtree at `path`, its children,
   * its parent, its grandparent and its uncle.
   */
  lemma LinksAround<T>(path: Path<T>, t: Tree<T>, a: RBNode?<T>, links: Links<T>)
    requires Linked(Plug(path, t), a, links)
    ensures t.Node? ==> t.node in links && links[t.node] == Fields(Top(t.left), Top(t.right), HoleParent(path, a), t.color, Some(t.value))
    ensures t.Node? && t.left.Node? ==> t.left.node in links && links[t.left.node].parent == t.node && links[t.left.node].color == t.left.color
    ensures t.Node? && t.right.Node? ==> t.right.node in links && links[t.right.node].parent == t.node && links[t.right.node].color == t.right.color
    ensures path != [] ==> path[0].node in links && links[path[0].node] == FrameFields(path[0], Top(t), HoleParent(path[1..], a))
    ensures |path| >= 2 ==> path[1].node in links && links[path[1].node] == FrameFields(path[1], path[0].node, HoleParent(path[2..], a))
    ensures |path| >= 2 && path[1].sibling.Node? ==>
      path[1].sibling.node in links && links[path[1].sibling.node].color == path[1].sibling.color
  {
    PlugLinked(path, t, a, links);
    if path != [] {
      assert LinkedPath(path[1..], path[0].node, a, links);
      if |path| >= 2 {
        assert path[1..][0] == path[1] && path[1..][1..] == path[2..];
        assert Linked(path[1].sibling, path[1].node, links);
      }
    }
  }

  /** The nodes the fix-up reads belong to the tree, and the distinct ones differ. */
  lemma NodesAround<T>(path: Path<T>, t: Tree<T>)
    requires Distinct(Plug(path, t))
    ensures Nodes(t) <= Nodes(Plug(path, t))
    ensures path != [] ==> path[0].node in Nodes(Plug(path, t)) && Nodes(path[0].sibling) <= Nodes(Plug(path, t))
    ensures path != [] ==> path[0].node != Top(t) && Top(path[0].sibling) != path[0].node
    ensures path != [] && t.Node? ==> Top(path[0].sibling) != t.node
    ensures |path| >= 2 ==> path[1].node in Nodes(Plug(path, t)) && Nodes(path[1].sibling) <= Nodes(Plug(path, t))
    ensures |path| >= 2 ==> path[1].node != path[0].node && path[1].node != Top(t)
    ensures |path| >= 2 ==> Top(path[1].sibling) != path[0].node && Top(path[1].sibling) != path[1].node
    ensures path != [] && t.Node? ==> t.node != Top(Plug(path, t))
  {
    PlugNodes(path, t);
    PlugDistinct(path, t);
    PlugTop(path, t);
    if path != [] {
      assert PathNodes(path) == {path[0].node} + Nodes(path[0].sibling) + PathNodes(path[1..]);
      assert path[|path| - 1].node in PathNodes(path) by {
        PathNodesHasLast(path);
      }
      if |path| >= 2 {
        assert PathNodes(path[1..]) == {path[1].node} + Nodes(path[1].sibling) + PathNodes(path[2..]) by {
          assert path[1..][0] == path[1] && path[1..][1..] == path[2..];
        }
        assert DistinctPath(path[1..]);
        assert path[1..][0] == path[1];
      }
    }
  }

  lemma {:induction false} PathNodesHasLast<T>(path: Path<T>)
    requires path != []
    ensures path[|path| - 1].node in PathNodes(path)
    decreases |path|
  {
    if |path| > 1 {
      PathNodesHasLast(path[1..]);
    }
  }

  // ---------------------------------------------------------------- painting

  /**
   * Giving the top of the subtree at `path` the colour `c` keeps the tree
   * linked once its record in the links is updated, and changes neither the
   * nodes, their order, the values nor the root.
   */
  lemma PaintPlug<T>(path: Path<T>, t: Tree<T>, a: RBNode?<T>, links: Links<T>, c: Color)
    requires t.Node? && Distinct(Plug(path, t)) && Linked(Plug(path, t), a, links)
    ensures t.node in links
    ensures var t' := Plug(path, t.(color := c));
      && Linked(t', a, links[t.node := links[t.node].(color := c)])
      && Distinct(t')
      && Nodes(t') == Nodes(Plug(path, t))
      && Values(t') == Values(Plug(path, t))
      && NodeSeq(t') == NodeSeq(Plug(path, t))
      && Top(t') == Top(Plug(path, t))
  {
    var n := t.node;
    PlugLinked(path, t, a, links);
    var after := links[n := links[n].(color := c)];
    var t1 := t.(color := c);
    PlugDistinct(path, t);
    LinkedPathFrame(path, n, a, links, after);
    LinkedFrame(t.left, n, links, after);
    LinkedFrame(t.right, n, links, after);
    assert Linked(t1, HoleParent(path, a), after);
    PlugLinked(path, t1, a, after);
    PlugDistinct(path, t1);
    PlugNodes(path, t);
    PlugNodes(path, t1);
    PlugValues(path, t);
    PlugValues(path, t1);
    PlugNodeSeq(path, t);
    PlugNodeSeq(path, t1);
    PlugTop(path, t);
    PlugTop(path, t1);
  }

  /** Giving the top of the tree a new parent `p'` keeps it linked once the top's record is updated. */
  lemma ReparentTop<T>(t: Tree<T>, p: RBNode?<T>, p': RBNode?<T>, links: Links<T>)
    requires t.Node? && Distinct(t) && Linked(t, p, links)
    ensures t.node in links && Linked(t, p', links[t.node := links[t.node].(parent := p')])
  {
    var after := links[t.node := links[t.node].(parent := p')];
    LinkedFrame(t.left, t.node, links, after);
    LinkedFrame(t.right, t.node, links, after);
  }

  /**
   * _bst_insert's final step: a red leaf `n` holding `v` is hung where the
   * descent fell off the tree, below the innermost ancestor on `path`.
   */
  lemma AttachLeaf<T>(path: Path<T>, n: RBNode<T>, v: T, links: Links<T>, after: Links<T>)
    requires path != [] && Distinct(Plug(path, Nil)) && Linked(Plug(path, Nil), null, links)
    requires n !in Nodes(Plug(path, Nil))
    requires after == links[n := Fields(null, null, path[0].node, Red, Some(v))]
                           [path[0].node := FrameFields(path[0], n, HoleParent(path[1..], null))]
    ensures Linked(Plug(path, Node(Nil, n, Red, v, Nil)), null, after)
  {
    var leaf := Node(Nil, n, Red, v, Nil);
    var q := path[0].node;
    PlugLinked(path, Nil, null, links);
    PlugDistinct(path, Nil);
    PlugNodes(path, Nil);
    assert PathNodes(path) == {q} + Nodes(path[0].sibling) + PathNodes(path[1..]);
    assert n != q && n !in Nodes(path[0].sibling) && n !in PathNodes(path[1..]);
    assert q !in Nodes(path[0].sibling) && q !in PathNodes(path[1..]);
    AgreeAway(links, after, {n, q}, Nodes(path[0].sibling));
    LinkedFrame(path[0].sibling, q, links, after);
    AgreeAway(links, after, {n, q}, PathNodes(path[1..]));
    LinkedPathFrame(path[1..], q, null, links, after);
    assert LinkedPath(path, n, null, after);
    assert Linked(leaf, q, after);
    PlugLinked(path, leaf, null, after);
  }

  /** The leaf adds one node, and its value goes between the values before and after the hole. */
  lemma AttachLeafShape<T>(path: Path<T>, n: RBNode<T>, v: T)
    requires Distinct(Plug(path, Nil)) && n !in Nodes(Plug(path, Nil))
    ensures var t' := Plug(path, Node(Nil, n, Red, v, Nil));
      && Distinct(t')
      && Nodes(t') == Nodes(Plug(path, Nil)) + {n}
      && Values(t') == Before(path) + [v] + After(path)
      && Values(Plug(path, Nil)) == Before(path) + After(path)
      && Top(t') == if path == [] then n else Top(Plug(path, Nil))
  {
    var leaf := Node(Nil, n, Red, v, Nil);
    AttachLeafNodes(path, leaf);
    PlugValues(path, Nil);
    PlugValues(path, leaf);
    PlugTop(path, Nil);
    PlugTop(path, leaf);
  }

  lemma AttachLeafNodes<T>(path: Path<T>, leaf: Tree<T>)
    requires leaf.Node? && leaf.left.Nil? && leaf.right.Nil?
    requires Distinct(Plug(path, Nil)) && leaf.node !in Nodes(Plug(path, Nil))
    ensures Distinct(Plug(path, leaf))
    ensures Nodes(Plug(path, leaf)) == Nodes(Plug(path, Nil)) + {leaf.node}
  {
    PlugDistinct(path, Nil);
    PlugNodes(path, Nil);
    PlugDistinct(path, leaf);
    PlugNodes(path, leaf);
  }

  /** A linked tree whose links mirror the heap can be read off the heap. */
  lemma {:induction false} MirroredHeapTree<T>(t: Tree<T>, p: RBNode?<T>, links: Links<T>)
    requires Linked(t, p, links)
    requires forall n :: n in Nodes(t) ==> n in links && links[n] == FieldsOf(n)
    ensures HeapTree(t)
  {
    if t.Node? {
      MirroredHeapTree(t.left, t.node, links);
      MirroredHeapTree(t.right, t.node, links);
    }
  }

  lemma {:induction false} BeforeNodesLength<T>(path: Path<T>)
    ensures |BeforeNodes(path)| == |Before(path)|
    decreases |path|
  {
    if path != [] {
      BeforeNodesLength(path[1..]);
      NodesOfNodeSeq(path[0].sibling);
    }
  }

  /** The top of the subtree at `path` sits in the in-order sequences right after the values before it. */
  lemma PlugAt<T>(path: Path<T>, t: Tree<T>)
    requires t.Node?
    ensures var k := |Before(path)| + |Values(t.left)|;
      && k < |NodeSeq(Plug(path, t))| && NodeSeq(Plug(path, t))[k] == t.node
      && k < |Values(Plug(path, t))| && Values(Plug(path, t))[k] == t.value
  {
    PlugNodeSeq(path, t);
    PlugValues(path, t);
    BeforeNodesLength(path);
    NodesOfNodeSeq(t.left);
    var k := |Before(path)| + |Values(t.left)|;
    assert NodeSeq(Plug(path, t))[k] == (NodeSeq(t.left) + [t.node] + NodeSeq(t.right))[|NodeSeq(t.left)|];
    assert Values(Plug(path, t))[k] == (Values(t.left) + [t.value] + Values(t.right))[|Values(t.left)|];
  }

  /** Read off the heap, the node at in-order position `k` holds the value at position `k`. */
  lemma {:induction false} HeapValueAt<T>(t: Tree<T>, k: nat)
    requires HeapTree(t) && k < |Values(t)|
    ensures k < |NodeSeq(t)| && NodeSeq(t)[k].value == Some(Values(t)[k])
    ensures NodeSeq(t)[k] in Nodes(t)
  {
    NodesOfNodeSeq(t);
    var Node(l, n, _, v, r) := t;
    NodesOfNodeSeq(l);
    if k < |Values(l)| {
      HeapValueAt(l, k);
      assert NodeSeq(t)[k] == NodeSeq(l)[k] && Values(t)[k] == Values(l)[k];
    } else if k > |Values(l)| {
      HeapValueAt(r, k - |Values(l)| - 1);
      assert NodeSeq(t)[k] == NodeSeq(r)[k - |Values(l)| - 1] && Values(t)[k] == Values(r)[k - |Values(l)| - 1];
    } else {
      assert NodeSeq(t)[k] == n && Values(t)[k] == v;
    }
  }

  /** In a tree without repeated nodes, no node occurs twice in the in-order sequence. */
  lemma {:induction false} DistinctNodeSeq<T>(t: Tree<T>)
    requires Distinct(t)
    ensures forall i, j :: 0 <= i < j < |NodeSeq(t)| ==> NodeSeq(t)[i] != NodeSeq(t)[j]
  {
    if t.Node? {
      var Node(l, n, _, _, r) := t;
      DistinctNodeSeq(l);
      DistinctNodeSeq(r);
      NodesOfNodeSeq(l);
      NodesOfNodeSeq(r);
      var s := NodeSeq(t);
      forall i, j | 0 <= i < j < |s| ensures s[i] != s[j] {
        var a := |NodeSeq(l)|;
        if j < a {
          assert s[i] == NodeSeq(l)[i] && s[j] == NodeSeq(l)[j];
        } else if i > a {
          assert s[i] == NodeSeq(r)[i - a - 1] && s[j] == NodeSeq(r)[j - a - 1];
        } else if i == a {
          assert s[j] == NodeSeq(r)[j - a - 1];
          assert s[j] in Nodes(r);
        } else if j == a {
          assert s[i] == NodeSeq(l)[i];
          assert s[i] in Nodes(l);
        } else {
          assert s[i] == NodeSeq(l)[i] && s[j] == NodeSeq(r)[j - a - 1];
          assert s[i] in Nodes(l) && s[j] in Nodes(r);
        }
      }
    }
  }

  /** The outermost ancestor is filled last. */
  lemma {:induction false} PlugSnoc<T>(path: Path<T>, f: Frame<T>, t: Tree<T>)
    ensures Plug(path + [f], t) == Fill(f, Plug(path, t))
    decreases |path|
  {
    if path != [] {
      assert (path + [f])[1..] == path[1..] + [f];
      PlugSnoc(path[1..], f, Fill(path[0], t));
    }
  }

  /** The outermost ancestor contributes the first nodes before the hole. */
  lemma {:induction false} BeforeNodesSnoc<T>(path: Path<T>, f: Frame<T>)
    ensures BeforeNodes(path + [f]) == (if f.RightOf? then NodeSeq(f.sibling) + [f.node] else []) + BeforeNodes(path)
    decreases |path|
  {
    if path != [] {
      assert (path + [f])[1..] == path[1..] + [f];
      BeforeNodesSnoc(path[1..], f);
    } else {
      assert [f][1..] == [];
    }
  }

  /** The node at in-order position `k` is the top of a subtree; the ancestors bring `k` nodes before its left subtree. */
  lemma {:induction false} Locate<T>(t: Tree<T>, k: nat) returns (path: Path<T>, sub: Tree<T>)
    requires k < |NodeSeq(t)|
    ensures Plug(path, sub) == t && sub.Node? && sub.node == NodeSeq(t)[k]
    ensures |BeforeNodes(path)| + |NodeSeq(sub.left)| == k
  {
    var Node(l, n, c, v, r) := t;
    var a := |NodeSeq(l)|;
    if k < a {
      var p', s' := Locate(l, k);
      path, sub := p' + [LeftOf(n, c, v, r)], s';
      PlugSnoc(p', LeftOf(n, c, v, r), s');
      BeforeNodesSnoc(p', LeftOf(n, c, v, r));
    } else if k == a {
      path, sub := [], t;
    } else {
      var p', s' := Locate(r, k - a - 1);
      path, sub := p' + [RightOf(l, n, c, v)], s';
      PlugSnoc(p', RightOf(l, n, c, v), s');
      BeforeNodesSnoc(p', RightOf(l, n, c, v));
    }
  }

  /** The heap fields of a whole tree follow its shape only if those of each subtree do. */
  lemma {:induction false} HeapTreePlug<T>(path: Path<T>, t: Tree<T>)
    requires HeapTree(Plug(path, t))
    ensures HeapTree(t)
    decreases |path|
  {
    if path != [] {
      HeapTreePlug(path[1..], Fill(path[0], t));
    }
  }

  // ---------------------------------------------------------------- cursor steps

  /** Climbing from a right child keeps the nodes before and in the current subtree. */
  lemma ClimbFromRight<T>(path: Path<T>, t: Tree<T>)
    requires path != [] && path[0].RightOf?
    ensures Plug(path[1..], Fill(path[0], t)) == Plug(path, t)
    ensures |BeforeNodes(path[1..])| + |NodeSeq(Fill(path[0], t))| == |BeforeNodes(path)| + |NodeSeq(t)|
  {
  }

  /** Climbing from a left child keeps the nodes after and in the current subtree. */
  lemma ClimbFromLeft<T>(path: Path<T>, t: Tree<T>)
    requires path != [] && path[0].LeftOf?
    ensures Plug(path[1..], Fill(path[0], t)) == Plug(path, t)
    ensures |BeforeNodes(path[1..])| == |BeforeNodes(path)|
  {
  }

  /** The successor of a node with a right child is the first node of the right subtree. */
  lemma SuccessorBelow<T>(path: Path<T>, t: Tree<T>, k: nat)
    requires t.Node? && t.right.Node? && |BeforeNodes(path)| + |NodeSeq(t.left)| == k
    ensures k + 1 < |NodeSeq(Plug(path, t))| && |NodeSeq(t.right)| > 0
    ensures NodeSeq(Plug(path, t))[k + 1] == NodeSeq(t.right)[0]
  {
    PlugNodeSeq(path, t);
    var b, l, r := BeforeNodes(path), NodeSeq(t.left), NodeSeq(t.right);
    assert NodeSeq(Plug(path, t)) == b + (l + [t.node] + r) + AfterNodes(path);
    assert (b + (l + [t.node] + r) + AfterNodes(path))[k + 1] == r[0];
  }

  /**
   * Once the climb stops below a left edge, the successor is that parent;
   * at the root, the position after the subtree is the end.
   */
  lemma SuccessorAbove<T>(path: Path<T>, t: Tree<T>, k: nat)
    requires |BeforeNodes(path)| + |NodeSeq(t)| == k + 1
    requires path == [] || path[0].LeftOf?
    ensures path == [] ==> k + 1 == |NodeSeq(Plug(path, t))|
    ensures path != [] ==> k + 1 < |NodeSeq(Plug(path, t))| && NodeSeq(Plug(path, t))[k + 1] == path[0].node
  {
    PlugNodeSeq(path, t);
    if path != [] {
      var b, m := BeforeNodes(path), NodeSeq(t);
      assert AfterNodes(path) == [path[0].node] + NodeSeq(path[0].sibling) + AfterNodes(path[1..]);
      assert (b + m + AfterNodes(path))[k + 1] == AfterNodes(path)[0];
    }
  }

  /** The predecessor of a node with a left child is the last node of the left subtree. */
  lemma PredecessorBelow<T>(path: Path<T>, t: Tree<T>, k: nat)
    requires t.Node? && t.left.Node? && |BeforeNodes(path)| + |NodeSeq(t.left)| == k
    ensures 0 < k < |NodeSeq(Plug(path, t))| && |NodeSeq(t.left)| > 0
    ensures NodeSeq(Plug(path, t))[k - 1] == NodeSeq(t.left)[|NodeSeq(t.left)| - 1]
  {
    PlugNodeSeq(path, t);
    var b, l, r := BeforeNodes(path), NodeSeq(t.left), NodeSeq(t.right);
    assert NodeSeq(Plug(path, t)) == b + (l + [t.node] + r) + AfterNodes(path);
    assert (b + (l + [t.node] + r) + AfterNodes(path))[k - 1] == l[|l| - 1];
  }

  /** Once the climb stops below a right edge, the predecessor is that parent. */
  lemma PredecessorAbove<T>(path: Path<T>, t: Tree<T>, k: nat)
    requires |BeforeNodes(path)| == k && 0 < k
    requires path != [] && path[0].RightOf?
    ensures k - 1 < |NodeSeq(Plug(path, t))| && NodeSeq(Plug(path, t))[k - 1] == path[0].node
  {
    PlugNodeSeq(path, t);
    var b := BeforeNodes(path);
    assert b == BeforeNodes(path[1..]) + NodeSeq(path[0].sibling) + [path[0].node];
    assert (b + NodeSeq(t) + AfterNodes(path))[k - 1] == b[k - 1];
  }
}
