/**
 * The red-black tree engine of srcs/rb_tree.hpp.
 *
 * The tree owns heap nodes (`RBNode`) linked through `left`, `right` and
 * `parent`, a sentinel `end` whose `left` is the root, and a size counter.
 * The ghost field `tree` is the shape of the linked nodes; `Valid()` ties
 * the heap to it and states the invariants the engine keeps: the in-order
 * sequence of values is strictly increasing under the comparator (hence no
 * two equivalent elements), `size` counts the nodes and the root is black.
 * Insert also keeps the red rule and the black balance when they held before.
 */
module RedBlackTree {
  import opened Wrappers
  import opened Ordering
  import opened RbShape
  import opened RbFixup
  import opened RbSearch
  import opened RbErase
  import opened RbClone
  import Algorithm
  import opened Utility

  class RBTree<T(!new)> {
    var root: RBNode?<T>
    var end: RBNode<T>
    var size: nat
    var less: (T, T) -> bool
    ghost var tree: Tree<T>
    ghost var links: Links<T>

    ghost function Repr(): set<object>
      reads this
    {
      Nodes(tree) + {end}
    }

    /** `links` records the heap fields of every node of the tree. */
    ghost predicate Mirrors()
      reads this, Nodes(tree)
    {
      forall n :: n in Nodes(tree) ==> n in links && links[n] == FieldsOf(n)
    }

    /** The heap links follow the shape and the root hangs from `anchor`. */
    ghost predicate Shaped(anchor: RBNode?<T>)
      reads this, Nodes(tree)
    {
      && root == Top(tree)
      && Distinct(tree)
      && end !in Nodes(tree)
      && Mirrors()
      && Linked(tree, anchor, links)
    }

    ghost predicate Valid()
      reads this, Repr()
    {
      && Shaped(end)
      && end.value == None && end.right == null && end.parent == null
      && (root != null ==> end.left == root)
      && StrictWeakOrder(less)
      && StrictlySorted(less, Values(tree))
      && size == |Values(tree)|
      && RootBlack(tree)
    }

    /** Records `t` as the shape of the tree once its nodes carry the links of `t`. */
    ghost method SetShape(t: Tree<T>, anchor: RBNode?<T>)
      requires root == Top(t) && Distinct(t) && end !in Nodes(t) && Linked(t, anchor, links)
      requires forall n :: n in Nodes(t) ==> n in links && links[n] == FieldsOf(n)
      modifies this
      ensures tree == t && Shaped(anchor)
      ensures root == old(root) && end == old(end) && size == old(size) && less == old(less) && links == old(links)
    {
      tree := t;
    }

    /** Records in `links` the current fields of `n`. */
    ghost method Note(n: RBNode<T>)
      modifies this
      ensures links == old(links)[n := FieldsOf(n)]
      ensures tree == old(tree) && root == old(root) && end == old(end) && size == old(size) && less == old(less)
    {
      links := links[n := FieldsOf(n)];
    }

    /** What iteration from begin() to end() yields. */
    ghost function Contents(): seq<T>
      reads this
    {
      Values(tree)
    }

    /** The default constructor: no root, size 0, a fresh sentinel. */
    constructor (less: (T, T) -> bool)
      requires StrictWeakOrder(less)
      ensures Valid() && Contents() == [] && this.less == less
      ensures fresh(Repr())
    {
      root := null;
      size := 0;
      this.less := less;
      tree := Nil;
      links := map[];
      end := new RBNode(None);
    }

    /**
     * The pointer updates of _rotateLeft(x): `y` is the right child of `x`,
     * `b` its left child and `q` the parent of `x`.  The nodes of `s` other
     * than these four keep their fields; `links` is left as it was.
     */
    method RelinkLeft(x: RBNode<T>, ghost y: RBNode<T>, ghost b: RBNode?<T>, ghost q: RBNode?<T>, ghost s: set<RBNode<T>>)
      requires forall n :: n in s ==> n in links && links[n] == FieldsOf(n)
      requires RotationSite(links, x, y, b, q, s) && links[x].right == y && links[y].left == b
      modifies this, x, y, if b != null then {b} else {}, if q != null then {q} else {}
      ensures tree == old(tree) && links == old(links)
      ensures forall n :: n in s && n !in RotationTouched(x, y, b, q) ==> n in links && links[n] == FieldsOf(n)
      ensures FieldsOf(x) == links[x].(right := b, parent := y)
      ensures FieldsOf(y) == links[y].(left := x, parent := q)
      ensures b != null ==> FieldsOf(b) == links[b].(parent := x)
      ensures q != null ==> FieldsOf(q) == ReplaceChild(links[q], x, y)
      ensures root == if q == null then y else old(root)
      ensures end == old(end) && size == old(size) && less == old(less)
    {
      var right := x.right;
      x.right := right.left;
      if x.right != null {
        x.right.parent := x;
      }
      right.parent := x.parent;
      if x.parent == null {
        root := right;
      } else if x == x.parent.left {
        x.parent.left := right;
      } else {
        x.parent.right := right;
      }
      right.left := x;
      x.parent := right;
    }

    /** Records in `links` the fields RelinkLeft gave the four nodes it touched. */
    ghost method RecordLeft(x: RBNode<T>, y: RBNode<T>, b: RBNode?<T>, q: RBNode?<T>, s: set<RBNode<T>>)
      requires RotationSite(links, x, y, b, q, s)
      requires forall n :: n in s && n !in RotationTouched(x, y, b, q) ==> n in links && links[n] == FieldsOf(n)
      requires FieldsOf(x) == links[x].(right := b, parent := y)
      requires FieldsOf(y) == links[y].(left := x, parent := q)
      requires b != null ==> FieldsOf(b) == links[b].(parent := x)
      requires q != null ==> FieldsOf(q) == ReplaceChild(links[q], x, y)
      modifies this
      ensures forall n :: n in s ==> n in links && links[n] == FieldsOf(n)
      ensures RotatedLeft(old(links), links, x, y, b, q)
      ensures root == old(root) && end == old(end) && size == old(size) && less == old(less) && tree == old(tree)
    {
      links := links[x := FieldsOf(x)][y := FieldsOf(y)];
      if b != null {
        links := links[b := FieldsOf(b)];
      }
      if q != null {
        links := links[q := FieldsOf(q)];
      }
    }

    /**
     * The pointer updates of _rotateLeft(x) together with their record in
     * `links`: the nodes of `s` stay mirrored.
     */
    method RotateLinksLeft(x: RBNode<T>, ghost y: RBNode<T>, ghost b: RBNode?<T>, ghost q: RBNode?<T>, ghost s: set<RBNode<T>>)
      requires forall n :: n in s ==> n in links && links[n] == FieldsOf(n)
      requires RotationSite(links, x, y, b, q, s) && links[x].right == y && links[y].left == b
      modifies this, x, y, if b != null then {b} else {}, if q != null then {q} else {}
      ensures forall n :: n in s ==> n in links && links[n] == FieldsOf(n)
      ensures RotatedLeft(old(links), links, x, y, b, q)
      ensures root == (if q == null then y else old(root))
      ensures end == old(end) && size == old(size) && less == old(less) && tree == old(tree)
    {
      RelinkLeft(x, y, b, q, s);
      RecordLeft(x, y, b, q, s);
    }

    method RotateLeft(x: RBNode<T>, ghost path: Path<T>, ghost t: Tree<T>)
      requires Shaped(null)
      requires tree == Plug(path, t) && t.Node? && t.node == x && t.right.Node?
      modifies this, Nodes(tree)
      ensures Shaped(null)
      ensures tree == Plug(path, RotateLeftShape(t))
      ensures Values(tree) == old(Values(tree)) && NodeSeq(tree) == old(NodeSeq(tree))
      ensures Nodes(tree) == old(Nodes(tree))
      ensures end == old(end) && size == old(size) && less == old(less)
    {
      RotateLeftPlug(path, t, links);
      ghost var before := links;
      RotateLinksLeft(x, t.right.node, Top(t.right.left), HoleParent(path, null), Nodes(tree));
      RotateLeftRelinked(path, t, before, links);
      SetShape(Plug(path, RotateLeftShape(t)), null);
    }

    /**
     * The pointer updates of _rotateRight(x): `y` is the left child of `x`,
     * `b` its right child and `q` the parent of `x`.  The nodes of `s` other
     * than these four keep their fields; `links` is left as it was.
     */
    method RelinkRight(x: RBNode<T>, ghost y: RBNode<T>, ghost b: RBNode?<T>, ghost q: RBNode?<T>, ghost s: set<RBNode<T>>)
      requires forall n :: n in s ==> n in links && links[n] == FieldsOf(n)
      requires RotationSite(links, x, y, b, q, s) && links[x].left == y && links[y].right == b
      modifies this, x, y, if b != null then {b} else {}, if q != null then {q} else {}
      ensures tree == old(tree) && links == old(links)
      ensures forall n :: n in s && n !in RotationTouched(x, y, b, q) ==> n in links && links[n] == FieldsOf(n)
      ensures FieldsOf(x) == links[x].(left := b, parent := y)
      ensures FieldsOf(y) == links[y].(right := x, parent := q)
      ensures b != null ==> FieldsOf(b) == links[b].(parent := x)
      ensures q != null ==> FieldsOf(q) == ReplaceChild(links[q], x, y)
      ensures root == if q == null then y else old(root)
      ensures end == old(end) && size == old(size) && less == old(less)
    {
      var left := x.left;
      x.left := left.right;
      if x.left != null {
        x.left.parent := x;
      }
      left.parent := x.parent;
      if x.parent == null {
        root := left;
      } else if x == x.parent.left {
        x.parent.left := left;
      } else {
        x.parent.right := left;
      }
      left.right := x;
      x.parent := left;
    }

    /** Records in `links` the fields RelinkRight gave the four nodes it touched. */
    ghost method RecordRight(x: RBNode<T>, y: RBNode<T>, b: RBNode?<T>, q: RBNode?<T>, s: set<RBNode<T>>)
      requires RotationSite(links, x, y, b, q, s)
      requires forall n :: n in s && n !in RotationTouched(x, y, b, q) ==> n in links && links[n] == FieldsOf(n)
      requires FieldsOf(x) == links[x].(left := b, parent := y)
      requires FieldsOf(y) == links[y].(right := x, parent := q)
      requires b != null ==> FieldsOf(b) == links[b].(parent := x)
      requires q != null ==> FieldsOf(q) == ReplaceChild(links[q], x, y)
      modifies this
      ensures forall n :: n in s ==> n in links && links[n] == FieldsOf(n)
      ensures RotatedRight(old(links), links, x, y, b, q)
      ensures root == old(root) && end == old(end) && size == old(size) && less == old(less) && tree == old(tree)
    {
      links := links[x := FieldsOf(x)][y := FieldsOf(y)];
      if b != null {
        links := links[b := FieldsOf(b)];
      }
      if q != null {
        links := links[q := FieldsOf(q)];
      }
    }

    /**
     * The pointer updates of _rotateRight(x) together with their record in
     * `links`: the nodes of `s` stay mirrored.
     */
    method RotateLinksRight(x: RBNode<T>, ghost y: RBNode<T>, ghost b: RBNode?<T>, ghost q: RBNode?<T>, ghost s: set<RBNode<T>>)
      requires forall n :: n in s ==> n in links && links[n] == FieldsOf(n)
      requires RotationSite(links, x, y, b, q, s) && links[x].left == y && links[y].right == b
      modifies this, x, y, if b != null then {b} else {}, if q != null then {q} else {}
      ensures forall n :: n in s ==> n in links && links[n] == FieldsOf(n)
      ensures RotatedRight(old(links), links, x, y, b, q)
      ensures root == (if q == null then y else old(root))
      ensures end == old(end) && size == old(size) && less == old(less) && tree == old(tree)
    {
      RelinkRight(x, y, b, q, s);
      RecordRight(x, y, b, q, s);
    }

    method RotateRight(x: RBNode<T>, ghost path: Path<T>, ghost t: Tree<T>)
      requires Shaped(null)
      requires tree == Plug(path, t) && t.Node? && t.node == x && t.left.Node?
      modifies this, Nodes(tree)
      ensures Shaped(null)
      ensures tree == Plug(path, RotateRightShape(t))
      ensures Values(tree) == old(Values(tree)) && NodeSeq(tree) == old(NodeSeq(tree))
      ensures Nodes(tree) == old(Nodes(tree))
      ensures end == old(end) && size == old(size) && less == old(less)
    {
      RotateRightPlug(path, t, links);
      ghost var before := links;
      RotateLinksRight(x, t.left.node, Top(t.left.right), HoleParent(path, null), Nodes(tree));
      RotateRightRelinked(path, t, before, links);
      SetShape(Plug(path, RotateRightShape(t)), null);
    }

    /** What the heap says about the top of the subtree at `path` and its neighbours. */
    lemma Around(path: Path<T>, t: Tree<T>, a: RBNode?<T>)
      requires Shaped(a) && tree == Plug(path, t)
      ensures t.Node? ==> t.node in Nodes(tree) && t.node.parent == HoleParent(path, a) && t.node.color == t.color
      ensures t.Node? ==> t.node.left == Top(t.left) && t.node.right == Top(t.right) && t.node.value == Some(t.value)
      ensures t.Node? && t.left.Node? ==> t.left.node.parent == t.node && t.left.node.color == t.left.color
      ensures t.Node? && t.right.Node? ==> t.right.node.parent == t.node && t.right.node.color == t.right.color
      ensures t.Node? ==> (root == t.node <==> path == [])
      ensures path != [] ==> var p := path[0].node;
        && p in Nodes(tree) && p.color == path[0].color && p.parent == HoleParent(path[1..], a) && p.value == Some(path[0].value)
        && p.left == (if path[0].LeftOf? then Top(t) else Top(path[0].sibling))
        && p.right == (if path[0].RightOf? then Top(t) else Top(path[0].sibling))
        && Top(path[0].sibling) != p && p != Top(t)
      ensures t.Node? && path != [] ==> Top(path[0].sibling) != t.node
      ensures |path| >= 2 ==> var g := path[1].node;
        && g in Nodes(tree) && g.color == path[1].color
        && g.left == (if path[1].LeftOf? then path[0].node else Top(path[1].sibling))
        && g.right == (if path[1].RightOf? then path[0].node else Top(path[1].sibling))
        && Top(path[1].sibling) != path[0].node && g != path[0].node
      ensures |path| >= 2 && path[1].sibling.Node? ==> path[1].sibling.node.color == path[1].sibling.color
      ensures path != [] && path[0].color == Red && RootBlack(tree) ==> |path| >= 2
    {
      LinksAround(path, t, a, links);
      NodesAround(path, t);
      PlugTop(path, t);
      if path != [] && |path| < 2 {
        PlugRootIsLast(path, t);
      }
      if |path| >= 2 && path[1].sibling.Node? {
        assert path[1].sibling.node in Nodes(tree);
      }
      if t.Node? && t.left.Node? {
        assert t.left.node in Nodes(tree);
      }
      if t.Node? && t.right.Node? {
        assert t.right.node in Nodes(tree);
      }
    }

    /** `n.color = c` for the top `n` of the subtree at `path`. */
    method Paint(n: RBNode<T>, c: Color, ghost a: RBNode?<T>, ghost path: Path<T>, ghost t: Tree<T>)
      requires Shaped(a) && tree == Plug(path, t) && t.Node? && t.node == n
      modifies this, n
      ensures Shaped(a) && tree == Plug(path, t.(color := c))
      ensures Nodes(tree) == old(Nodes(tree)) && Values(tree) == old(Values(tree)) && NodeSeq(tree) == old(NodeSeq(tree))
      ensures root == old(root) && end == old(end) && size == old(size) && less == old(less)
    {
      PaintPlug(path, t, a, links, c);
      PlugNodes(path, t);
      n.color := c;
      Note(n);
      SetShape(Plug(path, t.(color := c)), a);
    }

    /** `_root->parent = NULL`, done by insert before the descent. */
    method Detach()
      requires Shaped(end)
      modifies this, Nodes(tree)
      ensures Shaped(null)
      ensures tree == old(tree) && root == old(root) && end == old(end) && size == old(size) && less == old(less)
    {
      if root != null {
        ReparentTop(tree, end, null, links);
        root.parent := null;
        links := links[root := FieldsOf(root)];
      }
    }

    /** `_root->parent = _end; _end->left = _root;`, done after every mutation. */
    method Anchor(ghost a: RBNode?<T>)
      requires Shaped(a) && root != null
      modifies this, Nodes(tree), end
      ensures Shaped(end) && end.left == root
      ensures end.value == old(end.value) && end.right == old(end.right) && end.parent == old(end.parent)
      ensures tree == old(tree) && root == old(root) && end == old(end) && size == old(size) && less == old(less)
    {
      ReparentTop(tree, a, end, links);
      root.parent := end;
      links := links[root := FieldsOf(root)];
      end.left := root;
    }

    /**
     * The descent loop of _bst_insert: from the root, right past smaller
     * elements and left past greater ones, until an equivalent element is
     * met (`x` is that node) or the walk falls off the tree below `y`.
     */
    method Descend(v: T) returns (x: RBNode?<T>, y: RBNode?<T>, ghost path: Path<T>, ghost sub: Tree<T>)
      requires Shaped(null) && root != null && StrictWeakOrder(less) && StrictlySorted(less, Values(tree))
      ensures tree == Plug(path, sub) && x == Top(sub) && Brackets(less, path, v)
      ensures x == null ==> path != [] && y == HoleParent(path, null)
      ensures x != null ==> sub.Node? && x.value == Some(sub.value) && Equivalent(less, sub.value, v) && y == x
    {
      MirroredHeapTree(tree, null, links);
      x, y, path, sub := root, null, [], tree;
      while x != null
        invariant tree == Plug(path, sub) && x == Top(sub) && y == HoleParent(path, null)
        invariant HeapTree(sub) && Brackets(less, path, v)
        invariant path == [] ==> sub.Node?
        decreases sub
      {
        y := x;
        if less(x.value.value, v) {
          StepRight(less, path, sub, v);
          path := [RightOf(sub.left, sub.node, sub.color, sub.value)] + path;
          x, sub := x.right, sub.right;
        } else if less(v, x.value.value) {
          StepLeft(less, path, sub, v);
          path := [LeftOf(sub.node, sub.color, sub.value, sub.right)] + path;
          x, sub := x.left, sub.left;
        } else {
          return;
        }
      }
    }

    /**
     * _bst_insert: an equivalent element is returned with `false` and
     * nothing changes; otherwise `node` is hung where the descent fell off
     * the tree and returned with `true`.  The ghost results locate the leaf.
     */
    method BstInsert(node: RBNode<T>, ghost v: T) returns (r: RBNode<T>, inserted: bool, ghost path: Path<T>, ghost t: Tree<T>)
      requires Shaped(null) && StrictWeakOrder(less) && StrictlySorted(less, Values(tree))
      requires node !in Nodes(tree) && node != end
      requires node.value == Some(v) && node.left == null && node.right == null && node.color == Red
      modifies this, Nodes(tree), node
      ensures Shaped(null) && root != null
      ensures end == old(end) && size == old(size) && less == old(less)
      ensures !inserted ==> tree == old(tree) && HasEquivalent(less, Values(tree), v)
      ensures !inserted ==> r in Nodes(tree) && r.value.Some? && Equivalent(less, r.value.value, v)
      ensures !inserted ==> var k := LowerIndex(less, Values(tree), v); k < |NodeSeq(tree)| && NodeSeq(tree)[k] == r
      ensures inserted ==> r == node && t == Node(Nil, node, Red, v, Nil)
      ensures inserted ==> old(tree) == Plug(path, Nil) && tree == Plug(path, t)
      ensures inserted ==> Nodes(tree) == old(Nodes(tree)) + {node}
      ensures inserted ==> !HasEquivalent(less, old(Values(tree)), v)
      ensures inserted ==> var k := LowerIndex(less, old(Values(tree)), v);
        && Values(tree) == old(Values(tree))[..k] + [v] + old(Values(tree))[k..]
        && k < |NodeSeq(tree)| && NodeSeq(tree)[k] == r
    {
      if root == null {
        t := PlantRoot(node, v);
        path := [];
        return node, true, path, t;
      }
      var x, y;
      ghost var sub;
      x, y, path, sub := Descend(node.value.value);
      if x != null {
        FoundPlace(less, path, sub, v);
        return x, false, path, sub;
      }
      PlugNodes(path, sub);
      t := HangLeaf(node, v, y, path);
      r, inserted := node, true;
    }

    /** `_root = node` when the tree is empty. */
    method PlantRoot(node: RBNode<T>, ghost v: T) returns (ghost t: Tree<T>)
      requires Shaped(null) && root == null
      requires node != end && node.value == Some(v) && node.left == null && node.right == null && node.color == Red
      modifies this, node
      ensures Shaped(null) && root == node && t == Node(Nil, node, Red, v, Nil) && tree == t
      ensures old(tree) == Nil && Nodes(tree) == {node} && Values(tree) == [v] && NodeSeq(tree) == [node]
      ensures end == old(end) && size == old(size) && less == old(less)
    {
      t := Node(Nil, node, Red, v, Nil);
      root := node;
      node.parent := null;
      links := links[node := FieldsOf(node)];
      tree := t;
    }

    /**
     * The pointer updates of _bst_insert's last step: `node` becomes a child
     * of `y`; the nodes of `s` other than these two keep their fields.
     */
    method Hang(node: RBNode<T>, y: RBNode<T>, toRight: bool, ghost s: set<RBNode<T>>)
      requires node != y
      requires forall n :: n in s ==> n in links && links[n] == FieldsOf(n)
      modifies node, y
      ensures forall n :: n in s && n != node && n != y ==> n in links && links[n] == FieldsOf(n)
      ensures FieldsOf(node) == old(FieldsOf(node)).(parent := y)
      ensures FieldsOf(y) == if toRight then old(FieldsOf(y)).(right := node) else old(FieldsOf(y)).(left := node)
    {
      node.parent := y;
      if toRight {
        y.right := node;
      } else {
        y.left := node;
      }
    }

    /** Records in the ghost state the red leaf that Hang linked below `y`. */
    ghost method RecordLeaf(node: RBNode<T>, v: T, y: RBNode<T>, path: Path<T>) returns (t: Tree<T>)
      requires tree == Plug(path, Nil) && path != [] && y == path[0].node
      requires root == Top(tree) && Distinct(tree) && Linked(tree, null, links)
      requires node !in Nodes(tree) && node != end && end !in Nodes(tree)
      requires forall n :: n in Nodes(tree) && n != y ==> n in links && links[n] == FieldsOf(n)
      requires FieldsOf(node) == Fields(null, null, y, Red, Some(v))
      requires FieldsOf(y) == FrameFields(path[0], node, HoleParent(path[1..], null))
      modifies this
      ensures t == Node(Nil, node, Red, v, Nil) && tree == Plug(path, t) && Shaped(null)
      ensures Nodes(tree) == old(Nodes(tree)) + {node}
      ensures root == old(root) && end == old(end) && size == old(size) && less == old(less)
    {
      t := Node(Nil, node, Red, v, Nil);
      AttachLeafShape(path, node, v);
      ghost var before := links;
      ghost var nodes := Nodes(tree);
      Note(node);
      Note(y);
      AttachLeaf(path, node, v, before, links);
      forall n | n in Nodes(Plug(path, t)) ensures n in links && links[n] == FieldsOf(n) {
        if n != node && n != y {
          assert n in nodes;
        }
      }
      SetShape(Plug(path, t), null);
    }

    /** The end of _bst_insert: `node` becomes the child of `y` on the side the descent took. */
    method HangLeaf(node: RBNode<T>, ghost v: T, y: RBNode<T>, ghost path: Path<T>) returns (ghost t: Tree<T>)
      requires Shaped(null) && StrictWeakOrder(less) && tree == Plug(path, Nil) && path != [] && y == path[0].node
      requires node !in Nodes(tree) && node != end
      requires node.value == Some(v) && node.left == null && node.right == null && node.color == Red
      requires Brackets(less, path, v)
      modifies this, y, node
      ensures Shaped(null) && root != null
      ensures root == old(root) && end == old(end) && size == old(size) && less == old(less)
      ensures t == Node(Nil, node, Red, v, Nil) && tree == Plug(path, t)
      ensures Nodes(tree) == old(Nodes(tree)) + {node}
      ensures !HasEquivalent(less, old(Values(tree)), v)
      ensures var k := LowerIndex(less, old(Values(tree)), v);
        && Values(tree) == old(Values(tree))[..k] + [v] + old(Values(tree))[k..]
        && k < |NodeSeq(tree)| && NodeSeq(tree)[k] == node
    {
      LeafPlace(less, path, node, v);
      PlugAt(path, Node(Nil, node, Red, v, Nil));
      LinksAround(path, Nil, null, links);
      PlugNodes(path, Nil);
      assert y in Nodes(tree);
      SideOf(less, path, v);
      Hang(node, y, less(y.value.value, node.value.value), Nodes(tree));
      t := RecordLeaf(node, v, y, path);
    }
  
    // ------------------------------------------------------------ _balance

    /** The fields of the current node and its parent, as the loop of _balance reads them. */
    lemma AtNode(path: Path<T>, t: Tree<T>, a: RBNode?<T>)
      requires Shaped(a) && tree == Plug(path, t) && t.Node?
      ensures t.node in Nodes(tree) && t.node.parent == HoleParent(path, a) && t.node.color == t.color
      ensures path != [] ==> path[0].node.color == path[0].color
      ensures root == t.node <==> path == []
      ensures path != [] && path[0].color == Red && RootBlack(tree) ==> |path| >= 2
    {
      LinksAround(path, t, a, links);
      NodesAround(path, t);
      PlugTop(path, t);
      if path != [] && |path| < 2 {
        PlugRootIsLast(path, t);
      }
    }

    /**
     * Red uncle: `grandparent->color = true; parent->color = false;
     * uncle->color = false;`.  The grandparent becomes the current node.
     */
    method Recolor(parent: RBNode<T>, grandparent: RBNode<T>, uncle: RBNode<T>, ghost path: Path<T>, ghost t: Tree<T>)
      returns (ghost path': Path<T>, ghost t': Tree<T>)
      requires Shaped(null) && tree == Plug(path, t) && |path| >= 2 && path[1].sibling.Node?
      requires parent == path[0].node && grandparent == path[1].node && uncle == path[1].sibling.node
      modifies this, Nodes(tree)
      ensures Shaped(null) && path' == path[2..] && t' == RecolorShape(path, t) && tree == Plug(path', t')
      ensures Nodes(tree) == old(Nodes(tree)) && Values(tree) == old(Values(tree)) && NodeSeq(tree) == old(NodeSeq(tree))
      ensures root == old(root) && end == old(end) && size == old(size) && less == old(less)
    {
      NodesAround(path, t);
      PlugTwo(path, t);
      ghost var p := Fill(path[0], t);
      Paint(grandparent, Red, null, path[2..], Fill(path[1], p));
      ghost var f1 := path[1].(color := Red);
      PlugCons(f1, path[2..], p);
      Paint(parent, Black, null, [f1] + path[2..], p);
      ghost var p' := p.(color := Black);
      PlugCons(f1, path[2..], p');
      ghost var fu := if path[1].LeftOf? then RightOf(p', grandparent, Red, path[1].value)
                      else LeftOf(grandparent, Red, path[1].value, p');
      PlugCons(fu, path[2..], path[1].sibling);
      Paint(uncle, Black, null, [fu] + path[2..], path[1].sibling);
      PlugCons(fu, path[2..], path[1].sibling.(color := Black));
      path', t' := path[2..], RecolorShape(path, t);
    }

    /**
     * Black uncle, inner child on the left of the grandparent:
     * `_rotateLeft(parent); node = parent; parent = node->parent;`.
     */
    method AlignLeft(parent: RBNode<T>, ghost path: Path<T>, ghost t: Tree<T>)
      returns (node': RBNode<T>, parent': RBNode<T>, ghost path': Path<T>, ghost t': Tree<T>)
      requires Shaped(null) && tree == Plug(path, t) && t.Node? && |path| >= 2 && path[0].RightOf? && path[1].LeftOf?
      requires parent == path[0].node && t.color == Red && path[0].color == Red
      modifies this, Nodes(tree)
      ensures Shaped(null) && path' == AlignPath(path, t) && t' == AlignTree(path, t) && tree == Plug(path', t')
      ensures node' == t'.node && parent' == path'[0].node
      ensures Nodes(tree) == old(Nodes(tree)) && Values(tree) == old(Values(tree)) && NodeSeq(tree) == old(NodeSeq(tree))
      ensures end == old(end) && size == old(size) && less == old(less)
    {
      AlignKeeps(path, t);
      RotateLeft(parent, path[1..], Fill(path[0], t));
      path', t' := AlignPath(path, t), AlignTree(path, t);
      node' := parent;
      AtNode(path', t', null);
      parent' := node'.parent;
    }

    /** The mirror image of AlignLeft: `_rotateRight(parent); node = parent; parent = node->parent;`. */
    method AlignRight(parent: RBNode<T>, ghost path: Path<T>, ghost t: Tree<T>)
      returns (node': RBNode<T>, parent': RBNode<T>, ghost path': Path<T>, ghost t': Tree<T>)
      requires Shaped(null) && tree == Plug(path, t) && t.Node? && |path| >= 2 && path[0].LeftOf? && path[1].RightOf?
      requires parent == path[0].node && t.color == Red && path[0].color == Red
      modifies this, Nodes(tree)
      ensures Shaped(null) && path' == AlignPath(path, t) && t' == AlignTree(path, t) && tree == Plug(path', t')
      ensures node' == t'.node && parent' == path'[0].node
      ensures Nodes(tree) == old(Nodes(tree)) && Values(tree) == old(Values(tree)) && NodeSeq(tree) == old(NodeSeq(tree))
      ensures end == old(end) && size == old(size) && less == old(less)
    {
      AlignKeeps(path, t);
      RotateRight(parent, path[1..], Fill(path[0], t));
      path', t' := AlignPath(path, t), AlignTree(path, t);
      node' := parent;
      AtNode(path', t', null);
      parent' := node'.parent;
    }

    /**
     * Black uncle, outer child on the left:
     * `_rotateRight(grandparent); ft::swap(parent->color, grandparent->color);`.
     */
    method RotateOutLeft(parent: RBNode<T>, grandparent: RBNode<T>, ghost path: Path<T>, ghost t: Tree<T>)
      returns (ghost path': Path<T>, ghost t': Tree<T>)
      requires Shaped(null) && tree == Plug(path, t) && |path| >= 2 && path[0].LeftOf? && path[1].LeftOf?
      requires parent == path[0].node && grandparent == path[1].node
      modifies this, Nodes(tree)
      ensures Shaped(null) && path' == path[2..] && t' == RotateOutShape(path, t) && tree == Plug(path', t')
      ensures Nodes(tree) == old(Nodes(tree)) && Values(tree) == old(Values(tree)) && NodeSeq(tree) == old(NodeSeq(tree))
      ensures end == old(end) && size == old(size) && less == old(less)
    {
      ghost var g := Fill(path[1], Fill(path[0], t));
      PlugTwo(path, t);
      RotateRight(grandparent, path[2..], g);
      ghost var top := RotateRightShape(g);
      ghost var below := top.right;
      AtNode(path[2..], top, null);
      PlugCons(RightOf(t, parent, top.color, top.value), path[2..], below);
      AtNode([RightOf(t, parent, top.color, top.value)] + path[2..], below, null);
      var pc, gc := Algorithm.Swap(parent.color, grandparent.color);
      Paint(parent, pc, null, path[2..], top);
      ghost var f := RightOf(t, parent, pc, top.value);
      PlugCons(f, path[2..], below);
      Paint(grandparent, gc, null, [f] + path[2..], below);
      PlugCons(f, path[2..], below.(color := gc));
      path', t' := path[2..], RotateOutShape(path, t);
    }

    /** The mirror image of RotateOutLeft: `_rotateLeft(grandparent)` and the same colour swap. */
    method RotateOutRight(parent: RBNode<T>, grandparent: RBNode<T>, ghost path: Path<T>, ghost t: Tree<T>)
      returns (ghost path': Path<T>, ghost t': Tree<T>)
      requires Shaped(null) && tree == Plug(path, t) && |path| >= 2 && path[0].RightOf? && path[1].RightOf?
      requires parent == path[0].node && grandparent == path[1].node
      modifies this, Nodes(tree)
      ensures Shaped(null) && path' == path[2..] && t' == RotateOutShape(path, t) && tree == Plug(path', t')
      ensures Nodes(tree) == old(Nodes(tree)) && Values(tree) == old(Values(tree)) && NodeSeq(tree) == old(NodeSeq(tree))
      ensures end == old(end) && size == old(size) && less == old(less)
    {
      ghost var g := Fill(path[1], Fill(path[0], t));
      PlugTwo(path, t);
      RotateLeft(grandparent, path[2..], g);
      ghost var top := RotateLeftShape(g);
      ghost var below := top.left;
      AtNode(path[2..], top, null);
      PlugCons(LeftOf(parent, top.color, top.value, t), path[2..], below);
      AtNode([LeftOf(parent, top.color, top.value, t)] + path[2..], below, null);
      var pc, gc := Algorithm.Swap(parent.color, grandparent.color);
      Paint(parent, pc, null, path[2..], top);
      ghost var f := LeftOf(parent, pc, top.value, t);
      PlugCons(f, path[2..], below);
      Paint(grandparent, gc, null, [f] + path[2..], below);
      PlugCons(f, path[2..], below.(color := gc));
      path', t' := path[2..], RotateOutShape(path, t);
    }
  
    /**
     * One iteration of the loop of _balance when the parent is the left
     * child of the grandparent: recolour under a red uncle, otherwise rotate
     * (twice for an inner child).
     */
    method FixLeft(node: RBNode<T>, parent: RBNode<T>, grandparent: RBNode<T>, ghost path: Path<T>, ghost t: Tree<T>)
      returns (node': RBNode<T>, ghost path': Path<T>, ghost t': Tree<T>)
      requires Shaped(null) && tree == Plug(path, t) && t.Node? && node == t.node && |path| >= 2 && path[1].LeftOf?
      requires t.color == Red && path[0].color == Red && parent == path[0].node && grandparent == path[1].node
      modifies this, Nodes(tree)
      ensures Shaped(null) && tree == Plug(path', t') && t'.Node? && node' == t'.node && |path'| < |path|
      ensures Nodes(tree) == old(Nodes(tree)) && Values(tree) == old(Values(tree)) && NodeSeq(tree) == old(NodeSeq(tree))
      ensures end == old(end) && size == old(size) && less == old(less)
      ensures RootInv(path, t) ==> RootInv(path', t')
      ensures RedInv(path, t) ==> RedInv(path', t')
      ensures RedInv(path, t) && old(BlackBalanced(tree)) ==> BlackBalanced(tree)
    {
      Around(path, t, null);
      var uncle := grandparent.right;
      if uncle != null && uncle.color == Red {
        RecolorKeeps(path, t);
        path', t' := Recolor(parent, grandparent, uncle, path, t);
        node' := grandparent;
      } else if node == parent.right {
        AlignKeeps(path, t);
        var n, p;
        ghost var path1, t1;
        n, p, path1, t1 := AlignLeft(parent, path, t);
        RotateOutKeeps(path1, t1);
        path', t' := RotateOutLeft(p, grandparent, path1, t1);
        node' := p;
      } else {
        RotateOutKeeps(path, t);
        path', t' := RotateOutLeft(parent, grandparent, path, t);
        node' := parent;
      }
    }

    /** The mirror image of FixLeft, for a parent that is the right child of the grandparent. */
    method FixRight(node: RBNode<T>, parent: RBNode<T>, grandparent: RBNode<T>, ghost path: Path<T>, ghost t: Tree<T>)
      returns (node': RBNode<T>, ghost path': Path<T>, ghost t': Tree<T>)
      requires Shaped(null) && tree == Plug(path, t) && t.Node? && node == t.node && |path| >= 2 && path[1].RightOf?
      requires t.color == Red && path[0].color == Red && parent == path[0].node && grandparent == path[1].node
      modifies this, Nodes(tree)
      ensures Shaped(null) && tree == Plug(path', t') && t'.Node? && node' == t'.node && |path'| < |path|
      ensures Nodes(tree) == old(Nodes(tree)) && Values(tree) == old(Values(tree)) && NodeSeq(tree) == old(NodeSeq(tree))
      ensures end == old(end) && size == old(size) && less == old(less)
      ensures RootInv(path, t) ==> RootInv(path', t')
      ensures RedInv(path, t) ==> RedInv(path', t')
      ensures RedInv(path, t) && old(BlackBalanced(tree)) ==> BlackBalanced(tree)
    {
      Around(path, t, null);
      var uncle := grandparent.left;
      if uncle != null && uncle.color == Red {
        RecolorKeeps(path, t);
        path', t' := Recolor(parent, grandparent, uncle, path, t);
        node' := grandparent;
      } else if node == parent.left {
        AlignKeeps(path, t);
        var n, p;
        ghost var path1, t1;
        n, p, path1, t1 := AlignRight(parent, path, t);
        RotateOutKeeps(path1, t1);
        path', t' := RotateOutRight(p, grandparent, path1, t1);
        node' := p;
      } else {
        RotateOutKeeps(path, t);
        path', t' := RotateOutRight(parent, grandparent, path, t);
        node' := parent;
      }
    }

    /**
     * _balance(node) on a tree whose root hangs from NULL: while the current
     * node is red, is not the root and has a red parent, one case is applied;
     * then the root is painted black.  The red rule is restored wherever it
     * held away from the new node, and black heights are kept.
     */
    method Balance(node: RBNode<T>, ghost path: Path<T>, ghost t: Tree<T>)
      requires Shaped(null) && tree == Plug(path, t) && t.Node? && node == t.node && RootInv(path, t)
      modifies this, Nodes(tree)
      ensures Shaped(null) && root != null && RootBlack(tree)
      ensures Nodes(tree) == old(Nodes(tree)) && Values(tree) == old(Values(tree)) && NodeSeq(tree) == old(NodeSeq(tree))
      ensures end == old(end) && size == old(size) && less == old(less)
      ensures RedInv(path, t) ==> RedRule(tree, false)
      ensures old(RedInv(path, t) && BlackBalanced(tree)) ==> BlackBalanced(tree)
    {
      ghost var red0 := RedInv(path, t);
      ghost var bal0 := red0 && BlackBalanced(tree);
      var n := node;
      ghost var p, s := path, t;
      AtNode(p, s, null);
      while n != root && n.color == Red && n.parent.color == Red
        invariant Shaped(null) && tree == Plug(p, s) && s.Node? && n == s.node && RootInv(p, s)
        invariant n.parent == HoleParent(p, null) && n.color == s.color && (n == root <==> p == [])
        invariant p != [] ==> p[0].node.color == p[0].color
        invariant p != [] && p[0].color == Red && RootBlack(tree) ==> |p| >= 2
        invariant Nodes(tree) == old(Nodes(tree)) && Values(tree) == old(Values(tree)) && NodeSeq(tree) == old(NodeSeq(tree))
        invariant end == old(end) && size == old(size) && less == old(less)
        invariant red0 ==> RedInv(p, s)
        invariant bal0 ==> BlackBalanced(tree)
        decreases |p|
      {
        n, p, s := FixUp(n, p, s);
      }
      if red0 {
        StopKeeps(p, s);
      }
      PlugNodes(p, s);
      BlackenRoot(tree);
      Paint(root, Black, null, [], tree);
    }

    /** One pass of _balance's loop: the case for a red `node` below a red parent is applied. */
    method FixUp(node: RBNode<T>, ghost path: Path<T>, ghost t: Tree<T>) returns (node': RBNode<T>, ghost path': Path<T>, ghost t': Tree<T>)
      requires Shaped(null) && tree == Plug(path, t) && t.Node? && node == t.node && RootInv(path, t)
      requires node.parent == HoleParent(path, null) && node.color == t.color && (node == root <==> path == [])
      requires path != [] ==> path[0].node.color == path[0].color
      requires path != [] && path[0].color == Red && RootBlack(tree) ==> |path| >= 2
      requires node != root && node.color == Red && node.parent.color == Red
      modifies this, Nodes(tree)
      ensures Shaped(null) && tree == Plug(path', t') && t'.Node? && node' == t'.node && RootInv(path', t') && |path'| < |path|
      ensures node'.parent == HoleParent(path', null) && node'.color == t'.color && (node' == root <==> path' == [])
      ensures path' != [] ==> path'[0].node.color == path'[0].color
      ensures path' != [] && path'[0].color == Red && RootBlack(tree) ==> |path'| >= 2
      ensures Nodes(tree) == old(Nodes(tree)) && Values(tree) == old(Values(tree)) && NodeSeq(tree) == old(NodeSeq(tree))
      ensures end == old(end) && size == old(size) && less == old(less)
      ensures RedInv(path, t) ==> RedInv(path', t')
      ensures RedInv(path, t) && old(BlackBalanced(tree)) ==> BlackBalanced(tree)
    {
      var parent := node.parent;
      var grandparent := node.parent.parent;
      Around(path, t, null);
      if parent == grandparent.left {
        node', path', t' := FixLeft(node, parent, grandparent, path, t);
      } else {
        node', path', t' := FixRight(node, parent, grandparent, path, t);
      }
      AtNode(path', t', null);
    }

    /** The node at in-order position `k` holds the value at position `k`. */
    lemma ValueAt(k: nat, a: RBNode?<T>)
      requires Shaped(a)
      ensures k < |Values(tree)| ==>
        k < |NodeSeq(tree)| && NodeSeq(tree)[k] in Nodes(tree) && NodeSeq(tree)[k].value == Some(Values(tree)[k])
    {
      if k < |Values(tree)| {
        MirroredHeapTree(tree, a, links);
        HeapValueAt(tree, k);
      }
    }

    /**
     * Insert when _bst_insert met an equivalent element `r`: the sentinel is
     * re-anchored and the tree is as it was.
     */
    method KeepFound(r: RBNode<T>, ghost v: T)
      requires Shaped(null) && root != null && RootBlack(tree)
      requires end.value == None && end.right == null && end.parent == null
      requires StrictWeakOrder(less) && StrictlySorted(less, Values(tree)) && size == |Values(tree)|
      requires HasEquivalent(less, Values(tree), v)
      requires var k := LowerIndex(less, Values(tree), v); k < |NodeSeq(tree)| && NodeSeq(tree)[k] == r
      modifies this, Nodes(tree), end
      ensures Valid() && tree == old(tree) && end == old(end) && size == old(size) && less == old(less)
      ensures r in Nodes(tree) && r.value.Some? && Equivalent(less, r.value.value, v)
    {
      Anchor(null);
      BoundsOfStrictlySorted(less, Values(tree), v);
      ValueAt(LowerIndex(less, Values(tree), v), end);
    }

    /**
     * _balance after the new red leaf `node` was hung below `path`, then the
     * re-anchoring of the sentinel and `_size++`.
     */
    method Settle(node: RBNode<T>, ghost v: T, ghost path: Path<T>)
      requires Shaped(null) && tree == Plug(path, Node(Nil, node, Red, v, Nil)) && RootBlack(Plug(path, Nil))
      requires end.value == None && end.right == null && end.parent == null
      requires StrictWeakOrder(less) && StrictlySorted(less, Values(tree)) && size + 1 == |Values(tree)|
      modifies this, Nodes(tree), end
      ensures Valid()
      ensures Nodes(tree) == old(Nodes(tree)) && Values(tree) == old(Values(tree)) && NodeSeq(tree) == old(NodeSeq(tree))
      ensures end == old(end) && size == old(size) + 1 && less == old(less)
      ensures RedRule(Plug(path, Nil), false) ==> RedRule(tree, false)
      ensures RedRule(Plug(path, Nil), false) && BlackBalanced(Plug(path, Nil)) ==> BlackBalanced(tree)
    {
      ghost var t := Node(Nil, node, Red, v, Nil);
      PlugRedRule(path, Nil);
      PlugRedRule(path, t);
      PlugBalanced(path, Nil);
      PlugBalanced(path, t);
      if path != [] {
        PlugRootColor(path, Nil, t);
      }
      Balance(node, path, t);
      Anchor(null);
      size := size + 1;
    }

    /**
     * Insert once _bst_insert has hung the new red leaf `node` below `path`
     * in the tree `t0` it was given.
     */
    method Rebalance(node: RBNode<T>, ghost v: T, ghost path: Path<T>, ghost t0: Tree<T>)
      requires Shaped(null) && tree == Plug(path, Node(Nil, node, Red, v, Nil)) && t0 == Plug(path, Nil) && RootBlack(t0)
      requires end.value == None && end.right == null && end.parent == null
      requires StrictWeakOrder(less) && StrictlySorted(less, Values(t0)) && size == |Values(t0)|
      requires !HasEquivalent(less, Values(t0), v)
      requires var k := LowerIndex(less, Values(t0), v); Values(tree) == Values(t0)[..k] + [v] + Values(t0)[k..]
      requires var k := LowerIndex(less, Values(t0), v); k < |NodeSeq(tree)| && NodeSeq(tree)[k] == node
      requires Nodes(tree) == Nodes(t0) + {node}
      modifies this, Nodes(tree), end
      ensures Valid() && end == old(end) && less == old(less) && size == old(size) + 1
      ensures var k := LowerIndex(less, Values(t0), v);
        && Contents() == Values(t0)[..k] + [v] + Values(t0)[k..]
        && k < |NodeSeq(tree)| && NodeSeq(tree)[k] == node && node.value == Some(v)
      ensures Nodes(tree) == Nodes(t0) + {node}
      ensures RedRule(t0, false) ==> RedRule(tree, false)
      ensures RedRule(t0, false) && BlackBalanced(t0) ==> BlackBalanced(tree)
    {
      ghost var k := LowerIndex(less, Values(t0), v);
      InsertAtLowerIndex(less, Values(t0), v);
      Settle(node, v, path);
      ValueAt(k, end);
      assert Values(tree)[k] == v;
    }

    /**
     * insert(val): a new red node is linked by _bst_insert with the root
     * detached; an equivalent element leaves the tree as it was and is
     * returned with `false`; otherwise _balance runs, the sentinel is
     * re-anchored, the size grows by one and the new node is returned with
     * `true`.
     */
    method Insert(v: T) returns (r: RBNode<T>, inserted: bool)
      requires Valid()
      modifies this, Repr()
      ensures Valid() && end == old(end) && less == old(less)
      ensures inserted <==> !HasEquivalent(less, old(Contents()), v)
      ensures r in Nodes(tree) && r.value.Some? && Equivalent(less, r.value.value, v)
      ensures var k := LowerIndex(less, old(Contents()), v); k < |NodeSeq(tree)| && NodeSeq(tree)[k] == r
      ensures !inserted ==> tree == old(tree) && size == old(size)
      ensures inserted ==> var k := LowerIndex(less, old(Contents()), v);
        && Contents() == old(Contents())[..k] + [v] + old(Contents())[k..]
        && size == old(size) + 1 && r.value == Some(v) && fresh(r)
      ensures inserted ==> Nodes(tree) == old(Nodes(tree)) + {r}
      ensures old(RedRule(tree, false)) ==> RedRule(tree, false)
      ensures old(RedRule(tree, false) && BlackBalanced(tree)) ==> BlackBalanced(tree)
    {
      ghost var t0 := tree;
      var node := new RBNode(Some(v));
      Detach();
      ghost var path, t;
      r, inserted, path, t := BstInsert(node, v);
      if !inserted {
        KeepFound(r, v);
      } else {
        Rebalance(node, v, path, t0);
      }
    }

    /** insert(position, val): the hint is ignored and insert(val)'s node returned. */
    method InsertHint(position: RBNode?<T>, v: T) returns (r: RBNode<T>)
      requires Valid()
      modifies this, Repr()
      ensures Valid() && end == old(end) && less == old(less)
      ensures Contents() == Inserted(less, old(Contents()), v)
      ensures r.value.Some? && Equivalent(less, r.value.value, v)
      ensures r == At(LowerIndex(less, old(Contents()), v))
      ensures fresh(Repr() - old(Repr()))
    {
      InsertedFacts(less, Contents(), v);
      var inserted;
      r, inserted := Insert(v);
    }

    /**
     * insert(first, last): the elements the input range yields, `vs`, are
     * inserted one after the other.
     */
    method InsertRange(vs: seq<T>)
      requires Valid()
      modifies this, Repr()
      ensures Valid() && end == old(end) && less == old(less)
      ensures Contents() == InsertedAll(less, old(Contents()), vs)
      ensures fresh(Repr() - old(Repr()))
    {
      ghost var c0, r0, e0, l0 := Contents(), Repr(), end, less;
      var i := 0;
      while i < |vs|
        invariant i <= |vs|
        invariant Valid() && end == e0 && less == l0
        invariant Contents() == InsertedAll(less, c0, vs[..i])
        invariant fresh(Repr() - r0)
      {
        var r := InsertHint(null, vs[i]);
        assert vs[..i + 1][..i] == vs[..i];
        i := i + 1;
      }
      assert vs[..i] == vs;
    }

    /**
     * Writing `w` through the reference to the element at position `k` that
     * map::operator[] hands out: the element is replaced, and the tree stays
     * ordered because `w` is equivalent to the element it replaces.
     */
    method Store(n: RBNode<T>, ghost k: nat, w: T)
      requires Valid() && k < |Contents()| && n == At(k) && Equivalent(less, Contents()[k], w)
      modifies this, n
      ensures Valid() && Contents() == old(Contents())[k := w]
      ensures NodeSeq(tree) == old(NodeSeq(tree)) && Nodes(tree) == old(Nodes(tree))
      ensures root == old(root) && end == old(end) && size == old(size) && less == old(less)
    {
      NodeSeqLength(tree);
      ghost var s0 := Values(tree);
      ghost var path, t := Locate(tree, k);
      PlugNodes(path, t);
      assert n in Nodes(tree);
      Revalue(n, w, path, t);
      ReplaceEquivalentKeepsSorted(less, s0, k, w);
      PlugSameColor(path, t, t.(value := w));
    }

    // ------------------------------------------------------------ erase

    /** `q`'s child `z` becomes `c`; the nodes of `s` other than `q` keep their fields. */
    method ReplaceLink(q: RBNode<T>, z: RBNode<T>, c: RBNode?<T>, ghost s: set<RBNode<T>>)
      requires forall n :: n in s ==> n in links && links[n] == FieldsOf(n)
      modifies q
      ensures forall n :: n in s && n != q ==> n in links && links[n] == FieldsOf(n)
      ensures FieldsOf(q) == ReplaceChild(old(FieldsOf(q)), z, c)
    {
      if q.left == z {
        q.left := c;
      } else {
        q.right := c;
      }
    }

    /** `q`'s child `z` becomes `c`, and `c`'s parent `q`; the other nodes of `s` keep their fields. */
    method Splice(q: RBNode<T>, z: RBNode<T>, c: RBNode<T>, ghost s: set<RBNode<T>>)
      requires q != c
      requires forall n :: n in s ==> n in links && links[n] == FieldsOf(n)
      modifies q, c
      ensures forall n :: n in s && n != q && n != c ==> n in links && links[n] == FieldsOf(n)
      ensures FieldsOf(q) == ReplaceChild(old(FieldsOf(q)), z, c)
      ensures FieldsOf(c) == old(FieldsOf(c)).(parent := q)
    {
      ReplaceLink(q, z, c, s);
      c.parent := q;
    }

    /** The top of the subtree at `path` as the heap holds it: its children and its parent. */
    lemma Site(path: Path<T>, t: Tree<T>, a: RBNode?<T>)
      requires Shaped(a) && tree == Plug(path, t) && t.Node? && a !in Nodes(tree)
      ensures t.node.left == Top(t.left) && t.node.right == Top(t.right)
      ensures t.node.parent == HoleParent(path, a)
      ensures path != [] ==> path[0].node in Nodes(tree) && path[0].node !in Nodes(t)
      ensures Nodes(t) <= Nodes(tree)
    {
      LinksAround(path, t, a, links);
      PlugNodes(path, t);
      PlugDistinct(path, t);
      assert t.node in Nodes(tree);
      if path != [] {
        assert PathNodes(path) == {path[0].node} + Nodes(path[0].sibling) + PathNodes(path[1..]);
      }
    }

    /**
     * _bst_erase of a leaf `z` at in-order position `k`: its parent forgets
     * it, or the tree becomes empty when it was the root.  The parent is
     * returned (the sentinel for the root).
     */
    method ExciseLeaf(z: RBNode<T>, ghost k: nat) returns (r: RBNode<T>)
      requires Shaped(end) && k < |Values(tree)| && k < |NodeSeq(tree)| && z == NodeSeq(tree)[k]
      requires z.left == null && z.right == null
      modifies this, Nodes(tree)
      ensures Shaped(end)
      ensures Values(tree) == old(Values(tree))[..k] + old(Values(tree))[k + 1..]
      ensures NodeSeq(tree) == old(NodeSeq(tree))[..k] + old(NodeSeq(tree))[k + 1..]
      ensures Nodes(tree) == old(Nodes(tree)) - {z}
      ensures (r == end <==> tree == Nil) && (r != end ==> r in Nodes(tree))
      ensures end == old(end) && size == old(size) && less == old(less)
    {
      ghost var path, t := Locate(tree, k);
      Site(path, t, end);
      assert Excisable(t, Nil);
      ExciseNodes(path, t, Nil);
      ExciseValues(path, t, Nil);
      ExciseNodeSeq(path, t, Nil);
      PlugNodes(path, Nil);
      var parent := z.parent;
      if parent == end {
        root := null;
        tree := Nil;
      } else {
        DropLeaf(parent, z, path, t);
        assert parent in PathNodes(path);
      }
      r := parent;
    }

    /** `q`, the parent of the leaf `z`, forgets it. */
    method DropLeaf(q: RBNode<T>, z: RBNode<T>, ghost path: Path<T>, ghost t: Tree<T>)
      requires Shaped(end) && tree == Plug(path, t) && t.Node? && t.node == z && t.left == Nil && t.right == Nil
      requires path != [] && q == path[0].node && q in Nodes(tree)
      requires Distinct(Plug(path, Nil)) && Nodes(Plug(path, Nil)) == Nodes(tree) - {z}
      modifies this, q
      ensures Shaped(end) && tree == Plug(path, Nil)
      ensures root == old(root) && end == old(end) && size == old(size) && less == old(less)
    {
      ghost var before := links;
      ghost var nodes := Nodes(tree);
      PlugTop(path, t);
      PlugTop(path, Nil);
      ReplaceLink(q, z, null, nodes);
      Note(q);
      ExciseLinked(path, t, Nil, end, before, links);
      forall n | n in Nodes(Plug(path, Nil)) ensures n in links && links[n] == FieldsOf(n) {
        if n != q {
          assert n in nodes;
        }
      }
      SetShape(Plug(path, Nil), end);
    }

    /**
     * _bst_erase of a node `z` at in-order position `k` whose only child is
     * `c`: `c` takes its place below z's parent, or becomes the root with
     * no parent (`a` is then null).  `c` is returned.
     */
    method ExciseOnly(z: RBNode<T>, c: RBNode<T>, ghost k: nat) returns (r: RBNode<T>, ghost a: RBNode?<T>)
      requires Shaped(end) && k < |Values(tree)| && k < |NodeSeq(tree)| && z == NodeSeq(tree)[k]
      requires (z.left == c && z.right == null) || (z.left == null && z.right == c)
      modifies this, Nodes(tree)
      ensures Shaped(a) && (a == end || a == null)
      ensures Values(tree) == old(Values(tree))[..k] + old(Values(tree))[k + 1..]
      ensures NodeSeq(tree) == old(NodeSeq(tree))[..k] + old(NodeSeq(tree))[k + 1..]
      ensures Nodes(tree) == old(Nodes(tree)) - {z}
      ensures r == c && r in Nodes(tree)
      ensures end == old(end) && size == old(size) && less == old(less)
    {
      ghost var path, t := Locate(tree, k);
      Site(path, t, end);
      ghost var rest := RestOf(path, t, k, c);
      if z.parent == end {
        LiftChild(z, c, path, t, rest);
        a := null;
      } else {
        SpliceOut(z.parent, z, c, path, t, rest);
        a := end;
      }
      r := c;
    }

    /** The subtree that takes the place of the top of `t`, whose only child is `c`. */
    lemma RestOf(path: Path<T>, t: Tree<T>, k: nat, c: RBNode<T>) returns (rest: Tree<T>)
      requires tree == Plug(path, t) && t.Node? && Distinct(tree) && |BeforeNodes(path)| + |NodeSeq(t.left)| == k
      requires (Top(t.left) == c && t.right == Nil) || (t.left == Nil && Top(t.right) == c)
      ensures Excisable(t, rest) && Top(rest) == c && c in Nodes(Plug(path, rest))
      ensures Distinct(Plug(path, rest)) && Nodes(Plug(path, rest)) == Nodes(tree) - {t.node}
      ensures k < |Values(tree)| && Values(Plug(path, rest)) == Values(tree)[..k] + Values(tree)[k + 1..]
      ensures k < |NodeSeq(tree)| && NodeSeq(Plug(path, rest)) == NodeSeq(tree)[..k] + NodeSeq(tree)[k + 1..]
    {
      rest := if t.left.Node? then t.left else t.right;
      assert Excisable(t, rest);
      ExciseNodes(path, t, rest);
      ExciseValues(path, t, rest);
      ExciseNodeSeq(path, t, rest);
    }

    /** The only child `c` of the root `z` becomes the root, with no parent. */
    method LiftChild(z: RBNode<T>, c: RBNode<T>, ghost path: Path<T>, ghost t: Tree<T>, ghost rest: Tree<T>)
      requires path == [] && Shaped(end) && tree == Plug(path, t) && Excisable(t, rest) && t.node == z && Top(rest) == c
      modifies this, c
      ensures Shaped(null) && tree == Plug(path, rest)
      ensures end == old(end) && size == old(size) && less == old(less)
    {
      assert Linked(rest, z, links) && Distinct(rest);
      assert Nodes(rest) <= Nodes(t);
      ReparentTop(rest, z, null, links);
      root := c;
      c.parent := null;
      Note(c);
      SetShape(rest, null);
    }

    /** `q`, the parent of `z`, takes z's only child `c` in its place. */
    method SpliceOut(q: RBNode<T>, z: RBNode<T>, c: RBNode<T>, ghost path: Path<T>, ghost t: Tree<T>, ghost rest: Tree<T>)
      requires Shaped(end) && tree == Plug(path, t) && Excisable(t, rest) && t.node == z && Top(rest) == c
      requires path != [] && q == path[0].node && q in Nodes(tree) && q != c
      requires Distinct(Plug(path, rest)) && Nodes(Plug(path, rest)) == Nodes(tree) - {z}
      modifies this, q, c
      ensures Shaped(end) && tree == Plug(path, rest)
      ensures root == old(root) && end == old(end) && size == old(size) && less == old(less)
    {
      PlugTop(path, t);
      PlugTop(path, rest);
      PlugNodes(path, t);
      assert c in Nodes(t) && c in Nodes(tree);
      Splice(q, z, c, Nodes(tree));
      RecordSplice(q, z, c, path, t, rest);
    }

    /** Records in the ghost state the links Splice changed. */
    ghost method RecordSplice(q: RBNode<T>, z: RBNode<T>, c: RBNode<T>, path: Path<T>, t: Tree<T>, rest: Tree<T>)
      requires tree == Plug(path, t) && Excisable(t, rest) && t.node == z && Top(rest) == c
      requires path != [] && q == path[0].node && q in Nodes(tree) && c in Nodes(tree)
      requires Distinct(tree) && Linked(tree, end, links) && end !in Nodes(tree)
      requires Distinct(Plug(path, rest)) && Nodes(Plug(path, rest)) == Nodes(tree) - {z}
      requires root == Top(Plug(path, rest))
      requires forall n :: n in Nodes(tree) && n != q && n != c ==> n in links && links[n] == FieldsOf(n)
      requires q in links && FieldsOf(q) == ReplaceChild(links[q], z, c)
      requires c in links && FieldsOf(c) == links[c].(parent := q)
      modifies this
      ensures Shaped(end) && tree == Plug(path, rest)
      ensures root == old(root) && end == old(end) && size == old(size) && less == old(less)
    {
      ghost var before := links;
      ghost var nodes := Nodes(tree);
      Note(q);
      Note(c);
      ExciseLinked(path, t, rest, end, before, links);
      forall n | n in Nodes(Plug(path, rest)) ensures n in links && links[n] == FieldsOf(n) {
        if n != q && n != c {
          assert n in nodes;
        }
      }
      SetShape(Plug(path, rest), end);
    }

    /** `*n->value = w` for the top `n` of the subtree at `path`: the copy step of _bst_erase. */
    method Revalue(n: RBNode<T>, w: T, ghost path: Path<T>, ghost t: Tree<T>)
      requires Shaped(end) && tree == Plug(path, t) && t.Node? && t.node == n
      modifies this, n
      ensures Shaped(end) && tree == Plug(path, t.(value := w))
      ensures Nodes(tree) == old(Nodes(tree)) && NodeSeq(tree) == old(NodeSeq(tree))
      ensures var k := |BeforeNodes(path)| + |NodeSeq(t.left)|;
        k < |old(Values(tree))| && Values(tree) == old(Values(tree))[k := w]
      ensures n.left == old(n.left) && n.right == old(n.right)
      ensures root == old(root) && end == old(end) && size == old(size) && less == old(less)
    {
      RevaluePlug(path, t, end, links, w);
      RevalueValues(path, t, w);
      PlugNodes(path, t);
      n.value := Some(w);
      Note(n);
      SetShape(Plug(path, t.(value := w)), end);
    }

    /**
     * _bst_erase(node): removes the element at in-order position `k`, held
     * by `z`, from the binary search tree.  A node with two children takes
     * the value of its predecessor, the rightmost node of its left subtree,
     * and that node is removed instead.  The result is where _balance would
     * start: the parent of a removed leaf (the sentinel when it was the root)
     * or the child that took the removed node's place.  When that child
     * becomes the root it has no parent (`a` is null).
     */
    method BstErase(z: RBNode<T>, ghost k: nat) returns (r: RBNode<T>, ghost a: RBNode?<T>)
      requires Shaped(end) && k < |Values(tree)| && k < |NodeSeq(tree)| && z == NodeSeq(tree)[k]
      modifies this, Nodes(tree)
      ensures Shaped(a) && (a == end || a == null)
      ensures Values(tree) == old(Values(tree))[..k] + old(Values(tree))[k + 1..]
      ensures |NodeSeq(tree)| + 1 == old(|NodeSeq(tree)|)
      ensures NodeSeq(tree)[k..] == old(NodeSeq(tree))[k + 1..]
      ensures Nodes(tree) <= old(Nodes(tree))
      ensures (r == end <==> tree == Nil) && (r != end ==> r in Nodes(tree))
      ensures end == old(end) && size == old(size) && less == old(less)
      decreases if z.left != null && z.right != null then 2 else 0
    {
      if z.left == null && z.right == null {
        r := ExciseLeaf(z, k);
        a := end;
      } else if z.right == null {
        r, a := ExciseOnly(z, z.left, k);
      } else if z.left == null {
        r, a := ExciseOnly(z, z.right, k);
      } else {
        r, a := CopyDown(z, k);
      }
    }

    /**
     * _bst_erase of a node `z` with two children: z takes its predecessor's
     * value, then the predecessor's node is erased.
     */
    method CopyDown(z: RBNode<T>, ghost k: nat) returns (r: RBNode<T>, ghost a: RBNode?<T>)
      requires Shaped(end) && k < |Values(tree)| && k < |NodeSeq(tree)| && z == NodeSeq(tree)[k]
      requires z.left != null && z.right != null
      modifies this, Nodes(tree)
      ensures Shaped(a) && (a == end || a == null)
      ensures Values(tree) == old(Values(tree))[..k] + old(Values(tree))[k + 1..]
      ensures |NodeSeq(tree)| + 1 == old(|NodeSeq(tree)|)
      ensures NodeSeq(tree)[k..] == old(NodeSeq(tree))[k + 1..]
      ensures Nodes(tree) <= old(Nodes(tree))
      ensures (r == end <==> tree == Nil) && (r != end ==> r in Nodes(tree))
      ensures end == old(end) && size == old(size) && less == old(less)
      decreases 1
    {
      ghost var s0, q0 := Values(tree), NodeSeq(tree);
      var prev := CopyPredecessor(z, k);
      ghost var s1 := Values(tree);
      r, a := BstErase(prev, k - 1);
      CopiedDown(s0, s1, Values(tree), q0, NodeSeq(tree), k);
    }

    /** `*node->value = *prev->value` for the predecessor `prev` of `z`, which is returned. */
    method CopyPredecessor(z: RBNode<T>, ghost k: nat) returns (prev: RBNode<T>)
      requires Shaped(end) && k < |Values(tree)| && k < |NodeSeq(tree)| && z == NodeSeq(tree)[k]
      requires z.left != null && z.right != null
      modifies this, Nodes(tree)
      ensures Shaped(end) && 0 < k && Values(tree) == old(Values(tree))[k := old(Values(tree))[k - 1]]
      ensures NodeSeq(tree) == old(NodeSeq(tree)) && Nodes(tree) == old(Nodes(tree))
      ensures prev == NodeSeq(tree)[k - 1] && prev.right == null
      ensures root == old(root) && end == old(end) && size == old(size) && less == old(less)
    {
      ghost var path, t;
      prev, path, t := Predecessor(z, k);
      Revalue(z, prev.value.value, path, t);
    }

    /**
     * `_find_rightmost_node(node->left)` for a node `z` with two children at
     * in-order position `k`: the node at position `k - 1`, which has no right
     * child.  The ghost results locate `z`.
     */
    method Predecessor(z: RBNode<T>, ghost k: nat) returns (prev: RBNode<T>, ghost path: Path<T>, ghost t: Tree<T>)
      requires Shaped(end) && k < |Values(tree)| && k < |NodeSeq(tree)| && z == NodeSeq(tree)[k]
      requires z.left != null && z.right != null
      ensures tree == Plug(path, t) && t.Node? && t.node == z && |BeforeNodes(path)| + |NodeSeq(t.left)| == k
      ensures 0 < k && prev == NodeSeq(tree)[k - 1] && prev != z && z in Nodes(tree)
      ensures prev.value == Some(Values(tree)[k - 1]) && prev.right == null
    {
      path, t := Locate(tree, k);
      Site(path, t, end);
      MirroredHeapTree(tree, end, links);
      HeapTreePlug(path, t);
      var m := Rightmost(z.left, t.left);
      prev := m;
      PredecessorBelow(path, t, k);
      ValueAt(k - 1, end);
      DistinctNodeSeq(tree);
      assert z in Nodes(t);
    }

    /**
     * erase(position) for the node `z` at in-order position `k`:
     * _bst_erase removes the element; when it returns a node other than the
     * sentinel the root is painted black, the last step of _balance (the
     * rest of _balance is not modelled, see README); the root is cleared
     * when the last element went, and the sentinel re-anchored otherwise;
     * the size shrinks by one.  Every later node moves one position down.
     */
    method Erase(z: RBNode<T>, ghost k: nat)
      requires Valid() && k < |Contents()| && z == At(k)
      modifies this, Repr()
      ensures Valid() && end == old(end) && less == old(less)
      ensures Contents() == old(Contents())[..k] + old(Contents())[k + 1..]
      ensures size == old(size) - 1
      ensures Nodes(tree) <= old(Nodes(tree))
      ensures old(|NodeSeq(tree)|) == old(|Contents()|) && |NodeSeq(tree)| == |Contents()|
      ensures NodeSeq(tree)[k..] == old(NodeSeq(tree))[k + 1..]
    {
      NodesOfNodeSeq(tree);
      ghost var s0, n0 := Values(tree), NodeSeq(tree);
      var r;
      ghost var a;
      r, a := BstErase(z, k);
      RemoveKeepsStrictlySorted(less, s0, k);
      Reroot(r, a);
      NodesOfNodeSeq(tree);
    }

    /**
     * The end of erase(position) once _bst_erase returned `r`: the root is
     * painted black unless `r` is the sentinel, the root is cleared when the
     * last element went and the sentinel re-anchored otherwise, and the
     * size shrinks by one.
     */
    method Reroot(r: RBNode<T>, ghost a: RBNode?<T>)
      requires Shaped(a) && (a == end || a == null) && (r == end <==> tree == Nil)
      requires end.value == None && end.right == null && end.parent == null
      requires StrictWeakOrder(less) && StrictlySorted(less, Values(tree)) && size == |Values(tree)| + 1
      modifies this, Nodes(tree), end
      ensures Valid()
      ensures Nodes(tree) == old(Nodes(tree)) && Values(tree) == old(Values(tree)) && NodeSeq(tree) == old(NodeSeq(tree))
      ensures end == old(end) && less == old(less) && size == old(size) - 1
    {
      if r != end {
        Paint(root, Black, a, [], tree);
      }
      if size == 1 {
        root := null;
      } else {
        Anchor(a);
      }
      size := size - 1;
    }

    /** After one position `k` is removed from `n0`, every later node is one position further down. */
    lemma AtShifted(n0: seq<RBNode<T>>, k: nat, x: nat)
      requires |NodeSeq(tree)| + 1 == |n0| && k <= x <= |NodeSeq(tree)| && NodeSeq(tree)[k..] == n0[k + 1..]
      ensures At(x) == if x + 1 < |n0| then n0[x + 1] else end
    {
      if x < |NodeSeq(tree)| {
        assert NodeSeq(tree)[x] == NodeSeq(tree)[k..][x - k] == n0[k + 1..][x - k];
      }
    }

    /**
     * erase(val): the element equivalent to `v` is erased and 1 returned, or
     * 0 when there is none and nothing changes.
     */
    method EraseValue(v: T) returns (n: nat)
      requires Valid()
      modifies this, Repr()
      ensures Valid() && end == old(end) && less == old(less)
      ensures n <= 1 && (n == 1 <==> HasEquivalent(less, old(Contents()), v))
      ensures n == 0 ==> tree == old(tree) && size == old(size)
      ensures n == 1 ==> var k := LowerIndex(less, old(Contents()), v);
        && k < |old(Contents())| && Equivalent(less, old(Contents())[k], v)
        && Contents() == old(Contents())[..k] + old(Contents())[k + 1..]
      ensures !HasEquivalent(less, Contents(), v)
      ensures size == old(size) - n
    {
      var it := Find(v);
      if it == end {
        return 0;
      }
      RemoveEquivalent(less, Contents(), v);
      Erase(it, LowerIndex(less, Contents(), v));
      return 1;
    }

    // ------------------------------------------------------------ lifecycle

    /**
     * The copy constructor: the nodes of `src` are cloned with their values
     * and colours, a fresh sentinel is made and the copy's root is hung from
     * it.
     */
    constructor Copy(src: RBTree<T>)
      requires src.Valid()
      ensures Valid() && Contents() == src.Contents() && size == src.size && less == src.less
      ensures Copied(tree, src.tree)
      ensures fresh(Repr())
    {
      root := null;
      end := new RBNode(None);
      tree := Nil;
      links := map[];
      new;
      Graft(src);
      AnchorClone();
    }

    /**
     * operator= as written: clear(), take the comparator, clone the other
     * tree's nodes and copy its size.  The clone's root hangs from NULL and
     * the sentinel's `left` still names the old root, so a non-empty result
     * is not anchored.
     */
    method AssignAsWritten(src: RBTree<T>)
      requires Valid() && src.Valid()
      modifies this
      ensures Contents() == old(src.Contents()) && size == old(src.size) && less == old(src.less) && end == old(end)
      ensures this != src ==> Shaped(null) && end.left == old(end.left)
      ensures this != src && Contents() != [] ==> root.parent == null && !Valid()
    {
      if this == src {
        return;
      }
      CloneFrom(src);
    }

    /** operator= with the re-anchoring the copy constructor does: the result is a valid copy. */
    method Assign(src: RBTree<T>)
      requires Valid() && src.Valid()
      modifies this, end
      ensures Valid() && Contents() == old(src.Contents()) && size == old(src.size) && less == old(src.less) && end == old(end)
    {
      if this == src {
        return;
      }
      CloneFrom(src);
      AnchorClone();
    }

    /** `if (_root) { _root->parent = _end; _end->left = _root; }`: a sorted, unanchored tree becomes valid. */
    method AnchorClone()
      requires Shaped(null) && end.value == None && end.right == null && end.parent == null
      requires StrictWeakOrder(less) && StrictlySorted(less, Values(tree)) && size == |Values(tree)| && RootBlack(tree)
      modifies this, Nodes(tree), end
      ensures Valid() && tree == old(tree) && root == old(root) && end == old(end) && size == old(size) && less == old(less)
    {
      if root != null {
        Anchor(null);
      }
    }

    /** The body shared by both assignments: clear(), then clone the other tree unanchored. */
    method CloneFrom(src: RBTree<T>)
      requires Valid() && src.Valid() && this != src
      modifies this
      ensures Shaped(null) && fresh(Nodes(tree)) && Copied(tree, src.tree)
      ensures Contents() == src.Contents() && size == src.size && less == src.less
      ensures end == old(end) && end.left == old(end.left)
      ensures StrictWeakOrder(less) && StrictlySorted(less, Values(tree)) && size == |Values(tree)| && RootBlack(tree)
    {
      Clear();
      Graft(src);
    }

    /**
     * `_comp = other._comp; _root = _bst_clone(other._root, NULL); _size =
     * other._size;` on an empty tree: the clone hangs from NULL.
     */
    method Graft(src: RBTree<T>)
      requires tree == Nil && src.Valid() && this != src
      modifies this
      ensures Shaped(null) && fresh(Nodes(tree)) && Copied(tree, src.tree)
      ensures Contents() == src.Contents() && size == src.size && less == src.less
      ensures end == old(end)
      ensures StrictWeakOrder(less) && StrictlySorted(less, Values(tree)) && size == |Values(tree)| && RootBlack(tree)
    {
      MirroredHeapTree(src.tree, src.end, src.links);
      var r;
      ghost var c, record;
      r, c, record := CloneTree(src.root, src.tree);
      root, size, less := r, src.size, src.less;
      tree, links := c, record;
    }

    /** clear(): _bst_clear releases every node; no root and size 0 remain. */
    method Clear()
      requires Valid()
      modifies this
      ensures Valid() && Contents() == [] && root == null && size == 0
      ensures end == old(end) && less == old(less)
    {
      root := null;
      size := 0;
      tree := Nil;
      links := map[];
    }

    /** swap(x): the two trees exchange comparator, root, sentinel and size. */
    method Swap(x: RBTree<T>)
      requires Valid() && x.Valid()
      modifies this, x
      ensures Valid() && x.Valid()
      ensures Contents() == old(x.Contents()) && x.Contents() == old(Contents())
      ensures less == old(x.less) && root == old(x.root) && end == old(x.end) && size == old(x.size)
      ensures x.less == old(less) && x.root == old(root) && x.end == old(end) && x.size == old(size)
    {
      if x == this {
        // every field is overwritten with its own value
        return;
      }
      Exchange(x);
      TakesOver(x);
      x.TakesOver(this);
    }

    /** The field assignments of swap(x), through temporaries. */
    method Exchange(x: RBTree<T>)
      requires x != this
      modifies this, x
      ensures less == old(x.less) && root == old(x.root) && end == old(x.end) && size == old(x.size)
      ensures tree == old(x.tree) && links == old(x.links)
      ensures x.less == old(less) && x.root == old(root) && x.end == old(end) && x.size == old(size)
      ensures x.tree == old(tree) && x.links == old(links)
    {
      var lessTmp, rootTmp, endTmp, sizeTmp := less, root, end, size;
      ghost var treeTmp, linksTmp := tree, links;
      less, root, end, size := x.less, x.root, x.end, x.size;
      tree, links := x.tree, x.links;
      x.less, x.root, x.end, x.size := lessTmp, rootTmp, endTmp, sizeTmp;
      x.tree, x.links := treeTmp, linksTmp;
    }

    /** A tree whose fields are those `x` had, over unchanged nodes, is valid when `x` was. */
    twostate lemma TakesOver(x: RBTree<T>)
      requires old(x.Valid())
      requires root == old(x.root) && end == old(x.end) && size == old(x.size) && less == old(x.less)
      requires tree == old(x.tree) && links == old(x.links)
      requires unchanged(end) && forall n :: n in Nodes(tree) ==> unchanged(n)
      ensures Valid()
    {
      forall n | n in Nodes(tree) ensures n in links && links[n] == FieldsOf(n) {
        assert unchanged(n);
      }
    }

    // ------------------------------------------------------------ lookups

    /**
     * _bst_find(val, node): the node of the subtree `t` below `node` that
     * holds an element equivalent to `v`, or the sentinel if there is none.
     */
    function FindFrom(v: T, node: RBNode?<T>, ghost t: Tree<T>): (r: RBNode<T>)
      requires HeapTree(t) && node == Top(t) && end !in Nodes(t)
      requires StrictWeakOrder(less) && StrictlySorted(less, Values(t))
      reads this, Nodes(t)
      ensures r == end <==> !HasEquivalent(less, Values(t), v)
      ensures r != end ==> var k := LowerIndex(less, Values(t), v); k < |NodeSeq(t)| && NodeSeq(t)[k] == r
      decreases t
    {
      if node == null then end
      else
        SubtreesSorted(less, t);
        if less(node.value.value, v) then
          FindStep(less, t, v);
          InRight(t, LowerIndex(less, Values(t.right), v));
          FindFrom(v, node.right, t.right)
        else if less(v, node.value.value) then
          FindStep(less, t, v);
          InLeft(t, LowerIndex(less, Values(t.left), v));
          FindFrom(v, node.left, t.left)
        else
          FindStep(less, t, v);
          InLeft(t, |Values(t.left)|);
          node
    }

    /**
     * _bst_lower_bound(val, node): the first node of the subtree `t` whose
     * element does not order before `v`, or the sentinel.
     */
    function LowerBoundFrom(v: T, node: RBNode?<T>, ghost t: Tree<T>): (r: RBNode<T>)
      requires HeapTree(t) && node == Top(t) && end !in Nodes(t)
      requires StrictWeakOrder(less) && StrictlySorted(less, Values(t))
      reads this, Nodes(t)
      ensures r == end <==> LowerIndex(less, Values(t), v) == |Values(t)|
      ensures r != end ==> var k := LowerIndex(less, Values(t), v); k < |NodeSeq(t)| && NodeSeq(t)[k] == r
      decreases t
    {
      if node == null then end
      else
        SubtreesSorted(less, t);
        LowerStep(less, t, v);
        if less(node.value.value, v) then
          InRight(t, LowerIndex(less, Values(t.right), v));
          LowerBoundFrom(v, node.right, t.right)
        else
          InLeft(t, LowerIndex(less, Values(t.left), v));
          var left := LowerBoundFrom(v, node.left, t.left);
          if left != end then left else node
    }

    /**
     * _bst_upper_bound(val, node): the first node of the subtree `t` whose
     * element orders after `v`, or the sentinel.
     */
    function UpperBoundFrom(v: T, node: RBNode?<T>, ghost t: Tree<T>): (r: RBNode<T>)
      requires HeapTree(t) && node == Top(t) && end !in Nodes(t)
      requires StrictWeakOrder(less) && StrictlySorted(less, Values(t))
      reads this, Nodes(t)
      ensures r == end <==> UpperIndex(less, Values(t), v) == |Values(t)|
      ensures r != end ==> var k := UpperIndex(less, Values(t), v); k < |NodeSeq(t)| && NodeSeq(t)[k] == r
      decreases t
    {
      if node == null then end
      else
        SubtreesSorted(less, t);
        UpperStep(less, t, v);
        if !less(v, node.value.value) then
          InRight(t, UpperIndex(less, Values(t.right), v));
          UpperBoundFrom(v, node.right, t.right)
        else
          InLeft(t, UpperIndex(less, Values(t.left), v));
          var left := UpperBoundFrom(v, node.left, t.left);
          if left != end then left else node
    }

    /** The node at in-order position `k`; position |Contents()| is the sentinel. */
    ghost function At(k: nat): RBNode<T>
      reads this
    {
      if k < |NodeSeq(tree)| then NodeSeq(tree)[k] else end
    }

    /** Distinct positions hold distinct nodes, so a node identifies its position. */
    lemma AtInjective(i: nat, j: nat)
      requires Valid() && i <= |Contents()| && j <= |Contents()|
      ensures |NodeSeq(tree)| == |Contents()|
      ensures At(i) == At(j) ==> i == j
    {
      NodesOfNodeSeq(tree);
      DistinctNodeSeq(tree);
      if i < |Contents()| {
        assert At(i) in Nodes(tree);
      }
      if j < |Contents()| {
        assert At(j) in Nodes(tree);
      }
    }

    /**
     * find(val): the node holding the element equivalent to `v`, at its
     * in-order position, or the sentinel when there is none.
     */
    function Find(v: T): (r: RBNode<T>)
      requires Valid()
      reads this, Repr()
      ensures r == end <==> !HasEquivalent(less, Contents(), v)
      ensures r != end ==> var k := LowerIndex(less, Contents(), v);
        && k < |Contents()| && k < |NodeSeq(tree)| && NodeSeq(tree)[k] == r
        && r.value == Some(Contents()[k]) && Equivalent(less, Contents()[k], v)
    {
      MirroredHeapTree(tree, end, links);
      BoundsOfStrictlySorted(less, Values(tree), v);
      ValueAt(LowerIndex(less, Values(tree), v), end);
      FindFrom(v, root, tree)
    }

    /** count(val): 1 if an equivalent element is present, 0 otherwise. */
    function Count(v: T): (n: nat)
      requires Valid()
      reads this, Repr()
      ensures n <= 1 && (n == 1 <==> HasEquivalent(less, Contents(), v))
    {
      if Find(v) == end then 0 else 1
    }

    /**
     * lower_bound(val): the node of the first element that does not order
     * before `v`, or the sentinel when every element does.
     */
    function LowerBound(v: T): (r: RBNode<T>)
      requires Valid()
      reads this, Repr()
      ensures var k := LowerIndex(less, Contents(), v);
        && (r == end <==> k == |Contents()|)
        && (r != end ==> k < |Contents()| && k < |NodeSeq(tree)| && NodeSeq(tree)[k] == r && r.value == Some(Contents()[k]))
    {
      MirroredHeapTree(tree, end, links);
      ValueAt(LowerIndex(less, Values(tree), v), end);
      LowerBoundFrom(v, root, tree)
    }

    /**
     * upper_bound(val): the node of the first element that orders after
     * `v`, or the sentinel when none does.
     */
    function UpperBound(v: T): (r: RBNode<T>)
      requires Valid()
      reads this, Repr()
      ensures var k := UpperIndex(less, Contents(), v);
        && (r == end <==> k == |Contents()|)
        && (r != end ==> k < |Contents()| && k < |NodeSeq(tree)| && NodeSeq(tree)[k] == r && r.value == Some(Contents()[k]))
    {
      MirroredHeapTree(tree, end, links);
      ValueAt(UpperIndex(less, Values(tree), v), end);
      UpperBoundFrom(v, root, tree)
    }

    /**
     * equal_range(val): (lower_bound(val), upper_bound(val)).  The range is
     * empty when no element is equivalent to `v` and holds exactly the
     * equivalent element otherwise.
     */
    function EqualRange(v: T): (r: Pair<RBNode<T>, RBNode<T>>)
      requires Valid()
      reads this, Repr()
      ensures r.first == LowerBound(v) && r.second == UpperBound(v)
      ensures var lo := LowerIndex(less, Contents(), v); var hi := UpperIndex(less, Contents(), v);
        && (!HasEquivalent(less, Contents(), v) ==> hi == lo && r.first == r.second)
        && (HasEquivalent(less, Contents(), v) ==> hi == lo + 1 && r.first == Find(v) && r.first != r.second)
    {
      BoundsOfStrictlySorted(less, Values(tree), v);
      DistinctNodeSeq(tree);
      MakePair(LowerBound(v), UpperBound(v))
    }

    /** empty(): there is no root exactly when there are no elements. */
    function Empty(): (b: bool)
      requires Valid()
      reads this, Repr()
      ensures b <==> Contents() == []
    {
      root == null
    }

    /** size(): the number of elements. */
    function Size(): (n: nat)
      requires Valid()
      reads this, Repr()
      ensures n == |Contents()|
    {
      size
    }

    /** begin(): the node of the first element, or the sentinel when there is none. */
    method Begin() returns (r: RBNode<T>)
      requires Valid()
      ensures Contents() == [] ==> r == end
      ensures Contents() != [] ==> |NodeSeq(tree)| > 0 && r == NodeSeq(tree)[0]
    {
      if root == null {
        return end;
      }
      MirroredHeapTree(tree, end, links);
      NodesOfNodeSeq(tree);
      var m := Leftmost(root, tree);
      return m;
    }
}

  /** _find_leftmost_node: follows `left` links down from `node`. */
  method Leftmost<T>(node: RBNode?<T>, ghost t: Tree<T>) returns (r: RBNode?<T>)
    requires HeapTree(t) && node == Top(t)
    ensures t == Nil ==> r == null
    ensures t != Nil ==> |NodeSeq(t)| > 0 && r == NodeSeq(t)[0]
  {
    r := node;
    ghost var sub := t;
    while r != null && r.left != null
      invariant HeapTree(sub) && r == Top(sub)
      invariant t == Nil ==> sub == Nil
      invariant t != Nil ==> sub.Node? && NodeSeq(sub)[0] == NodeSeq(t)[0]
      decreases sub
    {
      r, sub := r.left, sub.left;
    }
  }

  /** _find_rightmost_node: follows `right` links down from `node`. */
  method Rightmost<T>(node: RBNode?<T>, ghost t: Tree<T>) returns (r: RBNode?<T>)
    requires HeapTree(t) && node == Top(t)
    ensures t == Nil ==> r == null
    ensures t != Nil ==> |NodeSeq(t)| > 0 && r == NodeSeq(t)[|NodeSeq(t)| - 1]
    ensures r != null ==> r.right == null
  {
    r := node;
    ghost var sub := t;
    while r != null && r.right != null
      invariant HeapTree(sub) && r == Top(sub)
      invariant t == Nil ==> sub == Nil
      invariant t != Nil ==> sub.Node? && NodeSeq(sub)[|NodeSeq(sub)| - 1] == NodeSeq(t)[|NodeSeq(t)| - 1]
      decreases sub
    {
      r, sub := r.right, sub.right;
    }
  }
}
