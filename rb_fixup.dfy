/**
 * The cases of the insertion fix-up `_balance` (srcs/rb_tree.hpp), stated on
 * shapes.  The loop looks at the subtree `t` whose top is the current node
 * and at the path of its ancestors: `path[0]` is the parent, `path[1]` the
 * grandparent and the sibling of `path[1]` the uncle.  Each lemma states what
 * one case does to the red rule, to the black heights and to the root's
 * colour.
 */
module RbFixup {
  import opened RbShape

  /** The red rule holds everywhere except, possibly, between the top of `t` and its parent. */
  ghost predicate RedInv<T>(path: Path<T>, t: Tree<T>) {
    RedRule(t, false) && RedRuleCtx(path)
  }

  /** The fix-up reads the root's colour only while the current node is not the root. */
  ghost predicate RootInv<T>(path: Path<T>, t: Tree<T>) {
    path == [] || RootBlack(Plug(path, t))
  }

  /** The ancestors the loop climbs over are the parent and the grandparent. */
  lemma PlugTwo<T>(path: Path<T>, t: Tree<T>)
    requires |path| >= 2
    ensures Plug(path, t) == Plug(path[2..], Fill(path[1], Fill(path[0], t)))
  {
    assert path[1..][0] == path[1] && path[1..][1..] == path[2..];
  }

  // ---------------------------------------------------------------- red uncle

  /** Red uncle: the grandparent turns red, the parent and the uncle black. */
  ghost function RecolorShape<T>(path: Path<T>, t: Tree<T>): Tree<T>
    requires |path| >= 2 && path[1].sibling.Node?
  {
    var p := Fill(path[0].(color := Black), t);
    var u := path[1].sibling.(color := Black);
    match path[1]
    case LeftOf(g, _, gv, _) => Node(p, g, Red, gv, u)
    case RightOf(_, g, _, gv) => Node(u, g, Red, gv, p)
  }

  lemma RecolorKeeps<T>(path: Path<T>, t: Tree<T>)
    requires |path| >= 2 && t.Node? && t.color == Red && path[0].color == Red
    requires path[1].sibling.Node? && path[1].sibling.color == Red
    ensures RedInv(path, t) ==> RedInv(path[2..], RecolorShape(path, t))
    ensures RedInv(path, t) && BlackBalanced(Plug(path, t)) ==> BlackBalanced(Plug(path[2..], RecolorShape(path, t)))
    ensures RootInv(path, t) ==> RootInv(path[2..], RecolorShape(path, t))
  {
    var g := Fill(path[1], Fill(path[0], t));
    var t' := RecolorShape(path, t);
    PlugTwo(path, t);
    if RedInv(path, t) {
      GrandparentBlack(path, t);
      RecolorRed(path, t);
      if BlackBalanced(Plug(path, t)) {
        PlugBalanced(path[2..], g);
        RecolorBalanced(path, t);
        PlugBalanced(path[2..], t');
      }
    }
    if path[2..] != [] {
      PlugRootColor(path[2..], g, t');
    }
  }

  /** Under the red rule, the grandparent of a red node below a red parent is black. */
  lemma GrandparentBlack<T>(path: Path<T>, t: Tree<T>)
    requires |path| >= 2 && path[0].color == Red && RedInv(path, t)
    ensures path[1].color == Black && RedRuleCtx(path[2..])
    ensures RedRule(path[0].sibling, true) && RedRule(path[1].sibling, false)
    ensures !(path[1].color == Red && HoleParentRed(path[2..]))
  {
    assert RedRuleCtx(path[1..]);
    assert path[1..][0] == path[1] && path[1..][1..] == path[2..];
  }

  /** A black-topped tree whose children keep the red rule below a red parent keeps it. */
  lemma BlackTop<T>(l: Tree<T>, n: RBNode<T>, v: T, r: Tree<T>)
    requires RedRule(l, false) && RedRule(r, false)
    ensures RedRule(Node(l, n, Black, v, r), true)
  {
  }

  lemma RecolorRed<T>(path: Path<T>, t: Tree<T>)
    requires |path| >= 2 && t.Node? && path[0].color == Red
    requires path[1].sibling.Node? && path[1].sibling.color == Red
    requires RedRule(t, false) && path[1].color == Black && RedRuleCtx(path[2..])
    requires RedRule(path[0].sibling, true) && RedRule(path[1].sibling, false)
    ensures RedInv(path[2..], RecolorShape(path, t))
  {
    var f0 := path[0];
    var u := path[1].sibling;
    RedRuleWeaken(f0.sibling);
    RedRuleWeaken(u.left);
    RedRuleWeaken(u.right);
    var p' := Fill(f0.(color := Black), t);
    if f0.LeftOf? {
      BlackTop(t, f0.node, f0.value, f0.sibling);
    } else {
      BlackTop(f0.sibling, f0.node, f0.value, t);
    }
    assert RedRule(p', true);
    BlackTop(u.left, u.node, u.value, u.right);
    assert RedRule(u.(color := Black), true);
  }

  lemma RecolorBalanced<T>(path: Path<T>, t: Tree<T>)
    requires |path| >= 2 && t.Node? && path[0].color == Red && path[1].color == Black
    requires path[1].sibling.Node? && path[1].sibling.color == Red
    requires BlackBalanced(Fill(path[1], Fill(path[0], t)))
    ensures BlackBalanced(RecolorShape(path, t))
    ensures BlackHeight(RecolorShape(path, t)) == BlackHeight(Fill(path[1], Fill(path[0], t)))
  {
    var p := Fill(path[0], t);
    var u := path[1].sibling;
    assert BlackHeight(p) == BlackHeight(u);
    assert BlackHeight(p) == BlackHeight(p.left);
    assert BlackHeight(u) == BlackHeight(u.left);
  }

  // ---------------------------------------------------------------- black uncle, outer child

  /** The current node is on the same side of its parent as the parent of the grandparent. */
  ghost predicate Outer<T>(path: Path<T>)
    requires |path| >= 2
  {
    (path[0].LeftOf? && path[1].LeftOf?) || (path[0].RightOf? && path[1].RightOf?)
  }

  /**
   * Black uncle, outer child: a rotation at the grandparent lifts the parent,
   * and the parent and the grandparent swap colours.
   */
  ghost function RotateOutShape<T>(path: Path<T>, t: Tree<T>): Tree<T>
    requires |path| >= 2 && Outer(path)
  {
    match path[1]
    case LeftOf(g, gc, gv, s1) =>
      Node(t, path[0].node, gc, path[0].value, Node(path[0].sibling, g, path[0].color, gv, s1))
    case RightOf(s1, g, gc, gv) =>
      Node(Node(s1, g, path[0].color, gv, path[0].sibling), path[0].node, gc, path[0].value, t)
  }

  lemma RotateOutKeeps<T>(path: Path<T>, t: Tree<T>)
    requires |path| >= 2 && Outer(path) && t.Node? && t.color == Red && path[0].color == Red
    requires !(path[1].sibling.Node? && path[1].sibling.color == Red)
    ensures RedInv(path, t) ==> RedInv(path[2..], RotateOutShape(path, t))
    ensures BlackBalanced(Plug(path, t)) ==> BlackBalanced(Plug(path[2..], RotateOutShape(path, t)))
    ensures RootInv(path, t) ==> RootInv(path[2..], RotateOutShape(path, t))
    ensures path[2..] == [] ==> RootInv(path, t) ==> RootBlack(RotateOutShape(path, t))
  {
    var g := Fill(path[1], Fill(path[0], t));
    var t' := RotateOutShape(path, t);
    PlugTwo(path, t);
    if RedInv(path, t) {
      GrandparentBlack(path, t);
      RotateOutRed(path, t);
    }
    if BlackBalanced(Plug(path, t)) {
      PlugBalanced(path[2..], g);
      RotateOutBalanced(path, t);
      PlugBalanced(path[2..], t');
    }
    if path[2..] != [] {
      PlugRootColor(path[2..], g, t');
    } else if RootInv(path, t) {
      PlugRootIsLast(path, t);
    }
  }

  lemma RotateOutRed<T>(path: Path<T>, t: Tree<T>)
    requires |path| >= 2 && Outer(path) && t.Node? && path[0].color == Red
    requires !(path[1].sibling.Node? && path[1].sibling.color == Red)
    requires RedRule(t, false) && path[1].color == Black && RedRuleCtx(path[2..])
    requires RedRule(path[0].sibling, true) && RedRule(path[1].sibling, false)
    ensures RedInv(path[2..], RotateOutShape(path, t))
  {
    var f0, f1 := path[0], path[1];
    assert RedRule(f1.sibling, true);
    if f1.LeftOf? {
      assert RedRule(Node(f0.sibling, f1.node, Red, f1.value, f1.sibling), false);
    } else {
      assert RedRule(Node(f1.sibling, f1.node, Red, f1.value, f0.sibling), false);
    }
  }

  lemma RotateOutBalanced<T>(path: Path<T>, t: Tree<T>)
    requires |path| >= 2 && Outer(path) && t.Node? && path[0].color == Red
    requires BlackBalanced(Fill(path[1], Fill(path[0], t)))
    ensures BlackBalanced(RotateOutShape(path, t))
    ensures BlackHeight(RotateOutShape(path, t)) == BlackHeight(Fill(path[1], Fill(path[0], t)))
  {
    var p := Fill(path[0], t);
    assert BlackHeight(p) == BlackHeight(p.left);
    assert BlackHeight(p.left) == BlackHeight(p.right);
    assert BlackHeight(p) == BlackHeight(path[1].sibling);
  }

  // ---------------------------------------------------------------- black uncle, inner child

  /**
   * Black uncle, inner child: a rotation at the parent makes the old parent
   * the outer child of the current node.  The new current node is the old
   * parent; its path starts at the old current node.
   */
  ghost function AlignPath<T>(path: Path<T>, t: Tree<T>): Path<T>
    requires |path| >= 2 && t.Node?
  {
    if path[0].RightOf? then [LeftOf(t.node, t.color, t.value, t.right)] + path[1..]
    else [RightOf(t.left, t.node, t.color, t.value)] + path[1..]
  }

  ghost function AlignTree<T>(path: Path<T>, t: Tree<T>): Tree<T>
    requires |path| >= 2 && t.Node?
  {
    match path[0]
    case RightOf(s0, p, pc, pv) => Node(s0, p, pc, pv, t.left)
    case LeftOf(p, pc, pv, s0) => Node(t.right, p, pc, pv, s0)
  }

  lemma AlignKeeps<T>(path: Path<T>, t: Tree<T>)
    requires |path| >= 2 && !Outer(path) && t.Node? && t.color == Red && path[0].color == Red
    ensures var path', t' := AlignPath(path, t), AlignTree(path, t);
      && |path'| == |path| && Outer(path') && path'[1..] == path[1..]
      && t'.Node? && t'.node == path[0].node && t'.color == Red && path'[0].color == Red
      && path'[0].node == t.node
      && Plug(path', t') == Plug(path[1..], if path[0].RightOf? then RotateLeftShape(Fill(path[0], t)) else RotateRightShape(Fill(path[0], t)))
      && (RedInv(path, t) ==> RedInv(path', t'))
      && (BlackBalanced(Plug(path, t)) ==> BlackBalanced(Plug(path', t')))
      && (RootInv(path, t) ==> RootInv(path', t'))
  {
    var path', t' := AlignPath(path, t), AlignTree(path, t);
    var s := Fill(path[0], t);
    var s' := if path[0].RightOf? then RotateLeftShape(s) else RotateRightShape(s);
    PlugCons(path'[0], path[1..], t');
    assert ([path'[0]] + path[1..]) == path';
    assert path[1..][0] == path[1];
    assert Plug(path, t) == Plug(path[1..], s);
    if RedInv(path, t) {
      assert RedRuleCtx(path[1..]);
      assert path[1].color == Black;
      assert RedRule(path[0].sibling, true);
      assert RedRule(t', false);
    }
    if BlackBalanced(Plug(path, t)) {
      PlugBalanced(path[1..], s);
      PlugBalanced(path[1..], s');
    }
    PlugRootColor(path[1..], s, s');
  }

  // ---------------------------------------------------------------- the end of the loop

  /** When the loop stops, the red rule holds on the whole tree. */
  lemma StopKeeps<T>(path: Path<T>, t: Tree<T>)
    requires t.Node? && RedInv(path, t)
    requires path == [] || t.color == Black || path[0].color == Black
    ensures RedRule(Plug(path, t), false)
  {
    PlugRedRule(path, t);
  }

  /** _root->color = false keeps both colour rules. */
  lemma BlackenRoot<T>(t: Tree<T>)
    requires t.Node?
    ensures RootBlack(t.(color := Black))
    ensures RedRule(t, false) ==> RedRule(t.(color := Black), false)
    ensures BlackBalanced(t) ==> BlackBalanced(t.(color := Black))
  {
    if RedRule(t, false) {
      if t.color == Red {
        RedRuleWeaken(t.left);
        RedRuleWeaken(t.right);
      }
    }
  }
}
