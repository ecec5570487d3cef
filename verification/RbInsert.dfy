/** Rebalancing after an insertion (util/rbtree.c): the loop of __rb_insert. */
module RbInsert {
  import opened RbTreeShape
  import opened RbRotate

  /** Case 2: rotate at the parent, towards side `d`, when `node` hangs on the inner side. */
  method InsertCase2(d: Side, node: Node, parent: Node, ghost s: Tree, ghost x: Tree, ghost y: Tree)
    requires node != parent && Uniq(x) && BlackRoot(x)
    requires parent !in Nodes(s) && parent !in Nodes(x) && parent !in Nodes(y)
    requires node !in Nodes(s) && node !in Nodes(x) && node !in Nodes(y)
    requires Nodes(x) !! Nodes(s) && Nodes(x) !! Nodes(y)
    requires Rep(s, parent.Child(d), parent) && Rep(x, node.Child(d), node) && Rep(y, node.Child(Other(d)), node)
    modifies parent, node, Nodes(x)
    ensures Rep(Mk(d, s, parent, false, x), parent, node) && node.Child(d) == parent
    ensures Rep(y, node.Child(Other(d)), node) && node.parent == old(node.parent)
  {
    hide Nodes, Uniq;
    var tmp := node.Child(d);
    RepRoot(x, tmp, node);
    NodesAllocated(s);
    NodesAllocated(y);
    NodesAllocated(x);
    parent.SetChild(Other(d), tmp);
    node.SetChild(d, parent);
    Reparent(tmp, parent, true, x, node);
    parent.parent, parent.black := node, false;
  }

  /** The tree after the rotations of cases 2 and 3. */
  function Rotated(c: Ctx, t: Tree): Tree
    requires t.Fork? && c.In? && c.up.In?
  {
    var d := c.up.d;
    if c.d == d then Mk(d, t, c.node, true, Mk(d, c.sib, c.up.node, false, c.up.sib))
    else Mk(d, Mk(d, c.sib, c.node, false, Sub(t, d)), t.node, true,
               Mk(d, Sub(t, Other(d)), c.up.node, false, c.up.sib))
  }

  /** The two levels above `t`, folded into a tree. */
  function Grand(c: Ctx, t: Tree): Tree
    requires c.In? && c.up.In?
  {
    Mk(c.up.d, Mk(c.d, t, c.node, c.black, c.sib), c.up.node, c.up.black, c.up.sib)
  }

  lemma GrandApart(c: Ctx, t: Tree)
    requires c.In? && c.up.In?
    ensures Apart(c, t) <==> Apart(c.up.up, Grand(c, t))
    ensures Nodes(t) + CNodes(c) == Nodes(Grand(c, t)) + CNodes(c.up.up)
  {
    hide Nodes, CNodes, Uniq, CUniq;
    ApartUp(c.d, c.node, c.black, c.sib, c.up, t);
    ApartUp(c.up.d, c.up.node, c.up.black, c.up.sib, c.up.up, Mk(c.d, t, c.node, c.black, c.sib));
  }

  lemma RotatedSame(c: Ctx, t: Tree)
    requires t.Fork? && c.In? && c.up.In?
    ensures Same(Grand(c, t), Rotated(c, t))
  {
    hide Nodes, Inorder, Uniq;
    var d := c.up.d;
    if c.d == d {
      Rotation(d, t, c.node, c.sib, c.up.node, c.up.sib, c.black, c.up.black, true, false);
    } else {
      var x, y := Sub(t, d), Sub(t, Other(d));
      var inner := Mk(d, Mk(d, c.sib, c.node, false, x), t.node, t.black, y);
      Rotation(d, c.sib, c.node, x, t.node, y, false, t.black, c.black, t.black);
      SameUnder(d, inner, Mk(c.d, t, c.node, c.black, c.sib), c.up.node, c.up.black, c.up.black, c.up.sib);
      Rotation(d, Mk(d, c.sib, c.node, false, x), t.node, y, c.up.node, c.up.sib, t.black, c.up.black, true, false);
    }
  }

  method InsertOuter(parent: Node, gparent: Node, root: Root, ghost c: Ctx, ghost t: Tree, d: Side)
    requires c.In? && c.up.In? && t.Fork? && Focus(c, t, root, t.node, parent)
    requires !c.black && BlackRoot(c.sib) && c.up.black && c.d == c.up.d == d && gparent == c.up.node
    requires Apart(c.up.up, Rotated(c, t))
    modifies root, parent, gparent, Nodes(c.sib), CNodes(c.up.up)
    ensures var r := Rotated(c, t); Focus(c.up.up, r, root, parent, parent.parent)
  {
    Apart3Of(d, parent, gparent, t, c.sib, c.up.sib, c.up.up, true, false);
    CRepUp(c, root, t.node, parent);
    CRepUp(c.up, root, parent, parent.parent);
    hide Nodes, CNodes, Uniq, CUniq, CRep;
    Rotate(d, parent, gparent, root, false, true, t, c.sib, c.up.sib, c.up.up);
  }

  method InsertInner(node: Node, parent: Node, gparent: Node, root: Root, ghost c: Ctx, ghost t: Tree, d: Side)
    requires c.In? && c.up.In? && t.Fork? && Focus(c, t, root, node, parent)
    requires BlackRoot(t.left) && BlackRoot(t.right)
    requires c.up.black && c.d != c.up.d == d && gparent == c.up.node
    requires Apart(c.up.up, Rotated(c, t))
    modifies root, node, parent, gparent, Nodes(t), CNodes(c.up.up)
    ensures var r := Rotated(c, t); Focus(c.up.up, r, root, node, node.parent)
  {
    ghost var x, y := Sub(t, d), Sub(t, Other(d));
    ghost var near := Mk(d, c.sib, c.node, false, x);
    Apart3Of(d, node, gparent, near, y, c.up.sib, c.up.up, true, false);
    CRepUp(c, root, node, parent);
    CRepUp(c.up, root, parent, parent.parent);
    assert Uniq(x) && Nodes(t) == Nodes(x) + {node} + Nodes(y);
    assert Nodes(near) == Nodes(c.sib) + {parent} + Nodes(x);
    assert Nodes(x) !! Nodes(y) && node !in Nodes(x) && node !in Nodes(y);
    hide Nodes, CNodes, Uniq, CUniq, CRep, Rep;
    NodesAllocated(c.up.sib);
    CNodesAllocated(c.up.up);
    InsertCase2(d, node, parent, c.sib, x, y);
    Rotate(d, node, gparent, root, false, true, near, y, c.up.sib, c.up.up);
  }

  /** The tree after the colour flip of case 1. */
  function Flipped(c: Ctx, t: Tree): Tree
    requires t.Fork? && c.In? && c.up.In? && c.up.sib.Fork?
  {
    Mk(c.up.d, Mk(c.d, t, c.node, true, c.sib), c.up.node, false, c.up.sib.(black := true))
  }

  lemma FlippedSame(c: Ctx, t: Tree)
    requires t.Fork? && c.In? && c.up.In? && c.up.sib.Fork?
    ensures Same(Grand(c, t), Flipped(c, t))
  {
    var p, q := Mk(c.d, t, c.node, c.black, c.sib), Mk(c.d, t, c.node, true, c.sib);
    var u, w := c.up.sib, c.up.sib.(black := true);
    assert Same(p, q) && Same(u, w);
    SameUnder(c.up.d, p, q, c.up.node, c.up.black, false, u);
    SameUnder(Other(c.up.d), u, w, c.up.node, false, false, q);
  }

  /** `x` occurs in none of the five pieces around a colour flip. */
  predicate OutsideFlip(x: Node, t: Tree, s: Tree, ul: Tree, ur: Tree, up: Ctx) {
    x !in Nodes(t) && x !in Nodes(s) && x !in Nodes(ul) && x !in Nodes(ur) && x !in CNodes(up)
  }

  lemma FlipApart(c: Ctx, t: Tree)
    requires c.In? && c.up.In? && c.up.sib.Fork? && Apart(c, t)
    ensures var u := c.up.sib;
            OutsideFlip(c.node, t, c.sib, u.left, u.right, c.up.up) &&
            OutsideFlip(c.up.node, t, c.sib, u.left, u.right, c.up.up) &&
            OutsideFlip(u.node, t, c.sib, u.left, u.right, c.up.up)
    ensures c.node != c.up.node && c.node != c.up.sib.node && c.up.node != c.up.sib.node
  {
    assert CNodes(c) == {c.node} + Nodes(c.sib) + CNodes(c.up);
    assert CNodes(c.up) == {c.up.node} + Nodes(c.up.sib) + CNodes(c.up.up);
    assert CUniq(c.up) && Uniq(c.up.sib) && c.node !in CNodes(c.up) && Nodes(c.sib) !! CNodes(c.up);
    assert Nodes(c.up.sib) == Nodes(c.up.sib.left) + {c.up.sib.node} + Nodes(c.up.sib.right);
  }

  /** Case 1: push the grandparent's black onto its children. */
  method InsertFlip(parent: Node, gparent: Node, tmp: Node, root: Root, ghost c: Ctx, ghost t: Tree)
    requires c.In? && c.up.In? && t.Fork? && Focus(c, t, root, t.node, parent)
    requires c.up.sib.Fork? && gparent == c.up.node && tmp == c.up.sib.node
    modifies parent, gparent, tmp
    ensures Rep(Flipped(c, t), gparent, gparent.parent) && CRep(c.up.up, root, gparent, gparent.parent)
    ensures gparent.parent == old(gparent.parent)
  {
    FlipApart(c, t);
    CRepUp(c, root, t.node, parent);
    CRepUp(c.up, root, parent, parent.parent);
    RepFork(c.up.sib, tmp, gparent);
    hide Nodes, CNodes, Uniq, CUniq, CRep, Rep, OutsideFlip;
    FlipLinks(parent, gparent, tmp, root, c.d, c.up.d, t, c.sib, c.up.sib.left, c.up.sib.right, c.up.up);
    RepMk(Left, c.up.sib.left, tmp, true, c.up.sib.right);
    RepMk(c.d, t, parent, true, c.sib);
    RepMk(c.up.d, Mk(c.d, t, parent, true, c.sib), gparent, false, c.up.sib.(black := true));
  }

  method FlipLinks(parent: Node, gparent: Node, tmp: Node, root: Root, ghost e: Side, ghost d: Side,
                   ghost t: Tree, ghost s: Tree, ghost ul: Tree, ghost ur: Tree, ghost up: Ctx)
    requires parent != gparent && parent != tmp && gparent != tmp
    requires OutsideFlip(parent, t, s, ul, ur, up) && OutsideFlip(gparent, t, s, ul, ur, up)
    requires OutsideFlip(tmp, t, s, ul, ur, up)
    requires Rep(t, parent.Child(e), parent) && Rep(s, parent.Child(Other(e)), parent)
    requires Rep(ul, tmp.left, tmp) && Rep(ur, tmp.right, tmp) && CRep(up, root, gparent, gparent.parent)
    modifies parent, gparent, tmp
    ensures Rep(t, parent.Child(e), parent) && Rep(s, parent.Child(Other(e)), parent)
    ensures Rep(ul, tmp.left, tmp) && Rep(ur, tmp.right, tmp) && CRep(up, root, gparent, gparent.parent)
    ensures parent.Child(e) == old(parent.Child(e)) && parent.Child(Other(e)) == old(parent.Child(Other(e)))
    ensures gparent.Child(d) == old(gparent.Child(d)) && gparent.Child(Other(d)) == old(gparent.Child(Other(d)))
    ensures tmp.left == old(tmp.left) && tmp.right == old(tmp.right) && gparent.parent == old(gparent.parent)
    ensures tmp.parent == parent.parent == gparent && tmp.black && parent.black && !gparent.black
  {
    hide Nodes, CNodes, CRep, Rep;
    tmp.parent, tmp.black := gparent, true;
    parent.parent, parent.black := gparent, true;
    gparent.black := false;
  }

  lemma RotatedRedBlack(c: Ctx, t: Tree, h: int)
    requires t.Fork? && !t.black && RedBlack(t, h) && CtxRedBlack(c, h) && c.In? && !c.black
    requires c.up.In? && BlackRoot(c.up.sib)
    ensures RedBlack(Rotated(c, t), h + 1) && BlackRoot(Rotated(c, t)) && CtxRedBlack(c.up.up, h + 1)
  { }

  lemma FlippedRedBlack(c: Ctx, t: Tree, h: int)
    requires t.Fork? && !t.black && RedBlack(t, h) && CtxRedBlack(c, h) && c.In? && !c.black
    requires c.up.sib.Fork? && !c.up.sib.black
    ensures RedBlack(Flipped(c, t), h + 1) && CtxRedBlack(c.up.up, h + 1)
  { }

  lemma BlackAbove(c: Ctx, root: Root, n: Node?, p: Node)
    requires CRep(c, root, n, p) && p.black
    ensures BlackTop(c)
  { }

  lemma GrandRedBlack(c: Ctx, h: int)
    requires c.In? && !c.black && CtxRedBlack(c, h)
    ensures c.up.In? && c.up.black && BlackRoot(c.sib)
  { }

  /** One turn of the loop for a red parent whose uncle is red. */
  method FlipStep(node: Node, parent: Node, gparent: Node, tmp: Node, root: Root,
                  ghost c: Ctx, ghost t: Tree, ghost h: int)
    requires Focus(c, t, root, node, parent) && t.Fork? && !t.black && RedBlack(t, h) && CtxRedBlack(c, h)
    requires c.In? && !c.black && c.up.In? && gparent == c.up.node
    requires c.up.sib.Fork? && !c.up.sib.black && tmp == c.up.sib.node
    modifies parent, gparent, tmp
    ensures var r := Flipped(c, t);
            Focus(c.up.up, r, root, gparent, gparent.parent) &&
            RedBlack(r, h + 1) && CtxRedBlack(c.up.up, h + 1) &&
            Nodes(r) + CNodes(c.up.up) == Nodes(t) + CNodes(c) &&
            Inorder(Plug(c.up.up, r)) == Inorder(Plug(c, t))
    ensures gparent.parent == old(gparent.parent)
  {
    GrandApart(c, t);
    FlippedSame(c, t);
    FlippedRedBlack(c, t, h);
    PlugGrand(c, t);
    PlugSame(c.up.up, Grand(c, t), Flipped(c, t));
    InsertFlip(parent, gparent, tmp, root, c, t);
  }

  lemma PlugGrand(c: Ctx, t: Tree)
    requires c.In? && c.up.In?
    ensures Plug(c.up.up, Grand(c, t)) == Plug(c, t)
  { }

  /** The last turn: a red parent whose uncle is black or missing. */
  method RotateStep(node: Node, parent: Node, gparent: Node, root: Root, d: Side,
                    ghost c: Ctx, ghost t: Tree, ghost h: int) returns (ghost r: Tree)
    requires Focus(c, t, root, node, parent) && t.Fork? && !t.black && RedBlack(t, h) && CtxRedBlack(c, h)
    requires c.In? && !c.black && c.up.In? && gparent == c.up.node && d == c.up.d
    requires BlackRoot(c.up.sib)
    modifies root, Nodes(t), CNodes(c)
    ensures Linked(r, root) && Nodes(r) == Nodes(t) + CNodes(c) && Inorder(r) == Inorder(Plug(c, t))
  {
    GrandApart(c, t);
    RotatedSame(c, t);
    RotatedRedBlack(c, t, h);
    GrandRedBlack(c, h);
    PlugGrand(c, t);
    PlugSame(c.up.up, Grand(c, t), Rotated(c, t));
    PlugBalanced(c.up.up, Rotated(c, t), h + 1);
    r := Plug(c.up.up, Rotated(c, t));
    if node == parent.Child(Other(d)) {
      RepRoot(c.sib, parent.Child(Other(c.d)), parent);
      InsertInner(node, parent, gparent, root, c, t, d);
      Close(c.up.up, Rotated(c, t), root, node, node.parent);
    } else {
      InsertOuter(parent, gparent, root, c, t, d);
      Close(c.up.up, Rotated(c, t), root, parent, parent.parent);
    }
  }

  /** A red root is painted black. */
  method RootStep(node: Node, root: Root, ghost t: Tree, ghost h: int) returns (ghost r: Tree)
    requires Focus(Top, t, root, node, null) && t.Fork? && !t.black && RedBlack(t, h)
    modifies node
    ensures Linked(r, root) && Nodes(r) == Nodes(t) && Inorder(r) == Inorder(t)
  {
    node.parent, node.black := null, true;
    r := t.(black := true);
    assert RedBlack(r, h + 1);
  }

  /** What the loop reads before choosing a case. */
  lemma LookUp(c: Ctx, t: Tree, root: Root, node: Node, parent: Node, h: int)
    requires Focus(c, t, root, node, parent) && CtxRedBlack(c, h) && !parent.black
    ensures c.In? && !c.black && c.up.In? && c.up.black && parent.parent == c.up.node
    ensures c.up.d == if parent == parent.parent.right then Right else Left
    ensures var tmp := parent.parent.Child(Other(c.up.d));
            (tmp != null <==> c.up.sib.Fork?) &&
            (tmp != null ==> tmp == c.up.sib.node && tmp.black == c.up.sib.black)
    ensures {parent, parent.parent} + Nodes(c.up.sib) <= CNodes(c)
  {
    GrandRedBlack(c, h);
    CRepUp(c, root, node, parent);
    CRepUp(c.up, root, parent, parent.parent);
    RepRoot(c.up.sib, parent.parent.Child(Other(c.up.d)), parent.parent);
  }

  /** One turn of the loop below a red parent on side `d` of `gparent`. */
  method InsertTurn(d: Side, node: Node, parent: Node, gparent: Node, tmp: Node?, root: Root,
                    ghost c: Ctx, ghost t: Tree, ghost h: int) returns (again: bool, ghost r: Tree)
    requires Focus(c, t, root, node, parent) && t.Fork? && !t.black && RedBlack(t, h) && CtxRedBlack(c, h)
    requires c.In? && !c.black && c.up.In? && gparent == c.up.node && d == c.up.d
    requires tmp == gparent.Child(Other(d))
    modifies root, Nodes(t), CNodes(c)
    ensures again ==>
              Focus(c.up.up, r, root, gparent, gparent.parent) && r.Fork? && !r.black &&
              RedBlack(r, h + 1) && CtxRedBlack(c.up.up, h + 1) &&
              Nodes(r) + CNodes(c.up.up) == Nodes(t) + CNodes(c) && Inorder(Plug(c.up.up, r)) == Inorder(Plug(c, t))
    ensures !again ==> Linked(r, root) && Nodes(r) == Nodes(t) + CNodes(c) && Inorder(r) == Inorder(Plug(c, t))
  {
    CRepUp(c, root, node, parent);
    LookUp(c, t, root, node, parent, h);
    hide Rep, CRep, Nodes, CNodes, Uniq, CUniq, Inorder, RedBlack, CtxRedBlack, Plug, Balanced;
    if tmp != null && !tmp.black {
      again := true;
      r := Flipped(c, t);
      FlipStep(node, parent, gparent, tmp, root, c, t, h);
    } else {
      again := false;
      r := RotateStep(node, parent, gparent, root, d, c, t, h);
    }
  }

  lemma UncleChild(d: Side, x: Node)
    ensures x.Child(Other(d)) == if d == Left then x.right else x.left
  { }

  lemma LeafStart(c: Ctx, leaf: Node)
    ensures var t := Fork(Leaf, leaf, false, Leaf);
            RedBlack(t, 0) && Nodes(t) + CNodes(c) == {leaf} + CNodes(c) &&
            Inorder(Plug(c, t)) == Before(c) + [leaf] + After(c)
  {
    var t := Fork(Leaf, leaf, false, Leaf);
    PlugInorder(c, t);
    assert Inorder(t) == [leaf];
  }

  /** rb_insert_color: from a red-black tree in which `leaf` has just been linked red as a
      leaf, the loop restores every colour rule without changing the order.  Each flip
      moves the violation two levels up, so it ends. */
  method InsertColor(leaf: Node, root: Root, ghost c0: Ctx) returns (ghost r: Tree)
    requires Focus(c0, Fork(Leaf, leaf, false, Leaf), root, leaf, leaf.parent)
    requires CtxRedBlack(c0, 0)
    modifies root, leaf, CNodes(c0)
    ensures Linked(r, root) && Nodes(r) == {leaf} + CNodes(c0)
    ensures Inorder(r) == Before(c0) + [leaf] + After(c0)
  {
    var node, parent := leaf, leaf.parent;
    ghost var c, t, h := c0, Fork(Leaf, leaf, false, Leaf), 0;
    ghost var all, order := Nodes(t) + CNodes(c), Inorder(Plug(c, t));
    LeafStart(c, leaf);
    hide *;
    while true
      invariant Focus(c, t, root, node, parent) && t.Fork? && !t.black
      invariant RedBlack(t, h) && CtxRedBlack(c, h)
      invariant Nodes(t) + CNodes(c) == all && Inorder(Plug(c, t)) == order
      decreases c
    {
      CRepParent(c, root, node, parent);
      if parent == null {
        r := RootStep(node, root, t, h);
        return;
      } else if parent.black {
        BlackAbove(c, root, node, parent);
        PlugBalanced(c, t, h);
        Close(c, t, root, node, parent);
        r := Plug(c, t);
        return;
      }
      LookUp(c, t, root, node, parent, h);
      UncleChild(c.up.d, parent.parent);
      var gparent := parent.parent;
      var again;
      if parent != gparent.right {
        again, r := InsertTurn(Left, node, parent, gparent, gparent.right, root, c, t, h);
      } else {
        again, r := InsertTurn(Right, node, parent, gparent, gparent.left, root, c, t, h);
      }
      if !again { return; }
      c, t, h := c.up.up, r, h + 1;
      node, parent := gparent, gparent.parent;
    }
  }
}
