/** Rebalancing after an erase (util/rbtree.c): the loop of ____rb_erase_color.  The hole
    `t` is one black short; its parent `p` and sibling are the top frame of the context. */
module RbEraseColor {
  import opened RbTreeShape
  import opened RbRotate

  /** The parent with both its subtrees, folded into a tree. */
  function Folded(c: Ctx, t: Tree): Tree
    requires c.In?
  {
    Mk(c.d, t, c.node, c.black, c.sib)
  }

  /** Case 1: the red sibling has become the grandparent of the hole. */
  function Lowered(c: Ctx): Ctx
    requires c.In? && c.sib.Fork?
  {
    In(c.d, c.node, false, Sub(c.sib, c.d), In(c.d, c.sib.node, c.black, Sub(c.sib, Other(c.d)), c.up))
  }

  /** Case 2: the sibling has turned red; the parent ends up `black` either way. */
  function Reddened(c: Ctx, t: Tree): Tree
    requires c.In? && c.sib.Fork?
  {
    Mk(c.d, t, c.node, true, c.sib.(black := false))
  }

  /** Case 4: the far nephew was red. */
  function FarFixed(c: Ctx, t: Tree): Tree
    requires c.In? && c.sib.Fork? && Sub(c.sib, Other(c.d)).Fork?
  {
    var d := c.d;
    Mk(d, Mk(d, t, c.node, true, Sub(c.sib, d)), c.sib.node, c.black, Sub(c.sib, Other(d)).(black := true))
  }

  /** Cases 3 and 4: only the near nephew was red. */
  function NearFixed(c: Ctx, t: Tree): Tree
    requires c.In? && c.sib.Fork? && Sub(c.sib, c.d).Fork?
  {
    var d := c.d;
    var m := Sub(c.sib, d);
    Mk(d, Mk(d, t, c.node, true, Sub(m, d)), m.node, c.black,
          Mk(d, Sub(m, Other(d)), c.sib.node, true, Sub(c.sib, Other(d))))
  }

  // --------------------------------------------------- order and colours kept

  lemma SubMk(t: Tree, d: Side)
    requires t.Fork?
    ensures Mk(d, Sub(t, d), t.node, t.black, Sub(t, Other(d))) == t
  { }

  lemma LoweredSame(c: Ctx, t: Tree)
    requires c.In? && c.sib.Fork?
    ensures Same(Folded(c, t), Folded(Lowered(c).up, Folded(Lowered(c), t)))
  {
    var sl, sr := Sub(c.sib, c.d), Sub(c.sib, Other(c.d));
    SubMk(c.sib, c.d);
    Rotation(c.d, t, c.node, sl, c.sib.node, sr, false, c.black, c.black, c.sib.black);
  }

  lemma LoweredApart(c: Ctx, t: Tree)
    requires c.In? && c.sib.Fork?
    ensures Apart(c, t) <==> Apart(Lowered(c), t)
    ensures Nodes(t) + CNodes(c) == Nodes(t) + CNodes(Lowered(c))
    ensures Inorder(Plug(c, t)) == Inorder(Plug(Lowered(c), t))
  {
    var l := Lowered(c);
    var g := Folded(l.up, Folded(l, t));
    LoweredSame(c, t);
    ApartUp(c.d, c.node, c.black, c.sib, c.up, t);
    ApartUp(l.d, l.node, l.black, l.sib, l.up, t);
    ApartUp(l.up.d, l.up.node, l.up.black, l.up.sib, l.up.up, Folded(l, t));
    PlugInorder(c.up, Folded(c, t));
    PlugInorder(c.up, g);
  }

  lemma ReddenedSame(c: Ctx, t: Tree)
    requires c.In? && c.sib.Fork?
    ensures Same(Folded(c, t), Reddened(c, t))
  {
    assert Same(c.sib, c.sib.(black := false));
    SameUnder(Other(c.d), c.sib, c.sib.(black := false), c.node, c.black, true, t);
  }

  lemma FarFixedSame(c: Ctx, t: Tree)
    requires c.In? && c.sib.Fork? && Sub(c.sib, Other(c.d)).Fork?
    ensures Same(Folded(c, t), FarFixed(c, t))
  {
    var d := c.d;
    var sl, sr := Sub(c.sib, d), Sub(c.sib, Other(d));
    SubMk(c.sib, d);
    var p := Mk(d, t, c.node, true, sl);
    Rotation(d, t, c.node, sl, c.sib.node, sr, true, c.black, c.black, c.sib.black);
    assert Same(sr, sr.(black := true));
    SameUnder(Other(d), sr, sr.(black := true), c.sib.node, c.black, c.black, p);
  }

  lemma NearFixedSame(c: Ctx, t: Tree)
    requires c.In? && c.sib.Fork? && Sub(c.sib, c.d).Fork?
    ensures Same(Folded(c, t), NearFixed(c, t))
  {
    var d := c.d;
    var m, sr := Sub(c.sib, d), Sub(c.sib, Other(d));
    var a, b := Sub(m, d), Sub(m, Other(d));
    SubMk(c.sib, d);
    SubMk(m, d);
    var x := Mk(d, b, c.sib.node, true, sr);
    Rotation(d, a, m.node, b, c.sib.node, sr, m.black, c.sib.black, m.black, true);
    SameUnder(Other(d), c.sib, Mk(d, a, m.node, m.black, x), c.node, c.black, c.black, t);
    Rotation(d, t, c.node, a, m.node, x, true, c.black, c.black, m.black);
  }

  lemma {:induction false} HeightNat(t: Tree, h: int)
    requires RedBlack(t, h)
    ensures 0 <= h && (t.Leaf? ==> h == 0)
  {
    if t.Fork? { HeightNat(t.left, if t.black then h - 1 else h); }
  }

  lemma LoweredRedBlack(c: Ctx, h: int)
    requires c.In? && c.sib.Fork? && !c.sib.black && CtxRedBlack(c, h + 1) && 0 <= h
    ensures c.black && CtxRedBlack(Lowered(c), h + 1) && Lowered(c).sib.Fork? && Lowered(c).sib.black
  {
    var sl := Sub(c.sib, c.d);
    assert RedBlack(sl, h + 1) && BlackRoot(sl);
  }

  lemma ReddenedRedBlack(c: Ctx, t: Tree, h: int)
    requires c.In? && c.sib.Fork? && c.sib.black && CtxRedBlack(c, h + 1) && RedBlack(t, h) && BlackRoot(t)
    requires BlackRoot(c.sib.left) && BlackRoot(c.sib.right)
    ensures RedBlack(Reddened(c, t), h + 1) && BlackRoot(Reddened(c, t))
    ensures CtxRedBlack(c.up, if c.black then h + 2 else h + 1)
  {
    assert RedBlack(c.sib.(black := false), h);
  }

  lemma FarFixedRedBlack(c: Ctx, t: Tree, h: int)
    requires c.In? && c.sib.Fork? && c.sib.black && CtxRedBlack(c, h + 1) && RedBlack(t, h) && BlackRoot(t)
    requires var sr := Sub(c.sib, Other(c.d)); sr.Fork? && !sr.black
    ensures Balanced(Plug(c.up, FarFixed(c, t)))
  {
    var d := c.d;
    var sl, sr := Sub(c.sib, d), Sub(c.sib, Other(d));
    assert RedBlack(sl, h) && RedBlack(sr, h);
    assert RedBlack(sr.(black := true), h + 1);
    assert RedBlack(Mk(d, t, c.node, true, sl), h + 1);
    PlugBalanced(c.up, FarFixed(c, t), if c.black then h + 2 else h + 1);
  }

  lemma NearFixedRedBlack(c: Ctx, t: Tree, h: int)
    requires c.In? && c.sib.Fork? && c.sib.black && CtxRedBlack(c, h + 1) && RedBlack(t, h) && BlackRoot(t)
    requires var sl := Sub(c.sib, c.d); sl.Fork? && !sl.black
    requires BlackRoot(Sub(c.sib, Other(c.d)))
    ensures Balanced(Plug(c.up, NearFixed(c, t)))
  {
    var d := c.d;
    var m, sr := Sub(c.sib, d), Sub(c.sib, Other(d));
    assert RedBlack(m, h) && RedBlack(sr, h);
    assert RedBlack(Mk(d, Sub(m, Other(d)), c.sib.node, true, sr), h + 1);
    assert RedBlack(Mk(d, t, c.node, true, Sub(m, d)), h + 1);
    PlugBalanced(c.up, NearFixed(c, t), if c.black then h + 2 else h + 1);
  }

  // ------------------------------------------------------- the steps in memory

  /** Case 1: rotate the red sibling above the parent. */
  method EraseLower(d: Side, node: Node?, parent: Node, sibling: Node, root: Root, ghost c: Ctx, ghost t: Tree)
    requires Focus(c, t, root, node, parent) && c.In? && d == c.d
    requires c.sib.Fork? && sibling == c.sib.node && c.black && BlackRoot(Sub(c.sib, d))
    modifies root, parent, sibling, Nodes(Sub(c.sib, d)), CNodes(c.up)
    ensures Focus(Lowered(c), t, root, node, parent)
  {
    ghost var sl, sr := Sub(c.sib, d), Sub(c.sib, Other(d));
    LoweredApart(c, t);
    ApartUp(d, c.node, false, sl, Lowered(c).up, t);
    ApartUp(d, sibling, c.black, sr, c.up, Mk(d, t, parent, false, sl));
    Apart3Of(Other(d), sibling, parent, sr, sl, t, c.up, true, false);
    CRepUp(c, root, node, parent);
    RepFork(c.sib, sibling, parent);
    RepRoot(t, node, parent);
    hide Rep, CRep, Nodes, CNodes, Uniq, CUniq;
    Rotate(Other(d), sibling, parent, root, false, true, sr, sl, t, c.up);
    LoweredLinks(d, node, parent, sibling, root, c, t);
  }

  /** What case 1 leaves in memory, read as the context one level deeper. */
  lemma LoweredLinks(d: Side, node: Node?, parent: Node, sibling: Node, root: Root, c: Ctx, t: Tree)
    requires c.In? && d == c.d && c.sib.Fork? && sibling == c.sib.node && parent == c.node
    requires node == if t.Leaf? then null else t.node
    requires Rep(Mk(Other(d), Sub(c.sib, Other(d)), sibling, c.black, Mk(Other(d), Sub(c.sib, d), parent, false, t)),
                 sibling, sibling.parent)
    requires CRep(c.up, root, sibling, sibling.parent)
    ensures Rep(t, node, parent) && CRep(Lowered(c), root, node, parent)
  {
    var inner := Mk(Other(d), Sub(c.sib, d), parent, false, t);
    RepFork(Mk(Other(d), Sub(c.sib, Other(d)), sibling, c.black, inner), sibling, sibling.parent);
    RepFork(inner, parent, sibling);
    RepRoot(t, parent.Child(d), parent);
  }

  /** Case 4: rotate the sibling above the parent and paint the far nephew black.  On
      entry the far nephew's own parent and colour fields do not matter. */
  method EraseFar(d: Side, parent: Node, sibling: Node, tmp1: Node, root: Root,
                  ghost t: Tree, ghost sl: Tree, ghost sr: Tree, ghost up: Ctx)
    requires Apart3(sibling, parent, sr, sl, t, up) && Uniq(sr)
    requires sr.Fork? && sr.black && tmp1 == sr.node && tmp1 == sibling.Child(Other(d))
    requires Rep(sr.left, tmp1.left, tmp1) && Rep(sr.right, tmp1.right, tmp1)
    requires Rep(sl, sibling.Child(d), sibling) && Rep(t, parent.Child(d), parent)
    requires CRep(up, root, parent, parent.parent)
    modifies root, parent, sibling, Nodes(sl), Nodes(sr), CNodes(up)
    ensures Rep(Mk(d, Mk(d, t, parent, true, sl), sibling, old(parent.black), sr), sibling, sibling.parent)
    ensures CRep(up, root, sibling, sibling.parent)
  {
    hide Rep, CRep, Nodes, CNodes, Uniq, CUniq;
    FarOutside(sibling, parent, sr, sl, t, up);
    tmp1.parent, tmp1.black := sibling, true;
    RepMk(Left, sr.left, tmp1, true, sr.right);
    var tmp2 := sibling.Child(d);
    RepRoot(sl, tmp2, sibling);
    if tmp2 != null { RepFork(sl, tmp2, sibling); }
    Rotate(Other(d), sibling, parent, root, true, tmp2 == null || tmp2.black, sr, sl, t, up);
  }

  lemma FarOutside(sibling: Node, parent: Node, sr: Tree, sl: Tree, t: Tree, up: Ctx)
    requires Apart3(sibling, parent, sr, sl, t, up) && Uniq(sr) && sr.Fork?
    ensures var x := sr.node;
            x in Nodes(sr) && x != sibling && x != parent && x !in Nodes(sl) && x !in CNodes(up) &&
            x !in Nodes(sr.left) && x !in Nodes(sr.right) && x !in Nodes(t)
  { }

  /** Case 3: rotate the red near nephew above the sibling, then case 4. */
  method EraseNear(d: Side, parent: Node, sibling: Node, tmp2: Node, root: Root,
                   ghost node: Node?, ghost c: Ctx, ghost t: Tree)
    requires Focus(c, t, root, node, parent) && c.In? && d == c.d
    requires c.sib.Fork? && sibling == c.sib.node && Sub(c.sib, d).Fork? && tmp2 == Sub(c.sib, d).node
    requires BlackRoot(Sub(Sub(c.sib, d), Other(d)))
    requires Apart(c.up, NearFixed(c, t))
    modifies root, parent, Nodes(c.sib), CNodes(c.up)
    ensures Rep(NearFixed(c, t), tmp2, tmp2.parent) && CRep(c.up, root, tmp2, tmp2.parent)
  {
    ghost var m, sr := Sub(c.sib, d), Sub(c.sib, Other(d));
    ghost var a, b := Sub(m, d), Sub(m, Other(d));
    ghost var x := Mk(d, b, sibling, true, sr);
    NearApart(d, parent, sibling, tmp2, t, a, b, sr, c.up, c.black);
    Apart3Of(Other(d), tmp2, parent, x, a, t, c.up, c.black, true);
    CRepUp(c, root, node, parent);
    RepRoot(t, node, parent);
    RepFork(c.sib, sibling, parent);
    RepFork(m, tmp2, sibling);
    NearNodes(c, d);
    hide Rep, CRep, Nodes, CNodes, Uniq, CUniq;
    EraseNearLinks(d, parent, sibling, tmp2, root, t, a, b, sr, c.up);
    EraseFar(d, parent, tmp2, sibling, root, t, a, x, c.up);
  }

  /** `x` is none of the nodes of the five pieces around case 3. */
  predicate OutsideNear(x: Node, t: Tree, a: Tree, b: Tree, sr: Tree, up: Ctx) {
    x !in Nodes(t) && x !in Nodes(a) && x !in Nodes(b) && x !in Nodes(sr) && x !in CNodes(up)
  }

  predicate DisjointNear(t: Tree, a: Tree, b: Tree, sr: Tree, up: Ctx) {
    Nodes(b) !! Nodes(t) && Nodes(b) !! Nodes(a) && Nodes(b) !! Nodes(sr) && Nodes(b) !! CNodes(up) && Uniq(b)
  }

  lemma NearApart(d: Side, parent: Node, sibling: Node, tmp2: Node,
                  t: Tree, a: Tree, b: Tree, sr: Tree, up: Ctx, k: bool)
    requires Apart(up, Mk(d, Mk(d, t, parent, true, a), tmp2, k, Mk(d, b, sibling, true, sr)))
    ensures OutsideNear(parent, t, a, b, sr, up) && OutsideNear(sibling, t, a, b, sr, up)
    ensures OutsideNear(tmp2, t, a, b, sr, up) && DisjointNear(t, a, b, sr, up)
    ensures parent != sibling && parent != tmp2 && sibling != tmp2 && Uniq(Mk(d, b, sibling, true, sr))
  {
    var l, r := Mk(d, t, parent, true, a), Mk(d, b, sibling, true, sr);
    assert Nodes(l) == Nodes(t) + {parent} + Nodes(a);
    assert Nodes(r) == Nodes(b) + {sibling} + Nodes(sr);
    assert Nodes(Mk(d, l, tmp2, k, r)) == Nodes(l) + {tmp2} + Nodes(r);
    assert Uniq(l) && Uniq(r) && Nodes(l) !! Nodes(r) && tmp2 !in Nodes(l) && tmp2 !in Nodes(r);
  }

  lemma NearNodes(c: Ctx, d: Side)
    requires c.In? && c.sib.Fork? && Sub(c.sib, d).Fork?
    ensures var m, sr := Sub(c.sib, d), Sub(c.sib, Other(d));
            {c.sib.node, m.node} + Nodes(Sub(m, d)) + Nodes(Sub(m, Other(d))) + Nodes(sr) <= Nodes(c.sib)
    ensures Nodes(Mk(d, Sub(Sub(c.sib, d), Other(d)), c.sib.node, true, Sub(c.sib, Other(d)))) <= Nodes(c.sib)
  { }

  method EraseNearLinks(d: Side, parent: Node, sibling: Node, tmp2: Node, ghost root: Root,
                        ghost t: Tree, ghost a: Tree, ghost b: Tree, ghost sr: Tree, ghost up: Ctx)
    requires OutsideNear(parent, t, a, b, sr, up) && OutsideNear(sibling, t, a, b, sr, up)
    requires OutsideNear(tmp2, t, a, b, sr, up) && DisjointNear(t, a, b, sr, up)
    requires parent != sibling && parent != tmp2 && sibling != tmp2 && BlackRoot(b)
    requires Rep(t, parent.Child(d), parent) && Rep(sr, sibling.Child(Other(d)), sibling)
    requires Rep(a, tmp2.Child(d), tmp2) && Rep(b, tmp2.Child(Other(d)), tmp2)
    requires CRep(up, root, parent, parent.parent)
    modifies parent, sibling, tmp2, Nodes(b)
    ensures Rep(t, parent.Child(d), parent) && Rep(sr, sibling.Child(Other(d)), sibling)
    ensures Rep(a, tmp2.Child(d), tmp2) && Rep(b, sibling.Child(d), sibling)
    ensures CRep(up, root, parent, parent.parent)
    ensures tmp2.Child(Other(d)) == sibling && parent.black == old(parent.black)
  {
    hide Rep, CRep, Nodes, CNodes, Uniq, CUniq;
    NodesAllocated(t);
    NodesAllocated(a);
    NodesAllocated(b);
    NodesAllocated(sr);
    CNodesAllocated(up);
    var tmp1 := tmp2.Child(Other(d));
    RepRoot(b, tmp1, tmp2);
    sibling.SetChild(d, tmp1);
    tmp2.SetChild(Other(d), sibling);
    parent.SetChild(Other(d), tmp2);
    Reparent(tmp1, sibling, true, b, tmp2);
  }

  /** `x` occurs in none of the pieces around case 2. */
  predicate OutsideRedden(x: Node, t: Tree, sl: Tree, sr: Tree, up: Ctx) {
    x !in Nodes(t) && x !in Nodes(sl) && x !in Nodes(sr) && x !in CNodes(up)
  }

  method ReddenLinks(ghost d: Side, parent: Node, sibling: Node, ghost root: Root,
                     ghost t: Tree, ghost sl: Tree, ghost sr: Tree, ghost up: Ctx)
    requires parent != sibling && OutsideRedden(parent, t, sl, sr, up) && OutsideRedden(sibling, t, sl, sr, up)
    requires parent.Child(Other(d)) == sibling && Rep(t, parent.Child(d), parent)
    requires Rep(sl, sibling.left, sibling) && Rep(sr, sibling.right, sibling)
    requires CRep(up, root, parent, parent.parent)
    modifies parent, sibling
    ensures parent.Child(Other(d)) == sibling && Rep(t, parent.Child(d), parent)
    ensures Rep(sl, sibling.left, sibling) && Rep(sr, sibling.right, sibling)
    ensures CRep(up, root, parent, parent.parent) && parent.parent == old(parent.parent)
    ensures sibling.parent == parent && !sibling.black && parent.black
  {
    hide Rep, CRep, Nodes, CNodes;
    sibling.parent, sibling.black := parent, false;
    if !parent.black { parent.black := true; }
  }

  /** Case 2: paint the sibling red, and the parent black if it was red. */
  method EraseRedden(parent: Node, sibling: Node, root: Root, ghost node: Node?, ghost c: Ctx, ghost t: Tree)
    requires Focus(c, t, root, node, parent) && c.In? && c.sib.Fork? && sibling == c.sib.node
    modifies parent, sibling
    ensures Focus(c.up, Reddened(c, t), root, parent, parent.parent)
    ensures parent.parent == old(parent.parent)
  {
    ReddenedSame(c, t);
    ApartUp(c.d, parent, c.black, c.sib, c.up, t);
    ReddenApart(c, t);
    CRepUp(c, root, node, parent);
    RepRoot(t, node, parent);
    RepFork(c.sib, sibling, parent);
    hide Rep, CRep, Nodes, CNodes, Uniq, CUniq, OutsideRedden;
    ReddenLinks(c.d, parent, sibling, root, t, c.sib.left, c.sib.right, c.up);
    RepMk(Left, c.sib.left, sibling, false, c.sib.right);
    RepMk(c.d, t, parent, true, c.sib.(black := false));
  }

  lemma ReddenApart(c: Ctx, t: Tree)
    requires Apart(c, t) && c.In? && c.sib.Fork?
    ensures c.node != c.sib.node
    ensures OutsideRedden(c.node, t, c.sib.left, c.sib.right, c.up)
    ensures OutsideRedden(c.sib.node, t, c.sib.left, c.sib.right, c.up)
  {
    assert CNodes(c) == {c.node} + Nodes(c.sib) + CNodes(c.up);
    assert Nodes(c.sib) == Nodes(c.sib.left) + {c.sib.node} + Nodes(c.sib.right);
  }

  /** Cases 3 and 4, with the near nephew red: this ends the loop. */
  method FinishNear(d: Side, parent: Node, sibling: Node, root: Root,
                    ghost node: Node?, ghost c: Ctx, ghost t: Tree, ghost h: int) returns (ghost r: Tree)
    requires Focus(c, t, root, node, parent) && c.In? && c.sib.Fork? && c.sib.black && d == c.d && sibling == c.sib.node
    requires RedBlack(t, h) && BlackRoot(t) && CtxRedBlack(c, h + 1)
    requires !BlackRoot(Sub(c.sib, d)) && BlackRoot(Sub(c.sib, Other(d)))
    modifies root, parent, Nodes(c.sib), CNodes(c.up)
    ensures Linked(r, root) && Nodes(r) == Nodes(t) + CNodes(c) && Inorder(r) == Inorder(Plug(c, t))
  {
    ApartUp(d, parent, c.black, c.sib, c.up, t);
    NearRed(d, c.sib, h + 1);
    NearFixedSame(c, t);
    NearFixedRedBlack(c, t, h);
    PlugSame(c.up, Folded(c, t), NearFixed(c, t));
    r := Plug(c.up, NearFixed(c, t));
    CRepUp(c, root, node, parent);
    RepFork(c.sib, sibling, parent);
    var tmp2 := sibling.Child(d);
    RepRoot(Sub(c.sib, d), tmp2, sibling);
    hide *;
    EraseNear(d, parent, sibling, tmp2, root, node, c, t);
    Close(c.up, NearFixed(c, t), root, tmp2, tmp2.parent);
  }

  /** Case 4, with the far nephew red: this ends the loop. */
  method FinishFar(d: Side, parent: Node, sibling: Node, tmp1: Node, root: Root,
                   ghost node: Node?, ghost c: Ctx, ghost t: Tree, ghost h: int) returns (ghost r: Tree)
    requires Focus(c, t, root, node, parent) && c.In? && c.sib.Fork? && c.sib.black && d == c.d && sibling == c.sib.node
    requires RedBlack(t, h) && BlackRoot(t) && CtxRedBlack(c, h + 1)
    requires !BlackRoot(Sub(c.sib, Other(d))) && tmp1 == Sub(c.sib, Other(d)).node
    modifies root, parent, Nodes(c.sib), CNodes(c.up)
    ensures Linked(r, root) && Nodes(r) == Nodes(t) + CNodes(c) && Inorder(r) == Inorder(Plug(c, t))
  {
    ghost var sl, sr := Sub(c.sib, d), Sub(c.sib, Other(d));
    ApartUp(d, parent, c.black, c.sib, c.up, t);
    FarFixedSame(c, t);
    FarFixedRedBlack(c, t, h);
    PlugSame(c.up, Folded(c, t), FarFixed(c, t));
    r := Plug(c.up, FarFixed(c, t));
    FarApart(c, t, d, parent, sibling);
    CRepUp(c, root, node, parent);
    RepRoot(t, node, parent);
    RepFork(c.sib, sibling, parent);
    RepRoot(sr, sibling.Child(Other(d)), sibling);
    RepFork(sr, tmp1, sibling);
    hide Rep, CRep, Nodes, CNodes, Uniq, CUniq, Inorder, RedBlack, CtxRedBlack, Plug, Balanced;
    EraseFar(d, parent, sibling, tmp1, root, t, sl, sr.(black := true), c.up);
    Close(c.up, FarFixed(c, t), root, sibling, sibling.parent);
  }

  lemma NearRed(d: Side, sib: Tree, h: int)
    requires sib.Fork? && sib.black && RedBlack(sib, h) && BlackRoot(Sub(sib, Other(d)))
    requires !BlackRoot(sib.left) || !BlackRoot(sib.right)
    ensures Sub(sib, d).Fork? && !Sub(sib, d).black && BlackRoot(Sub(Sub(sib, d), Other(d)))
  {
    assert RedBlack(Sub(sib, d), h - 1);
  }

  lemma FarApart(c: Ctx, t: Tree, d: Side, parent: Node, sibling: Node)
    requires c.In? && c.sib.Fork? && Sub(c.sib, Other(d)).Fork? && d == c.d
    requires parent == c.node && sibling == c.sib.node && Apart(c.up, FarFixed(c, t))
    ensures var sl, sr := Sub(c.sib, d), Sub(c.sib, Other(d)).(black := true);
            Apart3(sibling, parent, sr, sl, t, c.up) && Uniq(sr) && Nodes(sr) + Nodes(sl) <= Nodes(c.sib)
  {
    var sl, sr := Sub(c.sib, d), Sub(c.sib, Other(d)).(black := true);
    Apart3Of(Other(d), sibling, parent, sr, sl, t, c.up, c.black, true);
  }

  /** What the loop finds before choosing a case: the sibling exists. */
  lemma LookAcross(c: Ctx, t: Tree, root: Root, node: Node?, parent: Node, h: int)
    requires Focus(c, t, root, node, parent) && CtxRedBlack(c, h + 1) && RedBlack(t, h)
    ensures c.In? && parent == c.node && parent.black == c.black && c.sib.Fork?
    ensures parent.Child(Other(c.d)) == c.sib.node && c.sib.node.black == c.sib.black
    ensures c.d == if node != parent.right then Left else Right
    ensures {parent} + Nodes(c.sib) + CNodes(c.up) == CNodes(c) && c.sib.node in Nodes(c.sib)
  {
    HeightNat(t, h);
    CRepUp(c, root, node, parent);
    RepRoot(c.sib, parent.Child(Other(c.d)), parent);
    RepRoot(t, node, parent);
    RepFork(c.sib, c.sib.node, parent);
  }

  lemma SiblingChildren(c: Ctx, t: Tree, root: Root, node: Node?, parent: Node, d: Side)
    requires Focus(c, t, root, node, parent) && c.In? && c.sib.Fork? && d == c.d
    ensures var near, far := Sub(c.sib, d), Sub(c.sib, Other(d));
            var s := c.sib.node;
            (s.Child(d) == null <==> near.Leaf?) && (s.Child(Other(d)) == null <==> far.Leaf?) &&
            (near.Fork? ==> s.Child(d) == near.node && near.node.black == near.black) &&
            (far.Fork? ==> s.Child(Other(d)) == far.node && far.node.black == far.black)
  {
    var near, far := Sub(c.sib, d), Sub(c.sib, Other(d));
    CRepUp(c, root, node, parent);
    RepFork(c.sib, c.sib.node, parent);
    RepRoot(near, c.sib.node.Child(d), c.sib.node);
    RepRoot(far, c.sib.node.Child(Other(d)), c.sib.node);
  }

  /** Case 1, with everything the rest of the loop needs afterwards. */
  method LowerStep(d: Side, node: Node?, parent: Node, sibling: Node, root: Root,
                   ghost c: Ctx, ghost t: Tree, ghost h: int)
    requires Focus(c, t, root, node, parent) && RedBlack(t, h) && CtxRedBlack(c, h + 1)
    requires c.In? && c.sib.Fork? && !c.sib.black && sibling == c.sib.node && d == c.d
    modifies root, CNodes(c)
    ensures var l := Lowered(c);
            Focus(l, t, root, node, parent) && CtxRedBlack(l, h + 1) && l.sib.Fork? && l.sib.black &&
            Nodes(t) + CNodes(l) == Nodes(t) + CNodes(c) && Inorder(Plug(l, t)) == Inorder(Plug(c, t))
  {
    HeightNat(t, h);
    LoweredApart(c, t);
    LoweredRedBlack(c, h);
    assert RedBlack(c.sib, h + 1);
    hide Rep, CRep, Uniq, CUniq, CtxRedBlack, Inorder, Plug;
    EraseLower(d, node, parent, sibling, root, c, t);
  }

  /** Cases 2 to 4, given a black sibling on side Other(d).  `again` says that the deficit
      has moved up to the parent, one level higher in the same context. */
  method BlackSibling(d: Side, node: Node?, parent: Node, sibling: Node, root: Root,
                      ghost c: Ctx, ghost t: Tree, ghost h: int) returns (again: bool, ghost r: Tree)
    requires Focus(c, t, root, node, parent) && RedBlack(t, h) && BlackRoot(t) && CtxRedBlack(c, h + 1)
    requires c.In? && c.sib.Fork? && c.sib.black && sibling == c.sib.node && d == c.d && parent == c.node
    modifies root, parent, Nodes(c.sib), CNodes(c.up)
    ensures again ==>
              r == Reddened(c, t) && Focus(c.up, r, root, parent, parent.parent) && parent.parent != null &&
              c.black && RedBlack(r, h + 1) && BlackRoot(r) && CtxRedBlack(c.up, h + 2) &&
              Nodes(r) + CNodes(c.up) == Nodes(t) + CNodes(c) && Inorder(Plug(c.up, r)) == Inorder(Plug(c, t))
    ensures !again ==> Linked(r, root) && Nodes(r) == Nodes(t) + CNodes(c) && Inorder(r) == Inorder(Plug(c, t))
  {
    SiblingChildren(c, t, root, node, parent, d);
    var tmp1 := sibling.Child(Other(d));
    if tmp1 == null || tmp1.black {
      var tmp2 := sibling.Child(d);
      if tmp2 == null || tmp2.black {
        again, r := ReddenStep(parent, sibling, root, node, c, t, h);
      } else {
        again := false;
        r := FinishNear(d, parent, sibling, root, node, c, t, h);
      }
    } else {
      again := false;
      r := FinishFar(d, parent, sibling, tmp1, root, node, c, t, h);
    }
  }

  method ReddenStep(parent: Node, sibling: Node, root: Root, ghost node: Node?,
                    ghost c: Ctx, ghost t: Tree, ghost h: int) returns (again: bool, ghost r: Tree)
    requires Focus(c, t, root, node, parent) && RedBlack(t, h) && BlackRoot(t) && CtxRedBlack(c, h + 1)
    requires c.In? && c.sib.Fork? && c.sib.black && sibling == c.sib.node && parent == c.node
    requires BlackRoot(c.sib.left) && BlackRoot(c.sib.right)
    modifies parent, sibling
    ensures again ==>
              r == Reddened(c, t) && Focus(c.up, r, root, parent, parent.parent) && parent.parent != null &&
              c.black && RedBlack(r, h + 1) && BlackRoot(r) && CtxRedBlack(c.up, h + 2) &&
              Nodes(r) + CNodes(c.up) == Nodes(t) + CNodes(c) && Inorder(Plug(c.up, r)) == Inorder(Plug(c, t))
    ensures !again ==> Linked(r, root) && Nodes(r) == Nodes(t) + CNodes(c) && Inorder(r) == Inorder(Plug(c, t))
  {
    ReddenedSame(c, t);
    ReddenedRedBlack(c, t, h);
    ApartUp(c.d, parent, c.black, c.sib, c.up, t);
    PlugSame(c.up, Folded(c, t), Reddened(c, t));
    CRepUp(c, root, node, parent);
    r := Reddened(c, t);
    var wasBlack := parent.black;
    assert Plug(c, t) == Plug(c.up, Folded(c, t));
    assert !c.black || c.up.Top? ==> CtxRedBlack(c.up, h + 1);
    hide Rep, CRep, Nodes, CNodes, Uniq, CUniq, Inorder, RedBlack, CtxRedBlack, Plug, Balanced;
    EraseRedden(parent, sibling, root, node, c, t);
    CRepParent(c.up, root, parent, parent.parent);
    if wasBlack && parent.parent != null {
      again := true;
    } else {
      again := false;
      PlugBalanced(c.up, r, h + 1);
      Close(c.up, r, root, parent, parent.parent);
      r := Plug(c.up, r);
    }
  }

  lemma OtherChild(d: Side, x: Node)
    ensures x.Child(Other(d)) == if d == Left then x.right else x.left
  { }

  /** One turn of the loop, with the hole on side `d`.  Case 1 leaves a red parent, so
      only a turn that started with a black sibling can ask for another. */
  method EraseTurn(d: Side, node: Node?, parent: Node, first: Node, root: Root,
                   ghost c: Ctx, ghost t: Tree, ghost h: int) returns (again: bool, ghost r: Tree)
    requires Focus(c, t, root, node, parent) && RedBlack(t, h) && BlackRoot(t) && CtxRedBlack(c, h + 1)
    requires c.In? && c.sib.Fork? && d == c.d && first == c.sib.node
    modifies root, CNodes(c)
    ensures again ==>
              Focus(c.up, r, root, parent, parent.parent) && parent.parent != null &&
              RedBlack(r, h + 1) && BlackRoot(r) && CtxRedBlack(c.up, h + 2) &&
              Nodes(r) + CNodes(c.up) == Nodes(t) + CNodes(c) && Inorder(Plug(c.up, r)) == Inorder(Plug(c, t))
    ensures !again ==> Linked(r, root) && Nodes(r) == Nodes(t) + CNodes(c) && Inorder(r) == Inorder(Plug(c, t))
  {
    LookAcross(c, t, root, node, parent, h);
    LoweredApart(c, t);
    hide *;
    if !first.black {
      LowerStep(d, node, parent, first, root, c, t, h);
      ghost var l := Lowered(c);
      LookAcross(l, t, root, node, parent, h);
      LoweredFields(c);
      LoweredNodes(c, t);
      var sibling := parent.Child(Other(d));
      again, r := BlackSibling(d, node, parent, sibling, root, l, t, h);
    } else {
      again, r := BlackSibling(d, node, parent, first, root, c, t, h);
    }
  }

  lemma LoweredFields(c: Ctx)
    requires c.In? && c.sib.Fork?
    ensures var l := Lowered(c); l.In? && l.d == c.d && l.node == c.node && !l.black
  { }

  lemma LoweredNodes(c: Ctx, t: Tree)
    requires c.In? && c.sib.Fork?
    ensures var l := Lowered(c); {l.node} + Nodes(l.sib) + CNodes(l.up) <= CNodes(c)
  { }

  lemma HoleStart(c: Ctx)
    ensures RedBlack(Leaf, 0) && BlackRoot(Leaf) && Nodes(Leaf) + CNodes(c) == CNodes(c)
    ensures Inorder(Plug(c, Leaf)) == Before(c) + After(c)
  {
    PlugInorder(c, Leaf);
    assert Before(c) + Inorder(Leaf) + After(c) == Before(c) + After(c);
  }

  /** ____rb_erase_color: the hole under `start` is one black short; the loop restores every
      colour rule without changing the order.  Each repeat of case 2 moves the deficit one
      level up, so it ends. */
  method EraseColor(start: Node, root: Root, ghost c0: Ctx) returns (ghost r: Tree)
    requires Focus(c0, Leaf, root, null, start) && CtxRedBlack(c0, 1)
    modifies root, CNodes(c0)
    ensures Linked(r, root) && Nodes(r) == CNodes(c0)
    ensures Inorder(r) == Before(c0) + After(c0)
  {
    var node: Node? := null;
    var parent: Node := start;
    ghost var c, t, h := c0, Leaf, 0;
    ghost var order, all := Inorder(Plug(c, t)), CNodes(c0);
    HoleStart(c0);
    hide *;
    while true
      invariant Focus(c, t, root, node, parent) && RedBlack(t, h) && BlackRoot(t) && CtxRedBlack(c, h + 1)
      invariant Nodes(t) + CNodes(c) == all == CNodes(c0) && Inorder(Plug(c, t)) == order
      decreases c
    {
      LookAcross(c, t, root, node, parent, h);
      OtherChild(c.d, parent);
      var again;
      var sibling := parent.right;
      if node != sibling {
        again, r := EraseTurn(Left, node, parent, sibling, root, c, t, h);
      } else {
        sibling := parent.left;
        again, r := EraseTurn(Right, node, parent, sibling, root, c, t, h);
      }
      if !again { return; }
      node, parent := parent, parent.parent;
      c, t, h := c.up, r, h + 1;
    }
  }
}
