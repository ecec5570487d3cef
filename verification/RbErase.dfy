/** Removing a node (include/linux/rbtree_augmented.h and util/rbtree.c): unlinking it,
    or moving its successor into its place, then rebalancing. */
module RbErase {
  import opened RbTreeShape
  import opened RbRotate
  import opened RbEraseColor

  // ------------------------------------------------------ moving around a tree

  /** The subtree `t` has exactly the black height its context wants. */
  predicate Fit(c: Ctx, t: Tree, h: int) {
    RedBlack(t, h) && CtxRedBlack(c, h) && (BlackRoot(t) || BlackTop(c))
  }

  /** The context of the child of `t` on side `d`. */
  function Below(c: Ctx, t: Tree, d: Side): Ctx
    requires t.Fork?
  {
    In(d, t.node, t.black, Sub(t, Other(d)), c)
  }

  lemma Descend(c: Ctx, t: Tree, root: Root, n: Node, p: Node?, d: Side)
    requires Focus(c, t, root, n, p) && t.Fork?
    ensures n == t.node && Focus(Below(c, t, d), Sub(t, d), root, n.Child(d), n)
    ensures Plug(Below(c, t, d), Sub(t, d)) == Plug(c, t)
  {
    SubMk(t, d);
    RepFork(t, n, p);
    ApartUp(d, t.node, t.black, Sub(t, Other(d)), c, Sub(t, d));
  }

  lemma DescendFit(c: Ctx, t: Tree, h: int, d: Side)
    requires Fit(c, t, h) && t.Fork?
    ensures Fit(Below(c, t, d), Sub(t, d), if t.black then h - 1 else h)
  { }

  lemma {:induction false} LocateFrom(c: Ctx, t: Tree, root: Root, n: Node, p: Node?, h: int, x: Node)
      returns (c': Ctx, t': Tree, h': int)
    requires Focus(c, t, root, n, p) && Fit(c, t, h) && x in Nodes(t)
    ensures t'.Fork? && t'.node == x && Plug(c', t') == Plug(c, t)
    ensures Focus(c', t', root, x, x.parent) && Fit(c', t', h')
    decreases t
  {
    Descend(c, t, root, n, p, Left);
    Descend(c, t, root, n, p, Right);
    if x == n {
      c', t', h' := c, t, h;
    } else {
      var d := if x in Nodes(t.left) then Left else Right;
      DescendFit(c, t, h, d);
      RepRoot(Sub(t, d), n.Child(d), n);
      c', t', h' := LocateFrom(Below(c, t, d), Sub(t, d), root, n.Child(d), n, if t.black then h - 1 else h, x);
    }
  }

  /** Any node of a linked red-black tree can be taken as the focus. */
  lemma Locate(t: Tree, root: Root, x: Node) returns (c': Ctx, t': Tree, h': int)
    requires Rep(t, root.node, null) && Uniq(t) && Balanced(t) && x in Nodes(t)
    ensures t'.Fork? && t'.node == x && Plug(c', t') == t
    ensures Focus(c', t', root, x, x.parent) && Fit(c', t', h')
  {
    var h :| RedBlack(t, h);
    RepRoot(t, root.node, null);
    c', t', h' := LocateFrom(Top, t, root, root.node, null, h, x);
  }

  // ------------------------------------------------------- at most one child

  /** The only child takes the place and the colour of the node above it. */
  function Lifted(one: Tree, black: bool): Tree {
    if one.Leaf? then Leaf else one.(black := black)
  }

  lemma LiftedUniq(one: Tree, black: bool)
    ensures Nodes(Lifted(one, black)) == Nodes(one) && (Uniq(Lifted(one, black)) <==> Uniq(one))
  { }

  /** Case 1: `node` has no child on side Other(d).  The result is where to rebalance. */
  method SpliceOut(d: Side, node: Node, root: Root, ghost c: Ctx, ghost t: Tree) returns (rebalance: Node?)
    requires Focus(c, t, root, node, node.parent) && t.Fork? && Sub(t, Other(d)).Leaf?
    modifies root, Nodes(t), CNodes(c)
    ensures var one := Lifted(Sub(t, d), t.black);
            Focus(c, one, root, if one.Leaf? then null else one.node, old(node.parent))
    ensures rebalance == if Sub(t, d).Leaf? && t.black then old(node.parent) else null
  {
    hide Rep, CRep, Nodes, CNodes, Uniq, CUniq;
    ghost var one := Sub(t, d);
    RepFork(t, node, node.parent);
    RepRoot(one, node.Child(d), node);
    CRepParent(c, root, node, node.parent);
    SpliceApart(c, t, d);
    NodesAllocated(t);
    var child, parent, black := node.Child(d), node.parent, node.black;
    if child != null { RepFork(one, child, node); }
    ChangeChild(node, child, parent, root, c);
    if child != null {
      child.parent, child.black := parent, black;
      rebalance := null;
      RepMk(Left, one.left, child, black, one.right);
    } else {
      rebalance := if black then parent else null;
      RepLeaf(parent);
    }
  }

  lemma RepLeaf(p: Node?)
    ensures Rep(Leaf, null, p)
  { }

  /** The pieces around a removal are separate. */
  lemma SpliceApart(c: Ctx, t: Tree, d: Side)
    requires Apart(c, t) && t.Fork?
    ensures var one := Sub(t, d);
            CUniq(c) && t.node in Nodes(t) && t.node !in CNodes(c) && Apart(c, Lifted(one, t.black)) &&
            (one.Fork? ==> one.node in Nodes(t) && one.node !in Nodes(one.left) && one.node !in Nodes(one.right) &&
                           one.node !in CNodes(c) && Nodes(one.left) <= Nodes(t) && Nodes(one.right) <= Nodes(t))
    ensures Nodes(t) !! CNodes(c)
  {
    var one := Sub(t, d);
    assert Nodes(one) <= Nodes(t) && Uniq(one);
    assert Nodes(Lifted(one, t.black)) == Nodes(one);
  }

  lemma SpliceFit(c: Ctx, t: Tree, h: int, d: Side)
    requires Fit(c, t, h) && t.Fork? && Sub(t, Other(d)).Leaf?
    ensures var one := Lifted(Sub(t, d), t.black);
            if Sub(t, d).Leaf? && t.black then CtxRedBlack(c, 1) && (c.Top? ==> Balanced(Plug(c, one)))
            else Balanced(Plug(c, one))
    ensures Sub(t, d).Fork? ==> t.black
  {
    var one := Sub(t, d);
    var k := if t.black then h - 1 else h;
    assert RedBlack(one, k) && RedBlack(Sub(t, Other(d)), k) && k == 0;
    if one.Fork? {
      if one.black { HeightNat(one.left, -1); }
      assert RedBlack(Lifted(one, t.black), 1);
      PlugBalanced(c, Lifted(one, t.black), 1);
    } else {
      assert RedBlack(Leaf, 0);
      if !t.black || c.Top? { PlugBalanced(c, Leaf, 0); }
    }
  }

  method EraseOne(d: Side, node: Node, root: Root, ghost c: Ctx, ghost t: Tree, ghost h: int)
      returns (ghost r: Tree)
    requires Focus(c, t, root, node, node.parent) && t.Fork? && Sub(t, Other(d)).Leaf? && Fit(c, t, h)
    modifies root, Nodes(t), CNodes(c)
    ensures Linked(r, root) && Nodes(r) == Nodes(t) + CNodes(c) - {node}
    ensures Inorder(r) == Before(c) + Inorder(Sub(t, d)) + After(c)
  {
    ghost var one := Lifted(Sub(t, d), t.black);
    ghost var top := if one.Leaf? then null else one.node;
    SpliceFit(c, t, h, d);
    PlugInorder(c, one);
    assert Inorder(one) == Inorder(Sub(t, d));
    assert Sub(t, d).Leaf? ==> one == Leaf && Before(c) + Inorder(Leaf) + After(c) == Before(c) + After(c);
    CRepParent(c, root, node, node.parent);
    ghost var parent := node.parent;
    hide Rep, CRep, Nodes, CNodes, Uniq, CUniq, Inorder, RedBlack, CtxRedBlack, Plug, Balanced;
    var rebalance := SpliceOut(d, node, root, c, t);
    if rebalance != null {
      r := EraseColor(rebalance, root, c);
    } else {
      r := Plug(c, one);
      Close(c, one, root, top, parent);
    }
  }

  // ------------------------------------------------------------- two children

  /** Context `e`, hung in the hole of `base`. */
  function Append(e: Ctx, base: Ctx): Ctx {
    match e
    case Top => base
    case In(d, x, black, sib, up) => In(d, x, black, sib, Append(up, base))
  }

  /** Every step of the path goes left. */
  predicate LeftSpine(e: Ctx) {
    e.In? ==> e.d == Left && LeftSpine(e.up)
  }

  lemma {:induction false} PlugAppend(e: Ctx, base: Ctx, t: Tree)
    ensures Plug(Append(e, base), t) == Plug(base, Plug(e, t))
  {
    if e.In? { PlugAppend(e.up, base, Mk(e.d, t, e.node, e.black, e.sib)); }
  }

  lemma {:induction false} SpineBefore(e: Ctx)
    requires LeftSpine(e)
    ensures Before(e) == []
  {
    if e.In? { SpineBefore(e.up); }
  }

  /** Close the lower part of a context over its hole. */
  lemma {:induction false} CloseSpine(e: Ctx, base: Ctx, t: Tree, root: Root, n: Node?, p: Node?)
    requires base.In? && Rep(t, n, p) && CRep(Append(e, base), root, n, p)
    ensures var x := base.node;
            Rep(Plug(e, t), x.Child(base.d), x) && CRep(base, root, x.Child(base.d), x)
  {
    if e.In? { CloseSpine(e.up, base, Mk(e.d, t, e.node, e.black, e.sib), root, e.node, e.node.parent); }
  }

  /** Open the lower part of a tree again, down to the hole. */
  lemma {:induction false} OpenSpine(e: Ctx, base: Ctx, t: Tree, root: Root, n: Node?, p: Node?)
      returns (n': Node?, p': Node?)
    requires Focus(base, Plug(e, t), root, n, p)
    ensures Focus(Append(e, base), t, root, n', p') && p' == if e.In? then e.node else p
  {
    if e.Top? {
      n', p' := n, p;
    } else {
      var m := Mk(e.d, t, e.node, e.black, e.sib);
      var x, q := OpenSpine(e.up, base, m, root, n, p);
      RepRoot(m, x, q);
      Descend(Append(e.up, base), m, root, x, q, e.d);
      n', p' := x.Child(e.d), x;
    }
  }

  lemma {:induction false} SpineFit(e: Ctx, base: Ctx, base': Ctx, h: int)
    requires base.In? && base'.In? && base' == base.(node := base'.node)
    ensures CtxRedBlack(Append(e, base), h) <==> CtxRedBlack(Append(e, base'), h)
    ensures BlackTop(Append(e, base)) <==> BlackTop(Append(e, base'))
  {
    if e.In? {
      SpineFit(e.up, base, base', if e.black then h + 1 else h);
    }
  }

  /** The leftmost node below `child`, which has a left child: cases 2 and 3 diverge here. */
  method Successor(child: Node, root: Root, ghost base: Ctx, ghost t: Tree, ghost h: int)
      returns (successor: Node, parent: Node, ghost e: Ctx, ghost m: Tree, ghost k: int)
    requires child.parent != null && Focus(base, t, root, child, child.parent) && t.Fork? && Fit(base, t, h)
    ensures m.Fork? && m.left.Leaf? && Plug(e, m) == t && LeftSpine(e) && (e.Top? <==> child.left == null)
    ensures Focus(Append(e, base), m, root, successor, parent) && Fit(Append(e, base), m, k)
    ensures if e.In? then parent == e.node else successor == child
    ensures Inorder(t) != [] && successor == Inorder(t)[0]
  {
    successor, parent := child, child.parent;
    e, m, k := Top, t, h;
    RepFork(t, child, child.parent);
    var tmp := child.left;
    while tmp != null
      invariant Focus(Append(e, base), m, root, successor, parent) && Fit(Append(e, base), m, k)
      invariant m.Fork? && tmp == successor.left && Plug(e, m) == t && LeftSpine(e)
      invariant e.Top? ==> successor == child
      invariant e.In? ==> parent == e.node && child.left != null
      decreases m
    {
      Descend(Append(e, base), m, root, successor, parent, Left);
      DescendFit(Append(e, base), m, k, Left);
      RepRoot(m.left, successor.left, successor);
      e, m, k := In(Left, m.node, m.black, m.right, e), m.left, if m.black then k - 1 else k;
      parent := successor;
      successor := tmp;
      tmp := tmp.left;
      RepFork(m, successor, parent);
    }
    RepFork(m, successor, parent);
    RepRoot(m.left, null, successor);
    SpineFirst(e, m);
  }

  /** The end of the left spine comes first in order. */
  lemma SpineFirst(e: Ctx, m: Tree)
    requires LeftSpine(e) && m.Fork? && m.left.Leaf?
    ensures Inorder(Plug(e, m)) != [] && Inorder(Plug(e, m))[0] == m.node
  {
    PlugInorder(e, m);
    SpineBefore(e);
  }

  /** Case 3, first half: take the successor out of the left spine below `child`. */
  method Detach(successor: Node, parent: Node, child2: Node?, root: Root, ghost e: Ctx, ghost base: Ctx, ghost m: Tree)
    requires Focus(Append(e, base), m, root, successor, parent) && m.Fork? && m.left.Leaf?
    requires e.In? && LeftSpine(e) && base.In? && parent == e.node && child2 == successor.right
    modifies parent, if child2 == null then {} else {child2}
    ensures var x := base.node;
            Rep(Plug(e, Lifted(m.right, true)), x.Child(base.d), x) && CRep(base, root, x.Child(base.d), x)
  {
    ghost var c := Append(e, base);
    RepFork(m, successor, parent);
    RepRoot(m.right, child2, successor);
    CRepUp(c, root, successor, parent);
    DetachApart(c, m);
    hide Rep, CRep, Nodes, CNodes, Uniq, CUniq, LeftSpine, Plug;
    DetachLinks(parent, child2, root, m.right, c.sib, c.up);
    CRepIn(c, root, child2, parent);
    CloseSpine(e, base, Lifted(m.right, true), root, child2, parent);
  }

  lemma DetachApart(c: Ctx, m: Tree)
    requires Apart(c, m) && m.Fork? && c.In?
    ensures Uniq(m.right) && Outside(c.node, m.right, c.sib, c.up)
    ensures m.right.Fork? ==> Outside(m.right.node, c.sib, Leaf, c.up) && m.right.node != c.node
  {
    assert CNodes(c) == {c.node} + Nodes(c.sib) + CNodes(c.up);
  }

  method DetachLinks(parent: Node, child2: Node?, ghost root: Root, ghost one: Tree, ghost s: Tree, ghost up: Ctx)
    requires Uniq(one) && Outside(parent, one, s, up)
    requires one.Fork? ==> Outside(one.node, s, Leaf, up) && one.node != parent
    requires exists q: Node? :: Rep(one, child2, q)
    requires Rep(s, parent.right, parent) && CRep(up, root, parent, parent.parent)
    modifies parent, if child2 == null then {} else {child2}
    ensures parent.left == child2 && parent.right == old(parent.right) && parent.black == old(parent.black)
    ensures Rep(Lifted(one, true), child2, parent) && Rep(s, parent.right, parent)
    ensures CRep(up, root, parent, parent.parent)
  {
    ghost var q: Node? :| Rep(one, child2, q);
    RepRoot(one, child2, q);
    if child2 != null { RepFork(one, child2, q); }
    parent.left := child2;
    if child2 != null {
      assert child2 !in Nodes(one.left) && child2 !in Nodes(one.right);
      hide Rep, CRep, Nodes, CNodes, Uniq;
      child2.parent, child2.black := parent, true;
      RepMk(Left, one.left, child2, true, one.right);
    } else {
      RepLeaf(parent);
    }
  }

  lemma CRepIn(c: Ctx, root: Root, n: Node?, p: Node)
    requires c.In? && p == c.node && p.Child(c.d) == n && p.black == c.black
    requires Rep(c.sib, p.Child(Other(c.d)), p) && CRep(c.up, root, p, p.parent)
    ensures CRep(c, root, n, p)
  { }

  /** `x` occurs in none of the pieces around a transplant. */
  predicate OutsideTransplant(x: Node?, ll: Tree, lr: Tree, r: Tree) {
    x != null ==> x !in Nodes(ll) && x !in Nodes(lr) && x !in Nodes(r)
  }

  method TransplantLinks(node: Node, successor: Node, tmp: Node, root: Root,
                         ghost c: Ctx, ghost ll: Tree, ghost lr: Tree, ghost r: Tree)
    requires CRep(c, root, node, node.parent) && CUniq(c) && tmp == node.left
    requires Rep(ll, tmp.left, tmp) && Rep(lr, tmp.right, tmp) && Rep(r, successor.right, successor)
    requires node != successor && node != tmp && successor != tmp
    requires node !in CNodes(c) && successor !in CNodes(c) && tmp !in CNodes(c)
    requires OutsideTransplant(successor, ll, lr, r) && OutsideTransplant(tmp, ll, lr, r)
    requires OutsideTransplant(node.parent, ll, lr, r) && node.parent != node && node.parent != successor && node.parent != tmp
    modifies root, successor, tmp, if node.parent == null then {} else {node.parent}
    ensures Rep(ll, tmp.left, tmp) && Rep(lr, tmp.right, tmp) && Rep(r, successor.right, successor)
    ensures CRep(c, root, successor, successor.parent)
    ensures successor.left == tmp && tmp.parent == successor && tmp.black == old(tmp.black)
    ensures successor.parent == old(node.parent) && successor.black == old(node.black)
  {
    hide Rep, CRep, Nodes, CNodes, Uniq, CUniq;
    NodesAllocated(ll);
    NodesAllocated(lr);
    NodesAllocated(r);
    successor.left := tmp;
    tmp.parent := successor;
    var parent, black := node.parent, node.black;
    ChangeChild(node, successor, parent, root, c);
    successor.parent, successor.black := parent, black;
  }

  /** `successor`, already holding the right subtree, takes over everything else of `node`. */
  method Transplant(node: Node, successor: Node, root: Root, ghost c: Ctx, ghost l: Tree, ghost r: Tree)
    requires CRep(c, root, node, node.parent) && CUniq(c) && l.Fork?
    requires Rep(l, node.left, node) && Rep(r, successor.right, successor)
    requires Apart(c, Fork(l, successor, node.black, r))
    requires node != successor && node !in CNodes(c) && node !in Nodes(l)
    modifies root, successor, Nodes(l), CNodes(c)
    ensures var t := Fork(l, successor, old(node.black), r);
            Focus(c, t, root, successor, old(node.parent))
  {
    var tmp := node.left;
    RepFork(l, tmp, node);
    CRepParent(c, root, node, node.parent);
    TransplantApart(c, l, successor, node.black, r);
    assert OutsideTransplant(node.parent, l.left, l.right, r);
    hide Rep, CRep, Nodes, CNodes, Uniq, CUniq;
    TransplantLinks(node, successor, tmp, root, c, l.left, l.right, r);
    RepMk(Left, l.left, tmp, l.black, l.right);
    RepMk(Left, l, successor, old(node.black), r);
  }

  lemma TransplantApart(c: Ctx, l: Tree, s: Node, black: bool, r: Tree)
    requires Apart(c, Fork(l, s, black, r)) && l.Fork?
    ensures s !in CNodes(c) && s !in Nodes(l) && s !in Nodes(r)
    ensures l.node in Nodes(l) && l.node !in Nodes(l.left) && l.node !in Nodes(l.right)
    ensures l.node !in Nodes(r) && l.node !in CNodes(c) && l.node != s
    ensures s !in Nodes(l.left) && s !in Nodes(l.right)
    ensures Nodes(l) !! CNodes(c) && Nodes(r) !! CNodes(c)
    ensures Nodes(l.left) !! CNodes(c) && Nodes(l.right) !! CNodes(c)
  {
    assert Nodes(Fork(l, s, black, r)) == Nodes(l) + {s} + Nodes(r) && Uniq(l);
    assert Nodes(l) == Nodes(l.left) + {l.node} + Nodes(l.right);
  }

  /** The right subtree without its leftmost node. */
  function WithoutMin(e: Ctx, m: Tree): Tree
    requires m.Fork?
  {
    Plug(e, Lifted(m.right, true))
  }

  lemma WithoutMinNodes(e: Ctx, m: Tree)
    requires m.Fork? && m.left.Leaf? && Uniq(Plug(e, m))
    ensures var w := WithoutMin(e, m);
            Uniq(w) && m.node !in Nodes(w) && Nodes(Plug(e, m)) == Nodes(w) + {m.node}
    ensures Nodes(m) <= Nodes(Plug(e, m)) && CNodes(e) <= Nodes(Plug(e, m))
  {
    PlugApart(e, m);
    PlugApart(e, Lifted(m.right, true));
    hide Nodes, CNodes, Uniq, CUniq, Plug;
    LiftedApart(e, m);
  }

  lemma LiftedApart(e: Ctx, m: Tree)
    requires Apart(e, m) && m.Fork? && m.left.Leaf?
    ensures var one := Lifted(m.right, true);
            Apart(e, one) && m.node !in Nodes(one) && m.node !in CNodes(e) && Nodes(m) == {m.node} + Nodes(one)
  {
    LiftedUniq(m.right, true);
    assert Nodes(m.left) == {} && Nodes(m) == {m.node} + Nodes(m.right) && Uniq(m.right);
  }

  lemma WithoutMinApart(c: Ctx, t: Tree, e: Ctx, m: Tree)
    requires Apart(c, t) && t.Fork? && m.Fork? && m.left.Leaf? && Plug(e, m) == t.right
    ensures var w := WithoutMin(e, m);
            Apart(c, Fork(t.left, m.node, t.black, w)) && Uniq(w) && m.node !in Nodes(w) &&
            Nodes(w) <= Nodes(t.right) && m.node in Nodes(t.right)
    ensures CUniq(c) && t.node !in CNodes(c) && t.node !in Nodes(t.left) && t.node !in Nodes(t.right)
    ensures Nodes(m) <= Nodes(t) && CNodes(e) <= Nodes(t)
  {
    hide Nodes, CNodes, Uniq, CUniq, Plug, WithoutMin;
    var w := WithoutMin(e, m);
    ForkNodes(t.left, t.node, t.black, t.right);
    WithoutMinNodes(e, m);
    ForkNodes(t.left, m.node, t.black, w);
  }

  lemma ForkNodes(l: Tree, n: Node, k: bool, r: Tree)
    ensures Nodes(Fork(l, n, k, r)) == Nodes(l) + {n} + Nodes(r)
    ensures Uniq(Fork(l, n, k, r)) <==> Uniq(l) && Uniq(r) && n !in Nodes(l) && n !in Nodes(r) && Nodes(l) !! Nodes(r)
  { }

  lemma {:induction false} WithoutMinInorder(e: Ctx, m: Tree)
    requires m.Fork? && m.left.Leaf? && LeftSpine(e)
    ensures Inorder(Plug(e, m)) == [m.node] + Inorder(WithoutMin(e, m))
  {
    var one := Lifted(m.right, true);
    SpineBefore(e);
    PlugInorder(e, m);
    PlugInorder(e, one);
    assert Inorder(one) == Inorder(m.right);
    assert Inorder(m) == [m.node] + Inorder(m.right);
  }

  lemma WithoutMinOrder(c: Ctx, t: Tree, e: Ctx, m: Tree)
    requires t.Fork? && m.Fork? && m.left.Leaf? && Plug(e, m) == t.right && LeftSpine(e)
    ensures Inorder(Plug(c, Fork(t.left, m.node, t.black, WithoutMin(e, m))))
         == Before(c) + Inorder(t.left) + Inorder(t.right) + After(c)
  {
    WithoutMinInorder(e, m);
    var w := WithoutMin(e, m);
    PlugInorder(c, Fork(t.left, m.node, t.black, w));
    Rejoin(Before(c), Inorder(t.left), [m.node], Inorder(w), After(c));
  }

  lemma Rejoin(a: seq<Node>, b: seq<Node>, c: seq<Node>, d: seq<Node>, e: seq<Node>)
    ensures a + (b + c + d) + e == a + b + (c + d) + e
  { }

  /** After the move, only the successor's old place can be one black short. */
  lemma WithoutMinFit(c: Ctx, t: Tree, e: Ctx, m: Tree, k: int)
    requires t.Fork? && m.Fork? && m.left.Leaf?
    requires Fit(Append(e, Below(c, t, Right)), m, k)
    ensures var base := In(Right, m.node, t.black, t.left, c);
            var r := Plug(c, Fork(t.left, m.node, t.black, WithoutMin(e, m)));
            Plug(Append(e, base), Lifted(m.right, true)) == r &&
            if m.right.Leaf? && m.black then CtxRedBlack(Append(e, base), 1) else Balanced(r)
  {
    var base := In(Right, m.node, t.black, t.left, c);
    SpineFit(e, Below(c, t, Right), base, k);
    SpliceFit(Append(e, base), m, k, Right);
    PlugAppend(e, base, Lifted(m.right, true));
    if e.In? { assert Append(e, base).In?; }
  }

  /** Case 3, second half: the rest of the right subtree moves under the successor. */
  method TakeRight(node: Node, successor: Node, child: Node, ghost w: Tree)
    requires Rep(w, node.right, node) && child == node.right && Uniq(w)
    requires successor !in Nodes(w) && node != successor
    modifies successor, child
    ensures Rep(w, successor.right, successor) && successor.right == child && successor.left == old(successor.left)
  {
    RepRoot(w, child, node);
    RepFork(w, child, node);
    assert child !in Nodes(w.left) && child !in Nodes(w.right);
    hide Rep, Nodes, Uniq;
    successor.right := child;
    child.parent := successor;
    RepMk(Left, w.left, child, w.black, w.right);
  }

  /** Case 2: the successor is the right child itself; its own child turns black. */
  method KeepRight(successor: Node, ghost one: Tree)
    requires Rep(one, successor.right, successor) && Uniq(one) && successor !in Nodes(one)
    modifies if successor.right == null then {} else {successor.right}
    ensures Rep(Lifted(one, true), successor.right, successor)
  {
    var child2 := successor.right;
    RepRoot(one, child2, successor);
    if child2 != null {
      RepFork(one, child2, successor);
      child2.parent, child2.black := successor, true;
    }
  }

  /** Take the successor out of its old place and put it in the place of `node`. */
  method MoveSuccessor(node: Node, successor: Node, parent: Node, child: Node, isChild: bool, root: Root,
                       ghost c: Ctx, ghost t: Tree, ghost e: Ctx, ghost m: Tree)
    requires Focus(c, t, root, node, node.parent) && t.Fork? && t.left.Fork? && child == node.right
    requires m.Fork? && m.left.Leaf? && Plug(e, m) == t.right && LeftSpine(e) && (e.Top? <==> isChild)
    requires Focus(Append(e, Below(c, t, Right)), m, root, successor, parent)
    requires if e.In? then parent == e.node else successor == child
    modifies root, Nodes(t), CNodes(c)
    ensures Focus(c, Fork(t.left, successor, t.black, WithoutMin(e, m)), root, successor, old(node.parent))
  {
    hide Rep, CRep, Nodes, CNodes, Uniq, CUniq, LeftSpine, Below;
    ghost var base, w := Below(c, t, Right), WithoutMin(e, m);
    MoveReady(node, successor, parent, child, root, c, t, e, m);
    BelowFields(c, t);
    WithoutMinApart(c, t, e, m);
    MoveApart(c, t, e, m);
    NodesAllocated(t.left);
    CNodesAllocated(c);
    NodesAllocated(m.right);
    if isChild {
      KeepRight(successor, m.right);
    } else {
      Detach(successor, parent, successor.right, root, e, base, m);
      TakeRight(node, successor, child, w);
    }
    assert CRep(c, root, node, node.parent);
    assert Rep(t.left, node.left, node);
    Transplant(node, successor, root, c, t.left, w);
  }

  /** What the links say before the move. */
  lemma MoveReady(node: Node, successor: Node, parent: Node, child: Node, root: Root, c: Ctx, t: Tree, e: Ctx, m: Tree)
    requires Focus(c, t, root, node, node.parent) && t.Fork? && child == node.right && m.Fork? && Plug(e, m) == t.right
    requires Focus(Append(e, Below(c, t, Right)), m, root, successor, parent)
    ensures node == t.node && node.black == t.black && successor == m.node
    ensures CRep(c, root, node, node.parent) && Rep(t.left, node.left, node)
    ensures Rep(m.right, successor.right, successor) && (successor.right == null <==> m.right.Leaf?)
    ensures successor.right != null ==> successor.right == m.right.node
    ensures child in Nodes(t.right) && node in Nodes(t)
  {
    RepFork(t, node, node.parent);
    RepFork(m, successor, parent);
    RepRoot(m.right, successor.right, successor);
    RepRoot(t.right, child, node);
  }

  lemma BelowFields(c: Ctx, t: Tree)
    requires t.Fork?
    ensures Below(c, t, Right).In? && Below(c, t, Right).node == t.node && Below(c, t, Right).d == Right
  { }

  /** What moves lies inside the right subtree. */
  lemma MoveApart(c: Ctx, t: Tree, e: Ctx, m: Tree)
    requires Apart(c, t) && t.Fork? && m.Fork? && m.left.Leaf? && Plug(e, m) == t.right
    ensures Nodes(t) !! CNodes(c) && Nodes(t.right) !! CNodes(c) && Nodes(t.right) !! Nodes(t.left)
    ensures t.node !in Nodes(t.right) && Nodes(t.left) <= Nodes(t) && Nodes(t.right) <= Nodes(t)
    ensures m.node in Nodes(t.right) && Nodes(m.right) <= Nodes(t.right) && (e.In? ==> e.node in Nodes(t.right))
    ensures Uniq(m.right) && m.node !in Nodes(m.right)
    ensures m.right.Fork? ==> m.right.node in Nodes(m.right)
    ensures e.Top? ==> WithoutMin(e, m) == Lifted(m.right, true)
  {
    PlugApart(e, m);
    assert Nodes(m) == Nodes(m.left) + {m.node} + Nodes(m.right);
  }

  /** What the code reads off the successor, and what will be wanting in its old place. */
  lemma TwoFacts(c: Ctx, t: Tree, e: Ctx, m: Tree, k: int, root: Root, successor: Node, parent: Node?)
    requires t.Fork? && Apart(c, t) && m.Fork? && m.left.Leaf? && Plug(e, m) == t.right
    requires Focus(Append(e, Below(c, t, Right)), m, root, successor, parent)
    requires Fit(Append(e, Below(c, t, Right)), m, k)
    ensures successor == m.node && successor.black == m.black && (successor.right == null <==> m.right.Leaf?)
    ensures var t' := Fork(t.left, successor, t.black, WithoutMin(e, m));
            Nodes(t') <= Nodes(t) && Nodes(t') + CNodes(c) == Nodes(t) + CNodes(c) - {t.node} && (m.right.Leaf? ==> t'.right == Plug(e, Leaf)) &&
            if m.right.Leaf? && m.black then CtxRedBlack(Append(e, Below(c, t', Right)), 1)
            else Balanced(Plug(c, t'))
  {
    RepFork(m, successor, parent);
    RepRoot(m.right, successor.right, successor);
    WithoutMinApart(c, t, e, m);
    WithoutMinNodes(e, m);
    WithoutMinFit(c, t, e, m, k);
    assert Nodes(t) == Nodes(t.left) + {t.node} + Nodes(t.right);
    assert Nodes(t) !! CNodes(c) && t.node !in Nodes(t.left) && t.node !in Nodes(t.right);
  }

  lemma {:induction false} AppendNodes(e: Ctx, base: Ctx)
    ensures CNodes(Append(e, base)) == CNodes(e) + CNodes(base)
  {
    if e.In? { AppendNodes(e.up, base); }
  }

  /** The hole the successor left behind, seen from the rebalancing loop. */
  lemma HoleAfter(c: Ctx, t': Tree, e: Ctx, root: Root, successor: Node, p: Node?)
    requires t'.Fork? && t'.right == Plug(e, Leaf) && Focus(c, t', root, successor, p)
    ensures var hole := Append(e, Below(c, t', Right));
            Focus(hole, Leaf, root, null, if e.In? then e.node else successor) &&
            CNodes(hole) == Nodes(t') + CNodes(c) && Before(hole) + After(hole) == Inorder(Plug(c, t'))
  {
    var base := Below(c, t', Right);
    Descend(c, t', root, successor, p, Right);
    var n', p' := OpenSpine(e, base, Leaf, root, successor.right, successor);
    RepRoot(Leaf, n', p');
    AppendNodes(e, base);
    PlugApart(e, Leaf);
    PlugAppend(e, base, Leaf);
    HoleStart(Append(e, base));
  }

  /** Cases 2 and 3: the successor takes the place of a node with two children. */
  method EraseTwo(node: Node, root: Root, ghost c: Ctx, ghost t: Tree, ghost h: int) returns (ghost r: Tree)
    requires Focus(c, t, root, node, node.parent) && t.Fork? && t.left.Fork? && t.right.Fork? && Fit(c, t, h)
    modifies root, Nodes(t), CNodes(c)
    ensures Linked(r, root) && Nodes(r) == Nodes(t) + CNodes(c) - {node}
    ensures Inorder(r) == Before(c) + Inorder(t.left) + Inorder(t.right) + After(c)
  {
    ghost var p := node.parent;
    RightChild(c, t, root, node, h);
    NodesAllocated(t);
    CNodesAllocated(c);
    var child := node.right;
    hide Rep, CRep, Nodes, CNodes, Uniq, CUniq, Inorder, RedBlack, CtxRedBlack, Plug, Balanced, Before, After;
    hide LeftSpine, Append, WithoutMin, Fit;
    var successor, parent, e, m, k := Successor(child, root, Below(c, t, Right), t.right, if t.black then h - 1 else h);
    TwoFacts(c, t, e, m, k, root, successor, parent);
    WithoutMinOrder(c, t, e, m);
    var wasBlack, child2, isChild := successor.black, successor.right, child.left == null;
    MoveSuccessor(node, successor, parent, child, isChild, root, c, t, e, m);
    if isChild { parent := successor; }
    ghost var t' := Fork(t.left, successor, t.black, WithoutMin(e, m));
    if child2 == null && wasBlack {
      HoleAfter(c, t', e, root, successor, p);
      r := EraseColor(parent, root, Append(e, Below(c, t', Right)));
    } else {
      r := Plug(c, t');
      Close(c, t', root, successor, p);
    }
  }

  lemma RightChild(c: Ctx, t: Tree, root: Root, node: Node, h: int)
    requires Focus(c, t, root, node, node.parent) && t.Fork? && t.right.Fork? && Fit(c, t, h)
    ensures node == t.node && node.right != null && node.right.parent == node
    ensures Focus(Below(c, t, Right), t.right, root, node.right, node)
    ensures Fit(Below(c, t, Right), t.right, if t.black then h - 1 else h)
    ensures Apart(c, t)
  {
    Descend(c, t, root, node, node.parent, Right);
    DescendFit(c, t, h, Right);
    RepRoot(t.right, node.right, node);
    RepFork(t.right, node.right, node);
  }

  /** The focus at `node`, with the order of everything else around it. */
  lemma EraseStart(node: Node, root: Root, t: Tree)
      returns (c: Ctx, s: Tree, h: int, before: seq<Node>, after: seq<Node>)
    requires Linked(t, root) && node in Nodes(t)
    ensures Focus(c, s, root, node, node.parent) && s.Fork? && Fit(c, s, h) && Nodes(t) == Nodes(s) + CNodes(c)
    ensures (node.left == null <==> s.left.Leaf?) && (node.right == null <==> s.right.Leaf?)
    ensures Inorder(t) == before + [node] + after
    ensures before + after == Before(c) + Inorder(s.left) + Inorder(s.right) + After(c)
    ensures s.left.Leaf? ==> before + after == Before(c) + Inorder(s.right) + After(c)
    ensures s.right.Leaf? ==> before + after == Before(c) + Inorder(s.left) + After(c)
  {
    c, s, h := Locate(t, root, node);
    PlugInorder(c, s);
    PlugApart(c, s);
    RepFork(s, node, node.parent);
    RepRoot(s.left, node.left, node);
    RepRoot(s.right, node.right, node);
    before, after := Before(c) + Inorder(s.left), Inorder(s.right) + After(c);
    assert Before(c) + Inorder(s) + After(c) == before + [node] + after;
    assert s.left.Leaf? ==> Before(c) + Inorder(s.left) == Before(c);
    assert s.right.Leaf? ==> Inorder(s.right) + After(c) == After(c);
  }

  /** rb_erase: exactly `node` leaves the tree; the order of the others and every
      red-black rule are kept. */
  method Erase(node: Node, root: Root, ghost t: Tree)
      returns (ghost r: Tree, ghost before: seq<Node>, ghost after: seq<Node>)
    requires Linked(t, root) && node in Nodes(t)
    modifies root, Nodes(t)
    ensures Linked(r, root) && Nodes(r) == Nodes(t) - {node}
    ensures Inorder(t) == before + [node] + after && Inorder(r) == before + after
  {
    ghost var c, s, h, b, a := EraseStart(node, root, t);
    before, after := b, a;
    hide *;
    if node.left == null {
      r := EraseOne(Right, node, root, c, s, h);
    } else if node.right == null {
      r := EraseOne(Left, node, root, c, s, h);
    } else {
      r := EraseTwo(node, root, c, s, h);
    }
  }
}
