/** The pointer surgery both rebalancing loops share (util/rbtree.c): one rotation over
    linked nodes with parent pointers.  The program writes each case twice, once per mirror
    image; here a case takes the side `d`, and d == Left is the first copy verbatim. */
module RbRotate {
  import opened RbTreeShape

  /** Make `parent` (or the root, if there is none) point at `to` where it pointed at `from`. */
  method ChangeChild(from: Node, to: Node?, parent: Node?, root: Root, ghost c: Ctx)
    requires CRep(c, root, from, parent) && CUniq(c) && from !in CNodes(c)
    modifies root, if parent == null then {} else {parent}
    ensures CRep(c, root, to, parent)
    ensures parent != null ==> parent.parent == old(parent.parent) && parent.black == old(parent.black)
  {
    if parent != null {
      assert c.In?;
      RepRoot(c.sib, parent.Child(Other(c.d)), parent);
      if parent.left == from { parent.left := to; } else { parent.right := to; }
    } else {
      root.node := to;
    }
  }

  /** `to` takes over the parent and colour of `from`, which becomes its child in `color`. */
  method RotateSetParents(from: Node, to: Node, root: Root, color: bool, ghost c: Ctx)
    requires CRep(c, root, from, from.parent) && CUniq(c)
    requires from !in CNodes(c) && to !in CNodes(c) && from != to
    modifies root, from, to, if from.parent == null then {} else {from.parent}
    ensures CRep(c, root, to, to.parent)
    ensures to.parent == old(from.parent) && to.black == old(from.black)
    ensures from.parent == to && from.black == color
    ensures from.left == old(from.left) && from.right == old(from.right)
    ensures to.left == old(to.left) && to.right == old(to.right)
  {
    var parent := from.parent;
    assert parent != null ==> c.In? && parent in CNodes(c);
    to.parent, to.black := from.parent, from.black;
    from.parent, from.black := to, color;
    ChangeChild(from, to, parent, root, c);
  }

  /** rb_set_parent_color on a possibly missing subtree that keeps its colour. */
  method Reparent(x: Node?, p: Node, black: bool, ghost t: Tree, ghost q: Node?)
    requires Rep(t, x, q) && Uniq(t)
    requires t.Fork? ==> t.black == black
    modifies if x == null then {} else {x}
    ensures Rep(t, x, p)
    ensures x != null ==> x.left == old(x.left) && x.right == old(x.right)
  {
    if x != null {
      x.parent, x.black := p, black;
    }
  }

  /** `x` occurs in neither of two trees nor in a context. */
  predicate Outside(x: Node?, a: Tree, b: Tree, up: Ctx) {
    x != null ==> x !in Nodes(a) && x !in Nodes(b) && x !in CNodes(up)
  }

  /** What a rotation needs to be separate. */
  predicate Apart3(parent: Node, gparent: Node, near: Tree, mid: Tree, u: Tree, up: Ctx) {
    && CUniq(up) && Uniq(mid) && parent != gparent
    && Outside(parent, near, u, up) && parent !in Nodes(mid)
    && Outside(gparent, near, u, up) && gparent !in Nodes(mid)
    && Nodes(mid) !! Nodes(near) && Nodes(mid) !! Nodes(u) && Nodes(mid) !! CNodes(up)
    && Nodes(near) !! CNodes(up) && Nodes(u) !! CNodes(up) && Nodes(near) !! Nodes(u)
  }

  lemma Apart3Of(d: Side, parent: Node, gparent: Node, near: Tree, mid: Tree, u: Tree, up: Ctx, k1: bool, k2: bool)
    requires Apart(up, Mk(d, near, parent, k1, Mk(d, mid, gparent, k2, u)))
    ensures Apart3(parent, gparent, near, mid, u, up)
  {
    var r := Mk(d, mid, gparent, k2, u);
    assert Nodes(r) == Nodes(mid) + {gparent} + Nodes(u);
    assert Nodes(Mk(d, near, parent, k1, r)) == Nodes(near) + {parent} + Nodes(r);
    assert Uniq(r) && parent !in Nodes(r) && parent !in Nodes(near) && Nodes(r) !! Nodes(near);
  }

  /** One rotation, away from side `d`: `parent`, hanging on side `d` of `gparent`, takes
      its place and colour; `gparent` gets `color` and, as its child on side `d`, the
      inner subtree, whose root keeps its colour `kept`. */
  method Rotate(d: Side, parent: Node, gparent: Node, root: Root, color: bool, kept: bool,
                ghost near: Tree, ghost mid: Tree, ghost u: Tree, ghost up: Ctx)
    requires Apart3(parent, gparent, near, mid, u, up) && (mid.Fork? ==> mid.black == kept)
    requires Rep(near, parent.Child(d), parent) && Rep(u, gparent.Child(Other(d)), gparent)
    requires Rep(mid, parent.Child(Other(d)), parent) && CRep(up, root, gparent, gparent.parent)
    modifies root, parent, gparent, Nodes(mid), CNodes(up)
    ensures Rep(Mk(d, near, parent, old(gparent.black), Mk(d, mid, gparent, color, u)), parent, parent.parent)
    ensures CRep(up, root, parent, parent.parent)
    ensures parent.parent == old(gparent.parent)
  {
    var tmp := parent.Child(Other(d));
    RepRoot(mid, tmp, parent);
    CRepParent(up, root, gparent, gparent.parent);
    Disjoint(tmp, mid, near, u, up);
    assert tmp != null ==> tmp !in CNodes(up);
    hide Rep, CRep, Nodes, CNodes, Uniq, CUniq;
    RotateLinks(d, parent, gparent, tmp, root, color, kept, near, mid, u, up);
    RepMk(d, mid, gparent, color, u);
    RepMk(d, near, parent, old(gparent.black), Mk(d, mid, gparent, color, u));
  }

  lemma Disjoint(x: Node?, mid: Tree, near: Tree, u: Tree, up: Ctx)
    requires x != null ==> x in Nodes(mid)
    requires Nodes(mid) !! Nodes(near) && Nodes(mid) !! Nodes(u) && Nodes(mid) !! CNodes(up)
    ensures Outside(x, near, u, up)
  { }

  method RotateLinks(d: Side, parent: Node, gparent: Node, tmp: Node?, root: Root, color: bool, kept: bool,
                     ghost near: Tree, ghost mid: Tree, ghost u: Tree, ghost up: Ctx)
    requires parent != gparent && tmp != parent && tmp != gparent && (tmp != null ==> gparent.parent != tmp)
    requires Outside(parent, near, u, up) && Outside(gparent, near, u, up) && Outside(tmp, near, u, up)
    requires parent !in Nodes(mid) && gparent !in Nodes(mid)
    requires gparent.parent != null ==>
               gparent.parent !in Nodes(near) && gparent.parent !in Nodes(u) && gparent.parent !in Nodes(mid)
    requires gparent.parent != parent && gparent.parent != gparent
    requires CUniq(up) && Uniq(mid) && (mid.Fork? ==> mid.black == kept)
    requires Rep(near, parent.Child(d), parent) && Rep(u, gparent.Child(Other(d)), gparent)
    requires tmp == parent.Child(Other(d)) && Rep(mid, tmp, parent)
    requires CRep(up, root, gparent, gparent.parent)
    modifies root, parent, gparent, if tmp == null then {} else {tmp}
    modifies if gparent.parent == null then {} else {gparent.parent}
    ensures Rep(near, parent.Child(d), parent) && Rep(mid, gparent.Child(d), gparent)
    ensures Rep(u, gparent.Child(Other(d)), gparent) && CRep(up, root, parent, parent.parent)
    ensures parent.Child(Other(d)) == gparent && gparent.parent == parent
    ensures parent.black == old(gparent.black) && gparent.black == color && parent.parent == old(gparent.parent)
  {
    hide Rep, CRep, Nodes, CNodes, Uniq, CUniq;
    CNodesAllocated(up);
    NodesAllocated(near);
    NodesAllocated(mid);
    NodesAllocated(u);
    gparent.SetChild(d, tmp);
    parent.SetChild(Other(d), gparent);
    Reparent(tmp, gparent, kept, mid, parent);
    RotateSetParents(gparent, parent, root, color, up);
  }
}
