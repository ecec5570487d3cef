/** What a linked red-black tree in memory means: a tree value, its in-order sequence,
    its colour rules, and the context (zipper) around a position in it. */
module RbTreeShape {

  datatype Side = Left | Right

  function Other(d: Side): Side { if d == Left then Right else Left }

  /** A tree node with the half-open interval [low, high) that the interval trees key on
      (include/kvm/rbtree-interval.h).  Parent pointer and colour share one word in the
      program; here they are two fields. */
  class Node {
    const low: nat
    const high: nat
    var left: Node?
    var right: Node?
    var parent: Node?
    var black: bool

    constructor (low: nat, high: nat)
      ensures this.low == low && this.high == high
    {
      this.low, this.high := low, high;
      left, right, parent, black := null, null, null, false;
    }

    function Child(d: Side): Node?
      reads `left, `right
    {
      if d == Left then left else right
    }

    method SetChild(d: Side, x: Node?)
      modifies this
      ensures Child(d) == x && Child(Other(d)) == old(Child(Other(d)))
      ensures parent == old(parent) && black == old(black)
    {
      if d == Left { left := x; } else { right := x; }
    }
  }

  class Root {
    var node: Node?

    constructor ()
      ensures node == null
    {
      node := null;
    }
  }

  // ------------------------------------------------------------- tree values

  datatype Tree = Leaf | Fork(left: Tree, node: Node, black: bool, right: Tree)

  /** A fork whose subtree on side `d` is `near`; the mirror images share this. */
  function Mk(d: Side, near: Tree, x: Node, black: bool, far: Tree): Tree {
    if d == Left then Fork(near, x, black, far) else Fork(far, x, black, near)
  }

  function Sub(t: Tree, d: Side): Tree
    requires t.Fork?
  {
    if d == Left then t.left else t.right
  }

  function Nodes(t: Tree): set<Node> {
    match t
    case Leaf => {}
    case Fork(l, x, _, r) => Nodes(l) + {x} + Nodes(r)
  }

  function Inorder(t: Tree): seq<Node> {
    match t
    case Leaf => []
    case Fork(l, x, _, r) => Inorder(l) + [x] + Inorder(r)
  }

  predicate Uniq(t: Tree) {
    match t
    case Leaf => true
    case Fork(l, x, _, r) =>
      x !in Nodes(l) && x !in Nodes(r) && Nodes(l) !! Nodes(r) && Uniq(l) && Uniq(r)
  }

  predicate BlackRoot(t: Tree) {
    t.Leaf? || t.black
  }

  /** Every path down to a leaf crosses `h` black nodes, and no red node has a red child. */
  predicate RedBlack(t: Tree, h: int) {
    match t
    case Leaf => h == 0
    case Fork(l, _, black, r) =>
      if black then RedBlack(l, h - 1) && RedBlack(r, h - 1)
      else RedBlack(l, h) && RedBlack(r, h) && BlackRoot(l) && BlackRoot(r)
  }

  ghost predicate Balanced(t: Tree) {
    BlackRoot(t) && exists h :: RedBlack(t, h)
  }

  // ---------------------------------------------------------------- contexts

  /** The tree around a hole: the hole hangs on side `d` of `node`, opposite `sib`. */
  datatype Ctx = Top | In(d: Side, node: Node, black: bool, sib: Tree, up: Ctx)

  function Plug(c: Ctx, t: Tree): Tree {
    match c
    case Top => t
    case In(d, x, black, sib, up) => Plug(up, Mk(d, t, x, black, sib))
  }

  function CNodes(c: Ctx): set<Node> {
    match c
    case Top => {}
    case In(_, x, _, sib, up) => {x} + Nodes(sib) + CNodes(up)
  }

  predicate CUniq(c: Ctx) {
    match c
    case Top => true
    case In(_, x, _, sib, up) =>
      x !in Nodes(sib) && x !in CNodes(up) && Nodes(sib) !! CNodes(up) && Uniq(sib) && CUniq(up)
  }

  /** The in-order sequence before and after the hole. */
  function Before(c: Ctx): seq<Node> {
    match c
    case Top => []
    case In(d, x, _, sib, up) => if d == Left then Before(up) else Before(up) + Inorder(sib) + [x]
  }

  function After(c: Ctx): seq<Node> {
    match c
    case Top => []
    case In(d, x, _, sib, up) => if d == Left then [x] + Inorder(sib) + After(up) else After(up)
  }

  predicate BlackTop(c: Ctx) {
    c.In? && c.black
  }

  /** The colour rules hold around a hole that wants black height `h`; only the colours of
      the hole and of the node right above it are left to be matched. */
  predicate CtxRedBlack(c: Ctx, h: int) {
    match c
    case Top => true
    case In(_, _, black, sib, up) =>
      && RedBlack(sib, h)
      && (if black then CtxRedBlack(up, h + 1)
          else BlackRoot(sib) && BlackTop(up) && CtxRedBlack(up, h))
  }

  lemma {:induction false} PlugInorder(c: Ctx, t: Tree)
    ensures Inorder(Plug(c, t)) == Before(c) + Inorder(t) + After(c)
  {
    match c
    case Top =>
    case In(d, x, black, sib, up) =>
      PlugInorder(up, Mk(d, t, x, black, sib));
      if d == Left {
        Regroup(Before(up), Inorder(t), [x], Inorder(sib), After(up));
      } else {
        Regroup(Before(up), Inorder(sib), [x], Inorder(t), After(up));
      }
  }

  lemma PlugSame(c: Ctx, t: Tree, r: Tree)
    requires Inorder(t) == Inorder(r)
    ensures Inorder(Plug(c, t)) == Inorder(Plug(c, r))
  {
    PlugInorder(c, t);
    PlugInorder(c, r);
  }

  lemma Regroup(a: seq<Node>, b: seq<Node>, c: seq<Node>, d: seq<Node>, e: seq<Node>)
    ensures a + (b + c + d) + e == a + b + (c + d + e) == (a + b + c) + d + e
  { }

  /** A hole filled with a matching tree closes to a valid red-black tree. */
  lemma {:induction false} PlugBalanced(c: Ctx, t: Tree, h: int)
    requires RedBlack(t, h) && CtxRedBlack(c, h)
    requires BlackRoot(t) || BlackTop(c)
    ensures Balanced(Plug(c, t))
  {
    match c
    case Top =>
    case In(d, x, black, sib, up) =>
      PlugBalanced(up, Mk(d, t, x, black, sib), if black then h + 1 else h);
  }

  // ------------------------------------------------------------ memory layout

  /** `n`, hanging under `p`, is the root of a linked copy of `t`. */
  ghost predicate Rep(t: Tree, n: Node?, p: Node?)
    reads Nodes(t)
  {
    match t
    case Leaf => n == null
    case Fork(l, x, black, r) =>
      n == x && x.parent == p && x.black == black && Rep(l, x.left, x) && Rep(r, x.right, x)
  }

  /** The links around a hole holding `n`, whose parent is `p`. */
  ghost predicate CRep(c: Ctx, root: Root, n: Node?, p: Node?)
    reads root, CNodes(c)
  {
    match c
    case Top => root.node == n && p == null
    case In(d, x, black, sib, up) =>
      && p == x && x.Child(d) == n && x.black == black
      && Rep(sib, x.Child(Other(d)), x) && CRep(up, root, x, x.parent)
  }

  lemma {:induction false} PlugRep(c: Ctx, t: Tree, root: Root, n: Node?, p: Node?)
    requires Rep(t, n, p) && CRep(c, root, n, p)
    ensures Rep(Plug(c, t), root.node, null)
  {
    match c
    case Top =>
    case In(d, x, black, sib, up) => PlugRep(up, Mk(d, t, x, black, sib), root, x, x.parent);
  }

  /** No node occurs twice in Plug(c, t). */
  predicate Apart(c: Ctx, t: Tree) {
    Uniq(t) && CUniq(c) && Nodes(t) !! CNodes(c)
  }

  lemma ApartUp(d: Side, x: Node, black: bool, sib: Tree, up: Ctx, t: Tree)
    ensures Apart(In(d, x, black, sib, up), t) <==> Apart(up, Mk(d, t, x, black, sib))
    ensures Nodes(t) + CNodes(In(d, x, black, sib, up)) == Nodes(Mk(d, t, x, black, sib)) + CNodes(up)
  { }

  lemma {:induction false} PlugApart(c: Ctx, t: Tree)
    ensures Apart(c, t) <==> Uniq(Plug(c, t))
    ensures Nodes(Plug(c, t)) == Nodes(t) + CNodes(c)
  {
    match c
    case Top =>
    case In(d, x, black, sib, up) =>
      ApartUp(d, x, black, sib, up, t);
      PlugApart(up, Mk(d, t, x, black, sib));
  }

  /** The same nodes in the same order, each used once in the one iff in the other. */
  predicate Same(t: Tree, r: Tree) {
    Inorder(t) == Inorder(r) && Nodes(t) == Nodes(r) && (Uniq(t) <==> Uniq(r))
  }

  lemma RotOrder(a: Tree, x: Node, b: Tree, y: Node, c: Tree, k1: bool, k2: bool, k3: bool, k4: bool)
    ensures Inorder(Fork(Fork(a, x, k1, b), y, k2, c)) == Inorder(Fork(a, x, k3, Fork(b, y, k4, c)))
  {
    assert Inorder(Fork(Fork(a, x, k1, b), y, k2, c)) == (Inorder(a) + [x] + Inorder(b)) + [y] + Inorder(c);
    assert Inorder(Fork(a, x, k3, Fork(b, y, k4, c))) == Inorder(a) + [x] + (Inorder(b) + [y] + Inorder(c));
  }

  lemma RotNodes(a: Tree, x: Node, b: Tree, y: Node, c: Tree, k1: bool, k2: bool, k3: bool, k4: bool)
    ensures Nodes(Fork(Fork(a, x, k1, b), y, k2, c)) == Nodes(Fork(a, x, k3, Fork(b, y, k4, c)))
  {
    assert Nodes(Fork(Fork(a, x, k1, b), y, k2, c)) == (Nodes(a) + {x} + Nodes(b)) + {y} + Nodes(c);
    assert Nodes(Fork(a, x, k3, Fork(b, y, k4, c))) == Nodes(a) + {x} + (Nodes(b) + {y} + Nodes(c));
  }

  lemma RotUniq(a: Tree, x: Node, b: Tree, y: Node, c: Tree, k1: bool, k2: bool, k3: bool, k4: bool)
    ensures Uniq(Fork(Fork(a, x, k1, b), y, k2, c)) <==> Uniq(Fork(a, x, k3, Fork(b, y, k4, c)))
  {
    assert Nodes(Fork(a, x, k1, b)) == Nodes(a) + {x} + Nodes(b);
    assert Nodes(Fork(b, y, k4, c)) == Nodes(b) + {y} + Nodes(c);
  }

  /** A rotation, and any recolouring, keeps the order, the nodes and their separation. */
  lemma Rotation(d: Side, a: Tree, x: Node, b: Tree, y: Node, c: Tree, k1: bool, k2: bool, k3: bool, k4: bool)
    ensures Same(Mk(d, Mk(d, a, x, k1, b), y, k2, c), Mk(d, a, x, k3, Mk(d, b, y, k4, c)))
  {
    hide Nodes, Inorder, Uniq;
    if d == Left {
      RotOrder(a, x, b, y, c, k1, k2, k3, k4);
      RotNodes(a, x, b, y, c, k1, k2, k3, k4);
      RotUniq(a, x, b, y, c, k1, k2, k3, k4);
    } else {
      RotOrder(c, y, b, x, a, k4, k3, k2, k1);
      RotNodes(c, y, b, x, a, k4, k3, k2, k1);
      RotUniq(c, y, b, x, a, k4, k3, k2, k1);
    }
  }

  lemma SameUnder(d: Side, t: Tree, r: Tree, x: Node, k1: bool, k2: bool, u: Tree)
    requires Same(t, r)
    ensures Same(Mk(d, t, x, k1, u), Mk(d, r, x, k2, u))
  { }

  /** Memory holds the tree Plug(c, t), split at node `n` with parent `p`. */
  ghost predicate Focus(c: Ctx, t: Tree, root: Root, n: Node?, p: Node?)
    reads root, Nodes(t), CNodes(c)
  {
    Rep(t, n, p) && CRep(c, root, n, p) && Apart(c, t)
  }

  /** `root` holds a well-formed red-black tree: `t`. */
  ghost predicate Linked(t: Tree, root: Root)
    reads root, Nodes(t)
  {
    Rep(t, root.node, null) && Uniq(t) && Balanced(t)
  }

  /** Closing a focus on a fitting subtree gives a well-formed tree again. */
  lemma Close(c: Ctx, t: Tree, root: Root, n: Node?, p: Node?)
    requires Focus(c, t, root, n, p) && Balanced(Plug(c, t))
    ensures Linked(Plug(c, t), root) && Nodes(Plug(c, t)) == Nodes(t) + CNodes(c)
  {
    PlugRep(c, t, root, n, p);
    PlugApart(c, t);
  }

  lemma RepRoot(t: Tree, n: Node?, p: Node?)
    requires Rep(t, n, p)
    ensures n == null <==> t.Leaf?
    ensures n != null ==> n == t.node && n in Nodes(t)
  { }

  lemma RepFork(t: Tree, n: Node?, p: Node?)
    requires Rep(t, n, p) && t.Fork?
    ensures n == t.node && n.parent == p && n.black == t.black
    ensures Rep(t.left, n.left, n) && Rep(t.right, n.right, n)
  { }

  lemma RepMk(d: Side, near: Tree, x: Node, black: bool, far: Tree)
    requires Rep(near, x.Child(d), x) && Rep(far, x.Child(Other(d)), x) && x.black == black
    ensures Rep(Mk(d, near, x, black, far), x, x.parent)
  { }

  lemma CRepUp(c: Ctx, root: Root, n: Node?, p: Node?)
    requires CRep(c, root, n, p) && c.In?
    ensures p == c.node && p.Child(c.d) == n && p.black == c.black
    ensures Rep(c.sib, p.Child(Other(c.d)), p) && CRep(c.up, root, p, p.parent)
  { }

  lemma CRepParent(c: Ctx, root: Root, n: Node?, p: Node?)
    requires CRep(c, root, n, p)
    ensures p == null <==> c.Top?
    ensures p != null ==> p == c.node && p in CNodes(c)
  { }

  lemma NodesAllocated(t: Tree)
    ensures forall x <- Nodes(t) :: allocated(x)
  { }

  lemma CNodesAllocated(c: Ctx)
    ensures forall x <- CNodes(c) :: allocated(x)
  {
    if c.In? {
      NodesAllocated(c.sib);
      CNodesAllocated(c.up);
    }
  }
}
