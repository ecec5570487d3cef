/** Walking a linked tree without a stack (util/rbtree.c): rb_first, rb_last, rb_next,
    rb_prev and the postorder walk.  rb_next is Step(Right), rb_prev is Step(Left). */
module RbWalk {
  import opened RbTreeShape
  import opened RbErase

  /** The end of `s` that a walk towards side `d` meets first. */
  function Nearest(s: seq<Node>, d: Side): Node? {
    if s == [] then null else if d == Right then s[0] else s[|s| - 1]
  }

  /** `n` is what follows `x` in `s` on side `d`, null at the end. */
  predicate NextTo(s: seq<Node>, x: Node, d: Side, n: Node?) {
    x in s &&
    forall i :: 0 <= i < |s| && s[i] == x ==> n == if d == Right then Nearest(s[i + 1..], d) else Nearest(s[..i], d)
  }

  /** A node met only once has one neighbour on each side. */
  lemma NextToSplit(s: seq<Node>, before: seq<Node>, x: Node, after: seq<Node>, d: Side, n: Node?)
    requires s == before + [x] + after && Once(s)
    requires n == if d == Right then Nearest(after, d) else Nearest(before, d)
    ensures NextTo(s, x, d, n)
  {
    var k := |before|;
    assert s[k] == x && s[..k] == before && s[k + 1..] == after;
  }

  predicate Once(s: seq<Node>) {
    forall i, j :: 0 <= i < j < |s| ==> s[i] != s[j]
  }

  function Elems(s: seq<Node>): set<Node> {
    set x | x in s
  }

  lemma OnceJoin(a: seq<Node>, b: seq<Node>)
    requires Once(a) && Once(b) && Elems(a) !! Elems(b)
    ensures Once(a + b) && Elems(a + b) == Elems(a) + Elems(b)
  {
    forall i, j | 0 <= i < j < |a + b| ensures (a + b)[i] != (a + b)[j] {
      if i < |a| <= j { assert a[i] in Elems(a) && b[j - |a|] in Elems(b); }
    }
  }

  /** The walks meet every node of a tree, and none twice. */
  lemma {:induction false} WalksOnce(t: Tree)
    requires Uniq(t)
    ensures Once(Inorder(t)) && Elems(Inorder(t)) == Nodes(t)
    ensures Once(Postorder(t)) && Elems(Postorder(t)) == Nodes(t)
  {
    if t.Fork? {
      WalksOnce(t.left);
      WalksOnce(t.right);
      assert Elems([t.node]) == {t.node};
      OnceJoin(Inorder(t.left), [t.node]);
      OnceJoin(Inorder(t.left) + [t.node], Inorder(t.right));
      OnceJoin(Postorder(t.left), Postorder(t.right));
      OnceJoin(Postorder(t.left) + Postorder(t.right), [t.node]);
    }
  }

  /** What lies beyond a hole, on side `d` of it. */
  function Beyond(c: Ctx, d: Side): seq<Node> {
    if d == Right then After(c) else Before(c)
  }

  lemma BeyondUp(c: Ctx, d: Side)
    requires c.In?
    ensures c.d == d ==> Beyond(c, d) == Beyond(c.up, d)
    ensures c.d != d ==> Nearest(Beyond(c, d), d) == c.node
  { }

  /** The extreme node of a subtree, found by going down one side. */
  method Deepest(start: Node, d: Side, ghost t: Tree, ghost p: Node?) returns (n: Node)
    requires Rep(t, start, p)
    ensures Inorder(t) != [] && n == Nearest(Inorder(t), Other(d))
  {
    n := start;
    ghost var m, q := t, p;
    RepRoot(m, n, q);
    RepFork(m, n, q);
    while n.Child(d) != null
      invariant Rep(m, n, q) && m.Fork? && Nearest(Inorder(m), Other(d)) == Nearest(Inorder(t), Other(d))
      decreases m
    {
      RepFork(m, n, q);
      RepRoot(Sub(m, d), n.Child(d), n);
      m, q, n := Sub(m, d), n, n.Child(d);
    }
    RepFork(m, n, q);
    RepRoot(Sub(m, d), null, n);
  }

  /** rb_first is End(Left), rb_last is End(Right). */
  method End(d: Side, root: Root, ghost t: Tree) returns (n: Node?)
    requires Linked(t, root)
    ensures n == Nearest(Inorder(t), Other(d))
  {
    n := root.node;
    RepRoot(t, n, null);
    if n != null { n := Deepest(n, d, t, null); }
  }

  /** The neighbour of `node` on side `d` in the in-order sequence, or null at its end. */
  method Step(d: Side, node: Node, root: Root, ghost t: Tree)
      returns (next: Node?)
    requires Linked(t, root) && node in Nodes(t)
    ensures NextTo(Inorder(t), node, d, next)
  {
    hide NextTo, Once, Elems, Plug, Balanced, CUniq, CNodes;
    ghost var c, s, h, before, after := StepStart(node, root, t);
    WalksOnce(t);
    NextToSplit(Inorder(t), before, node, after, d, Nearest(if d == Right then after else before, d));
    RepFork(s, node, node.parent);
    RepRoot(Sub(s, d), node.Child(d), node);
    if node.Child(d) != null {
      next := Deepest(node.Child(d), Other(d), Sub(s, d), node);
      return;
    }
    var n := node;
    next := n.parent;
    ghost var goal := Nearest(Beyond(c, d), d);
    CRepParent(c, root, n, next);
    if c.In? { CRepUp(c, root, n, next); SiblingDiffers(c, root, n, next, s); }
    while next != null && n == next.Child(d)
      invariant CRep(c, root, n, next) && (next == null <==> c.Top?) && Nearest(Beyond(c, d), d) == goal
      invariant Apart(c, s) && s.Fork? && s.node == n
      decreases c
    {
      SiblingDiffers(c, root, n, next, s);
      BeyondUp(c, d);
      UpApart(c, s);
      CRepUp(c, root, n, next);
      s := Mk(c.d, s, c.node, c.black, c.sib);
      c := c.up;
      n := next;
      next := n.parent;
      CRepParent(c, root, n, next);
    }
    if c.In? {
      SiblingDiffers(c, root, n, next, s);
      BeyondUp(c, d);
    }
  }

  lemma UpApart(c: Ctx, s: Tree)
    requires Apart(c, s) && c.In?
    ensures Apart(c.up, Mk(c.d, s, c.node, c.black, c.sib))
  {
    ApartUp(c.d, c.node, c.black, c.sib, c.up, s);
  }

  /** Comparing a node with its parent's child tells which side it hangs on. */
  lemma SiblingDiffers(c: Ctx, root: Root, n: Node, p: Node?, s: Tree)
    requires CRep(c, root, n, p) && c.In? && Apart(c, s) && s.Fork? && s.node == n
    ensures p == c.node && p.Child(c.d) == n && p.Child(Other(c.d)) != n
  {
    CRepUp(c, root, n, p);
    RepRoot(c.sib, p.Child(Other(c.d)), p);
  }

  lemma StepStart(node: Node, root: Root, t: Tree)
      returns (c: Ctx, s: Tree, h: int, before: seq<Node>, after: seq<Node>)
    requires Linked(t, root) && node in Nodes(t)
    ensures Focus(c, s, root, node, node.parent) && s.Fork? && s.node == node && Plug(c, s) == t
    ensures Inorder(t) == before + [node] + after
    ensures before == Before(c) + Inorder(s.left) && after == Inorder(s.right) + After(c)
  {
    c, s, h := Locate(t, root, node);
    PlugInorder(c, s);
    before, after := Before(c) + Inorder(s.left), Inorder(s.right) + After(c);
    assert Before(c) + Inorder(s) + After(c) == before + [node] + after;
  }

  // -------------------------------------------------------------- postorder

  function Postorder(t: Tree): seq<Node> {
    match t
    case Leaf => []
    case Fork(l, x, _, r) => Postorder(l) + Postorder(r) + [x]
  }

  /** What a postorder walk visits after the subtree in the hole. */
  function PostAfter(c: Ctx): seq<Node> {
    match c
    case Top => []
    case In(d, x, _, sib, up) => (if d == Left then Postorder(sib) else []) + [x] + PostAfter(up)
  }

  function PostBefore(c: Ctx): seq<Node> {
    match c
    case Top => []
    case In(d, _, _, sib, up) => PostBefore(up) + if d == Left then [] else Postorder(sib)
  }

  lemma {:induction false} PlugPostorder(c: Ctx, t: Tree)
    ensures Postorder(Plug(c, t)) == PostBefore(c) + Postorder(t) + PostAfter(c)
  {
    if c.In? {
      PlugPostorder(c.up, Mk(c.d, t, c.node, c.black, c.sib));
      if c.d == Left {
        Spread(PostBefore(c.up), Postorder(t), Postorder(c.sib), [c.node], PostAfter(c.up));
        assert PostBefore(c.up) + [] == PostBefore(c.up);
      } else {
        Spread(PostBefore(c.up), Postorder(c.sib), Postorder(t), [c.node], PostAfter(c.up));
        assert [] + [c.node] == [c.node];
      }
    }
  }

  lemma Spread(a: seq<Node>, b: seq<Node>, c: seq<Node>, d: seq<Node>, e: seq<Node>)
    ensures a + (b + c + d) + e == a + b + (c + d + e) == (a + b) + c + (d + e)
  { }

  /** rb_left_deepest_node: the first node a postorder walk of this subtree visits. */
  method LeftDeepest(start: Node, ghost t: Tree, ghost p: Node?) returns (n: Node)
    requires Rep(t, start, p)
    ensures Postorder(t) != [] && n == Postorder(t)[0]
  {
    n := start;
    ghost var m, q := t, p;
    RepRoot(m, n, q);
    while true
      invariant Rep(m, n, q) && m.Fork? && Postorder(t) != [] && Postorder(t)[0] == Postorder(m)[0]
      decreases m
    {
      RepFork(m, n, q);
      RepRoot(m.left, n.left, n);
      RepRoot(m.right, n.right, n);
      if n.left != null {
        m, q, n := m.left, n, n.left;
      } else if n.right != null {
        m, q, n := m.right, n, n.right;
      } else {
        return;
      }
    }
  }

  /** rb_next_postorder: the node visited right after `node`, which comes after its children. */
  method NextPostorder(node: Node, root: Root, ghost t: Tree)
      returns (next: Node?)
    requires Linked(t, root) && node in Nodes(t)
    ensures NextTo(Postorder(t), node, Right, next)
  {
    ghost var c, s, h, b, a := StepStart(node, root, t);
    PlugPostorderAt(c, s, t);
    ghost var before, after := PostBefore(c) + (Postorder(s.left) + Postorder(s.right)), PostAfter(c);
    WalksOnce(t);
    NextToSplit(Postorder(t), before, node, after, Right, Nearest(after, Right));
    var parent := node.parent;
    CRepParent(c, root, node, parent);
    if parent == null { return null; }
    SiblingDiffers(c, root, node, parent, s);
    CRepUp(c, root, node, parent);
    RepRoot(c.sib, parent.Child(Other(c.d)), parent);
    if node == parent.left && parent.right != null {
      next := LeftDeepest(parent.right, c.sib, parent);
    } else {
      next := parent;
    }
  }

  lemma PlugPostorderAt(c: Ctx, s: Tree, t: Tree)
    requires Plug(c, s) == t && s.Fork?
    ensures Postorder(t) == PostBefore(c) + (Postorder(s.left) + Postorder(s.right)) + [s.node] + PostAfter(c)
  {
    hide Plug, PostBefore, PostAfter;
    PlugPostorder(c, s);
    var b, w, a := PostBefore(c), Postorder(s.left) + Postorder(s.right), PostAfter(c);
    assert b + (w + [s.node]) + a == (b + w) + [s.node] + a;
  }
}
