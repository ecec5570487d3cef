/** The interval trees that dispatch trapped accesses (util/rbtree-interval.c), over the
    red-black tree: disjoint intervals in address order. */
module RbInterval {
  import opened RbTreeShape
  import opened RbInsert
  import opened RbErase

  /** `a` ends before `b` starts. */
  predicate Precedes(a: Node, b: Node) {
    a.high <= b.low
  }

  predicate Overlap(a: Node, b: Node) {
    !Precedes(a, b) && !Precedes(b, a)
  }

  predicate Contains(a: Node, point: nat) {
    a.low <= point < a.high
  }

  /** Intervals in address order; neighbours, and so all pairs, do not overlap. */
  predicate Ordered(s: seq<Node>) {
    && (forall i :: 0 <= i < |s| ==> s[i].low <= s[i].high)
    && (forall i, j :: 0 <= i < j < |s| ==> Precedes(s[i], s[j]))
  }

  lemma OrderedParts(a: seq<Node>, x: Node, b: seq<Node>)
    requires Ordered(a + [x] + b)
    ensures Ordered(a) && Ordered(b) && x.low <= x.high
    ensures forall y <- a :: Precedes(y, x)
    ensures forall y <- b :: Precedes(x, y)
  {
    var s := a + [x] + b;
    assert s[|a|] == x;
    forall i | 0 <= i < |a| ensures s[i] == a[i] { }
    forall i | 0 <= i < |b| ensures s[|a| + 1 + i] == b[i] { }
  }

  lemma OrderedJoin(a: seq<Node>, x: Node, b: seq<Node>)
    requires Ordered(a + b) && x.low <= x.high
    requires forall y <- a :: Precedes(y, x)
    requires forall y <- b :: Precedes(x, y)
    ensures Ordered(a + [x] + b)
  {
    var s, t := a + [x] + b, a + b;
    forall i | 0 <= i < |a| ensures s[i] == a[i] == t[i] { }
    forall i | 0 <= i < |b| ensures s[|a| + 1 + i] == b[i] == t[|a| + i] { }
    forall i, j | 0 <= i < j < |s| ensures Precedes(s[i], s[j]) {
      if i == |a| { assert s[j] == b[j - |a| - 1]; }
      if j == |a| { assert s[i] == a[i]; }
    }
  }

  /** The search goes one way only: everything on the other side misses the point. */
  lemma OneWay(t: Tree, point: nat)
    requires t.Fork? && Ordered(Inorder(t))
    ensures Ordered(Inorder(t.left)) && Ordered(Inorder(t.right)) && t.node in Inorder(t)
    ensures forall x <- Inorder(t.left) :: x in Inorder(t) && (Contains(x, point) ==> point < t.node.low)
    ensures forall x <- Inorder(t.right) :: x in Inorder(t) && (Contains(x, point) ==> t.node.high <= point)
    ensures forall x <- Inorder(t) :: x in Inorder(t.left) || x == t.node || x in Inorder(t.right)
  {
    OrderedParts(Inorder(t.left), t.node, Inorder(t.right));
  }

  /** The interval holding `point`, if there is one. */
  method SearchSingle(root: Root, point: nat, ghost t: Tree) returns (n: Node?)
    requires Linked(t, root) && Ordered(Inorder(t))
    ensures n != null ==> n in Inorder(t) && Contains(n, point)
    ensures n == null ==> forall x <- Inorder(t) :: !Contains(x, point)
  {
    var node := root.node;
    ghost var m, p: Node? := t, null;
    while node != null
      invariant Rep(m, node, p) && Ordered(Inorder(m))
      invariant forall x <- Inorder(m) :: x in Inorder(t)
      invariant forall x <- Inorder(t) :: Contains(x, point) ==> x in Inorder(m)
      decreases m
    {
      RepRoot(m, node, p);
      RepFork(m, node, p);
      OneWay(m, point);
      if point < node.low {
        m, p, node := m.left, node, node.left;
      } else if node.high <= point {
        m, p, node := m.right, node, node.right;
      } else {
        return node;
      }
    }
    RepRoot(m, node, p);
    return null;
  }

  /** The interval in which the whole of [low, high) lies; `null` if there is none. */
  method SearchRange(root: Root, low: nat, high: nat, ghost t: Tree) returns (n: Node?)
    requires Linked(t, root) && Ordered(Inorder(t)) && low < high
    ensures n != null ==> n in Inorder(t) && n.low <= low && high <= n.high
    ensures n == null ==> forall x <- Inorder(t) :: !(x.low <= low && high <= x.high)
  {
    n := SearchSingle(root, low, t);
    if n != null && n.high < high {
      OrderedContains(Inorder(t), n, low);
      return null;
    }
  }

  /** At most one interval holds a given point. */
  lemma OrderedContains(s: seq<Node>, x: Node, point: nat)
    requires Ordered(s) && x in s && Contains(x, point)
    ensures forall y <- s :: Contains(y, point) ==> y == x
  {
    var i :| 0 <= i < |s| && s[i] == x;
    forall y <- s | Contains(y, point) ensures y == x {
      var j :| 0 <= j < |s| && s[j] == y;
      assert !Precedes(x, y) && !Precedes(y, x);
    }
  }

  /** Closing the search at a missing link: `x` fits between what lies left and right. */
  predicate FitsBetween(c: Ctx, x: Node) {
    (forall y <- Before(c) :: Precedes(y, x)) && (forall y <- After(c) :: Precedes(x, y))
  }

  lemma FitsBelow(c: Ctx, t: Tree, x: Node, d: Side)
    requires t.Fork? && FitsBetween(c, x) && Ordered(Inorder(t)) && x.low <= x.high
    requires if d == Left then Precedes(x, t.node) else Precedes(t.node, x)
    ensures FitsBetween(Below(c, t, d), x) && Ordered(Inorder(Sub(t, d)))
  {
    OrderedParts(Inorder(t.left), t.node, Inorder(t.right));
  }

  /** rb_link_node: hang `data`, red and childless, in the empty place under `parent`. */
  method Link(data: Node, parent: Node?, d: Side, root: Root, ghost c: Ctx)
    requires Focus(c, Leaf, root, null, parent) && data !in CNodes(c)
    requires c.In? ==> d == c.d
    modifies root, data, if parent == null then {} else {parent}
    ensures Focus(c, Fork(Leaf, data, false, Leaf), root, data, parent) && data.parent == parent
  {
    CRepParent(c, root, null, parent);
    if c.In? { CRepUp(c, root, null, parent); }
    CNodesAllocated(c);
    if c.In? { NodesAllocated(c.sib); CNodesAllocated(c.up); }
    data.parent, data.black, data.left, data.right := parent, false, null, null;
    if parent == null { root.node := data; } else { parent.SetChild(d, data); }
    if c.In? { CRepIn(c, root, data, parent); }
  }

  /** The descent of rb_int_insert: an overlapping interval, or the one place to link. */
  method FindLink(root: Root, data: Node, ghost t: Tree)
      returns (clash: bool, parent: Node?, d: Side, ghost c: Ctx)
    requires Linked(t, root) && Ordered(Inorder(t)) && data.low <= data.high
    ensures clash ==> exists y <- Inorder(t) :: Overlap(y, data)
    ensures !clash ==> Focus(c, Leaf, root, null, parent) && CtxRedBlack(c, 0) && Plug(c, Leaf) == t
    ensures !clash ==> FitsBetween(c, data) && (c.In? ==> d == c.d)
  {
    var node := root.node;
    parent, d, clash := null, Left, false;
    c := Top;
    ghost var m, h := t, 0;
    h :| RedBlack(t, h);
    RepRoot(t, node, parent);
    while node != null
      invariant Focus(c, m, root, node, parent) && Fit(c, m, h) && Plug(c, m) == t
      invariant FitsBetween(c, data) && Ordered(Inorder(m)) && (c.In? ==> d == c.d)
      decreases m
    {
      RepRoot(m, node, parent);
      if data.high <= node.low {
        StepDown(c, m, root, node, parent, h, data, Left);
        c, m, h := Below(c, m, Left), m.left, if m.black then h - 1 else h;
        parent, node, d := node, node.left, Left;
      } else if node.high <= data.low {
        StepDown(c, m, root, node, parent, h, data, Right);
        c, m, h := Below(c, m, Right), m.right, if m.black then h - 1 else h;
        parent, node, d := node, node.right, Right;
      } else {
        clash := true;
        PlugInorder(c, m);
        OneWay(m, 0);
        assert node in Before(c) + Inorder(m) + After(c) && Overlap(node, data);
        return;
      }
    }
    RepRoot(m, node, parent);
  }

  /** rb_int_insert: refused exactly when some interval in the tree overlaps the new one;
      otherwise it takes its place in address order and the tree is rebalanced. */
  method IntInsert(root: Root, data: Node, ghost t: Tree)
      returns (ok: bool, ghost r: Tree, ghost before: seq<Node>, ghost after: seq<Node>)
    requires Linked(t, root) && Ordered(Inorder(t)) && data !in Nodes(t) && data.low <= data.high
    modifies root, data, Nodes(t)
    ensures ok <==> forall y <- Inorder(t) :: !Overlap(y, data)
    ensures !ok ==> r == t && Linked(t, root)
    ensures ok ==> Linked(r, root) && Nodes(r) == {data} + Nodes(t) && Ordered(Inorder(r))
    ensures ok ==> Inorder(t) == before + after && Inorder(r) == before + [data] + after
  {
    before, after := [], [];
    NodesAllocated(t);
    var clash, parent, d, c := FindLink(root, data, t);
    if clash { return false, t, [], []; }
    PlaceIsFree(c, data, t);
    before, after := Before(c), After(c);
    hide *;
    ok := true;
    Link(data, parent, d, root, c);
    r := InsertColor(data, root, c);
  }

  lemma PlaceIsFree(c: Ctx, x: Node, t: Tree)
    requires Plug(c, Leaf) == t && FitsBetween(c, x) && Ordered(Inorder(t)) && x.low <= x.high
    ensures Inorder(t) == Before(c) + After(c) && Ordered(Before(c) + [x] + After(c)) && CNodes(c) == Nodes(t)
    ensures forall y <- Inorder(t) :: !Overlap(y, x)
  {
    PlugInorder(c, Leaf);
    PlugApart(c, Leaf);
    assert Before(c) + [] + After(c) == Before(c) + After(c);
    OrderedJoin(Before(c), x, After(c));
  }

  lemma StepDown(c: Ctx, m: Tree, root: Root, n: Node, p: Node?, h: int, x: Node, d: Side)
    requires Focus(c, m, root, n, p) && Fit(c, m, h) && m.Fork?
    requires FitsBetween(c, x) && Ordered(Inorder(m)) && x.low <= x.high
    requires if d == Left then Precedes(x, n) else Precedes(n, x)
    ensures n == m.node && Focus(Below(c, m, d), Sub(m, d), root, n.Child(d), n)
    ensures Plug(Below(c, m, d), Sub(m, d)) == Plug(c, m)
    ensures Fit(Below(c, m, d), Sub(m, d), if m.black then h - 1 else h)
    ensures FitsBetween(Below(c, m, d), x) && Ordered(Inorder(Sub(m, d)))
  {
    Descend(c, m, root, n, p, d);
    DescendFit(c, m, h, d);
    FitsBelow(c, m, x, d);
  }

  lemma OrderedWithout(a: seq<Node>, x: Node, b: seq<Node>)
    requires Ordered(a + [x] + b)
    ensures Ordered(a + b)
  {
    var s, t := a + b, a + [x] + b;
    forall i | 0 <= i < |s| ensures s[i] == t[if i < |a| then i else i + 1] { }
    forall i, j | 0 <= i < j < |s| ensures Precedes(s[i], s[j]) {
      assert Precedes(t[if i < |a| then i else i + 1], t[if j < |a| then j else j + 1]);
    }
  }

  /** Taking an interval out leaves the others, in order. */
  method IntErase(root: Root, data: Node, ghost t: Tree)
      returns (ghost r: Tree, ghost before: seq<Node>, ghost after: seq<Node>)
    requires Linked(t, root) && Ordered(Inorder(t)) && data in Nodes(t)
    modifies root, Nodes(t)
    ensures Linked(r, root) && Nodes(r) == Nodes(t) - {data} && Ordered(Inorder(r))
    ensures Inorder(t) == before + [data] + after && Inorder(r) == before + after
  {
    r, before, after := Erase(data, root, t);
    OrderedWithout(before, data, after);
  }
}
