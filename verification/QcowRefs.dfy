/** Reference counts of a qcow2 image (disk/qcow.c) on values: a table of refcount blocks,
    each counting the users of as many clusters as it has 16-bit entries.  What one
    allocation may change, and what that means over any number of them. */
module QcowRefs {
  import opened Arith

  type U16 = n: nat | n < 0x1_0000

  /** `table` holds block offsets in the file, 0 for none.  Blocks are written through at
      every change, so file and cache are one map.  `free` is where the search starts. */
  datatype Refs = Refs(perBlock: nat, table: seq<nat>, blocks: map<nat, seq<U16>>, free: nat)
  {
    function ClusterSize(): nat { 2 * perBlock }

    function Block(i: nat): nat
      requires perBlock > 0
    {
      i / perBlock
    }

    function Slot(i: nat): (r: nat)
      requires perBlock > 0
      ensures r < perBlock
    {
      i % perBlock
    }
  }

  ghost predicate Distinct(table: seq<nat>) {
    forall b, c :: 0 <= b < c < |table| && table[b] != 0 ==> table[b] != table[c]
  }

  ghost predicate Aligned(at: nat, clusterSize: nat) {
    exists k: nat :: at == k * clusterSize
  }

  ghost predicate BlockOk(s: Refs, at: nat) {
    at in s.blocks && |s.blocks[at]| == s.perBlock && Aligned(at, s.ClusterSize())
  }

  /** Well-formed tables, whatever the counts are. */
  ghost predicate Shape(s: Refs) {
    && s.perBlock > 0
    && Distinct(s.table)
    && (forall b :: 0 <= b < |s.table| && s.table[b] != 0 ==> BlockOk(s, s.table[b]))
  }

  function Ref(s: Refs, i: nat): (r: U16)
    requires Shape(s)
  {
    if s.Block(i) >= |s.table| || s.table[s.Block(i)] == 0 then 0
    else s.blocks[s.table[s.Block(i)]][s.Slot(i)]
  }

  /** Cluster `i` holds a refcount block. */
  ghost predicate IsBlock(s: Refs, i: nat) {
    i > 0 && i * s.ClusterSize() in s.table
  }

  /** No search can reach a cluster that holds a refcount block: it is counted, or passed. */
  ghost predicate Valid(s: Refs) {
    && Shape(s)
    && (forall i: nat :: IsBlock(s, i) ==> Ref(s, i) > 0 || i < s.free)
    && (s.free > 0 || Ref(s, 0) > 0)
  }

  /** Between allocations: every refcount block counts itself as in use. */
  ghost predicate Sound(s: Refs) {
    Valid(s) && forall i: nat :: IsBlock(s, i) ==> Ref(s, i) > 0
  }

  ghost predicate NewBlock(s: Refs, t: Refs, i: nat) {
    IsBlock(t, i) && !IsBlock(s, i)
  }

  ghost predicate Kept(s: Refs, t: Refs) {
    && t.perBlock == s.perBlock && |t.table| == |s.table| && s.free <= t.free
    && (forall b :: 0 <= b < |s.table| && s.table[b] != 0 ==> t.table[b] == s.table[b])
  }

  function One(b: bool): nat { if b then 1 else 0 }

  /** From s to t the counts of `bump` and of new refcount blocks went up by one and no
      other count changed; new blocks are clusters that were free and not yet searched. */
  ghost predicate Change(s: Refs, t: Refs, bump: set<nat>) {
    && Valid(s) && Valid(t) && Kept(s, t)
    && (forall i: nat :: Ref(t, i) == Ref(s, i) + One(i in bump || NewBlock(s, t, i)))
    && (forall i: nat :: NewBlock(s, t, i) ==> s.free <= i < t.free && Ref(s, i) == 0)
  }

  /** Only the search position moved. */
  ghost predicate Searched(s: Refs, t: Refs) {
    && Valid(s) && Valid(t) && t.perBlock == s.perBlock && t.table == s.table && s.free <= t.free
    && forall i: nat :: Ref(t, i) == Ref(s, i)
  }

  function Run(start: nat, n: nat): (r: set<nat>)
    ensures forall i: nat :: i in r <==> start <= i < start + n
  {
    if n == 0 then {} else Run(start, n - 1) + {start + n - 1}
  }

  ghost predicate Blocked(s: Refs, p: nat, n: nat)
    requires Shape(s)
  {
    exists i: nat :: p <= i < p + n && Ref(s, i) > 0
  }

  /** The first n adjacent clusters from the search position on that nobody uses. */
  ghost predicate FirstFit(s: Refs, start: nat, n: nat)
    requires Shape(s)
  {
    && s.free <= start
    && (forall i: nat :: start <= i < start + n ==> Ref(s, i) == 0)
    && (forall p: nat :: s.free <= p < start ==> Blocked(s, p, n))
  }

  /** What a successful allocation of n counted clusters does. */
  ghost predicate Allocated(s: Refs, t: Refs, start: nat, n: nat) {
    && Valid(s) && FirstFit(s, start, n)
    && Change(s.(free := start + n), t, Run(start, n))
  }

  /** The first m of n clusters found were counted, and all refcount blocks that took. */
  ghost predicate Counted(s: Refs, t: Refs, start: nat, n: nat, m: nat) {
    Valid(s) && FirstFit(s, start, n) && m <= n && Change(s.(free := start + n), t, Run(start, m))
  }

  /** What a failed allocation of n clusters does: the search gave up and changed nothing,
      or counting gave up and left part of a run counted. */
  ghost predicate Failed(s: Refs, t: Refs, n: nat) {
    Searched(s, t) || exists start: nat, m: nat :: m < n && Counted(s, t, start, n, m)
  }

  // ------------------------------------------------------------------- termination

  function Zeros(table: seq<nat>): nat {
    if table == [] then 0 else One(table[0] == 0) + Zeros(table[1..])
  }

  lemma {:induction false} ZerosSet(table: seq<nat>, b: nat, v: nat)
    requires b < |table| && table[b] == 0 && v != 0
    ensures Zeros(table[b := v]) == Zeros(table) - 1
  {
    if b == 0 {
      assert table[0 := v][1..] == table[1..];
    } else {
      assert table[b := v][1..] == table[1..][b - 1 := v];
      ZerosSet(table[1..], b - 1, v);
    }
  }

  /** Filling in entries never adds a zero. */
  lemma {:induction false} ZerosKept(table: seq<nat>, now: seq<nat>)
    requires |now| == |table|
    requires forall b :: 0 <= b < |table| && table[b] != 0 ==> now[b] == table[b]
    ensures Zeros(now) <= Zeros(table)
  {
    if table != [] {
      assert forall b :: 0 <= b < |table[1..]| ==> table[1..][b] == table[b + 1] && now[1..][b] == now[b + 1];
      ZerosKept(table[1..], now[1..]);
    }
  }

  // ----------------------------------------------------------------------- changes

  lemma MulInjective(a: nat, b: nat, c: nat)
    requires c > 0 && a * c == b * c
    ensures a == b
  {
    assert (a - b) * c == 0;
  }

  lemma MulPositive(a: nat, c: nat)
    requires a > 0 && c > 0
    ensures a * c > 0
  { }

  lemma NoChange(s: Refs)
    requires Valid(s)
    ensures Change(s, s, {})
  { }

  lemma BlocksStay(s: Refs, t: Refs, i: nat)
    requires Shape(s) && Kept(s, t) && IsBlock(s, i)
    ensures IsBlock(t, i)
  {
    MulPositive(i, s.ClusterSize());
    var b :| 0 <= b < |s.table| && s.table[b] == i * s.ClusterSize();
    assert t.table[b] == s.table[b];
  }

  lemma KeptTwice(s: Refs, u: Refs, t: Refs)
    requires Kept(s, u) && Kept(u, t)
    ensures Kept(s, t)
  {
    forall b | 0 <= b < |s.table| && s.table[b] != 0 ensures t.table[b] == s.table[b] {
      assert u.table[b] == s.table[b];
    }
  }

  /** Changes compose. */
  lemma ChangeTwice(s: Refs, u: Refs, t: Refs, a: set<nat>, b: set<nat>)
    requires Change(s, u, a) && Change(u, t, b)
    requires a !! b && forall i <- a + b :: i < s.free
    ensures Change(s, t, a + b)
  {
    KeptTwice(s, u, t);
    forall i: nat
      ensures NewBlock(s, t, i) <==> NewBlock(s, u, i) || NewBlock(u, t, i)
      ensures !(NewBlock(s, u, i) && NewBlock(u, t, i))
    {
      hide Ref;
      if IsBlock(s, i) { BlocksStay(s, u, i); }
      if IsBlock(u, i) { BlocksStay(u, t, i); }
    }
    forall i: nat
      ensures Ref(t, i) == Ref(s, i) + One(i in a + b || NewBlock(s, t, i))
      ensures NewBlock(s, t, i) ==> s.free <= i < t.free && Ref(s, i) == 0
    {
      hide Ref, IsBlock;
      assert NewBlock(s, t, i) <==> NewBlock(s, u, i) || NewBlock(u, t, i);
      assert NewBlock(u, t, i) ==> u.free <= i;
    }
  }

  function Put(entries: seq<U16>, slot: nat, n: U16): seq<U16>
    requires slot < |entries|
  {
    entries[slot := n]
  }

  /** Counting one more user in a block that exists. */
  lemma Bump(s: Refs, t: Refs, i: nat)
    requires Valid(s) && s.Block(i) < |s.table| && s.table[s.Block(i)] != 0 && Ref(s, i) < 0xffff
    requires var at := s.table[s.Block(i)];
             t == s.(blocks := s.blocks[at := Put(s.blocks[at], s.Slot(i), Ref(s, i) + 1)])
    ensures Change(s, t, {i})
  {
    BumpShape(s, t, i);
    forall j: nat ensures Ref(t, j) == Ref(s, j) + One(j == i) {
      if s.Block(j) == s.Block(i) {
        SameIndex(i, j, s.perBlock);
      } else if s.Block(j) < |s.table| && s.table[s.Block(j)] != 0 {
        assert s.table[s.Block(j)] != s.table[s.Block(i)];
      }
    }
    assert forall j: nat :: IsBlock(t, j) <==> IsBlock(s, j);
  }

  lemma BumpShape(s: Refs, t: Refs, i: nat)
    requires Valid(s) && s.Block(i) < |s.table| && s.table[s.Block(i)] != 0 && Ref(s, i) < 0xffff
    requires var at := s.table[s.Block(i)];
             t == s.(blocks := s.blocks[at := Put(s.blocks[at], s.Slot(i), Ref(s, i) + 1)])
    ensures Shape(t)
  {
    forall c | 0 <= c < |t.table| && t.table[c] != 0 ensures BlockOk(t, t.table[c]) {
      assert BlockOk(s, s.table[c]);
    }
  }

  lemma SameIndex(i: nat, j: nat, e: nat)
    requires e > 0 && i / e == j / e
    ensures i % e == j % e <==> i == j
  {
    assert i == i / e * e + i % e;
    assert j == j / e * e + j % e;
  }

  /** Nothing past the reach of the table is counted, so a search ends. */
  lemma BeyondTable(s: Refs, i: nat)
    requires Shape(s) && i >= |s.table| * s.perBlock
    ensures Ref(s, i) == 0
  {
    DivAbove(i, s.perBlock, |s.table|);
  }

  lemma DivAbove(i: nat, e: nat, n: nat)
    requires e > 0 && i >= n * e
    ensures i / e >= n
  {
    var q := i / e;
    assert i == q * e + i % e;
    NonNegative(n - (q + 1), e);
    assert (n - (q + 1)) * e == n * e - q * e - e;
  }

  lemma NonNegative(x: int, e: nat)
    ensures x >= 0 ==> x * e >= 0
  { }

  /** Adding an empty block for a part of the file that had none changes no count. */
  lemma AddBlock(s: Refs, t: Refs, b: nat, k: nat)
    requires Valid(s) && b < |s.table| && s.table[b] == 0
    requires 0 < k < s.free && !IsBlock(s, k)
    requires var at := k * s.ClusterSize();
             t == s.(table := s.table[b := at], blocks := s.blocks[at := seq<U16>(s.perBlock, _ => 0)])
    ensures Valid(t) && Kept(s, t)
    ensures forall i: nat :: Ref(t, i) == Ref(s, i)
    ensures forall i: nat :: IsBlock(t, i) <==> i == k || IsBlock(s, i)
  {
    var at := k * s.ClusterSize();
    MulPositive(k, s.ClusterSize());
    forall c | 0 <= c < |s.table| && s.table[c] != 0
      ensures s.table[c] != at && BlockOk(t, t.table[c])
    {
      assert BlockOk(s, s.table[c]);
      assert s.table[c] in s.table;
    }
    assert at == k * t.ClusterSize();
    assert Shape(t);
    forall i: nat ensures Ref(t, i) == Ref(s, i) { }
    forall i: nat ensures IsBlock(t, i) <==> i == k || IsBlock(s, i) {
      TableSet(s.table, b, at, i * s.ClusterSize());
      if i != k && i * s.ClusterSize() == at { MulInjective(i, k, s.ClusterSize()); }
      if i > 0 { MulPositive(i, s.ClusterSize()); }
    }
  }

  lemma TableSet(table: seq<nat>, b: nat, at: nat, x: nat)
    requires b < |table| && table[b] == 0
    ensures x != 0 ==> (x in table[b := at] <==> x == at || x in table)
  {
    assert table[b := at][b] == at;
    if x in table && x != 0 {
      var c :| 0 <= c < |table| && table[c] == x;
      assert table[b := at][c] == x;
    }
  }

  /** The whole of growing the table: an empty block at cluster k, then k counted. */
  lemma GrowChange(s: Refs, u: Refs, t: Refs, k: nat)
    requires Valid(s) && Valid(u) && Kept(s, u) && s.free <= k < u.free && Ref(s, k) == 0
    requires !IsBlock(s, k)
    requires forall i: nat :: Ref(u, i) == Ref(s, i)
    requires forall i: nat :: IsBlock(u, i) <==> i == k || IsBlock(s, i)
    requires Change(u, t, {k})
    ensures Change(s, t, {})
  {
    KeptTwice(s, u, t);
    forall i: nat ensures NewBlock(s, t, i) <==> i == k || NewBlock(u, t, i) {
      hide Ref;
      if i == k { BlocksStay(u, t, k); }
      if IsBlock(s, i) { BlocksStay(s, t, i); }
    }
    forall i: nat
      ensures Ref(t, i) == Ref(s, i) + One(NewBlock(s, t, i))
      ensures NewBlock(s, t, i) ==> s.free <= i < t.free && Ref(s, i) == 0
    {
      hide Ref, IsBlock;
      assert NewBlock(s, t, i) <==> i == k || NewBlock(u, t, i);
      assert NewBlock(u, t, i) ==> u.free <= i;
    }
  }

  /** Taking an uncounted empty block out again changes no count either. */
  lemma DropBlock(s: Refs, u: Refs, v: Refs, w: Refs, b: nat)
    requires Valid(s) && Valid(u) && Searched(u, v) && s.free <= u.free
    requires b < |s.table| == |u.table| && s.table[b] == 0 && u.table == s.table[b := u.table[b]]
    requires u.perBlock == s.perBlock && forall i: nat :: Ref(u, i) == Ref(s, i)
    requires w == v.(table := v.table[b := 0])
    ensures Searched(s, w)
  {
    assert w.table == s.table;
    forall i: nat ensures IsBlock(w, i) ==> IsBlock(v, i) {
      if IsBlock(w, i) {
        MulPositive(i, w.ClusterSize());
        var c :| 0 <= c < |w.table| && w.table[c] == i * w.ClusterSize();
        assert v.table[c] == w.table[c];
      }
    }
    forall c | 0 <= c < |w.table| && w.table[c] != 0 ensures BlockOk(w, w.table[c]) {
      assert BlockOk(v, v.table[c]);
    }
    assert Shape(w);
    forall i: nat ensures Ref(w, i) == Ref(s, i) {
      assert Ref(v, i) == Ref(u, i) == Ref(s, i);
    }
    assert Ref(w, 0) == Ref(v, 0);
    forall i: nat | IsBlock(w, i) ensures Ref(w, i) > 0 || i < w.free {
      assert Ref(v, i) > 0 || i < v.free;
      assert Ref(w, i) == Ref(s, i) == Ref(u, i) == Ref(v, i);
    }
  }

  /** A block put into the cluster just found. */
  lemma PutBlock(s: Refs, s1: Refs, u: Refs, b: nat, k: nat)
    requires Valid(s) && FirstFit(s, k, 1) && Searched(s, s1) && s1 == s.(free := k + 1)
    requires b < |s.table| && s.table[b] == 0
    requires var at := k * s.ClusterSize();
             u == s1.(table := s1.table[b := at], blocks := s1.blocks[at := seq<U16>(s1.perBlock, _ => 0)])
    ensures Valid(s1) && Valid(u) && Kept(s, u) && s.free <= k < u.free && Ref(s, k) == 0 && !IsBlock(s, k)
    ensures Ref(u, k) == 0 && u.table[b] != 0 && Zeros(u.table) < Zeros(s.table)
    ensures forall i: nat :: Ref(u, i) == Ref(s, i)
    ensures forall i: nat :: IsBlock(u, i) <==> i == k || IsBlock(s, i)
  {
    assert Ref(s, k) == 0;
    assert k > 0;
    MulPositive(k, s.ClusterSize());
    assert !IsBlock(s, k);
    AddBlock(s1, u, b, k);
    ZerosSet(s.table, b, k * s.ClusterSize());
  }

  lemma HasEntries(s: Refs)
    requires Valid(s)
    ensures s.perBlock > 0
  { }

  lemma BlockStays(u: Refs, t: Refs, k: nat, b: nat)
    requires Change(u, t, {k}) && b < |u.table| && u.table[b] != 0
    ensures b < |t.table| && t.table[b] != 0
  { }

  /** The same block taken out again. */
  lemma TakeBlock(s: Refs, s1: Refs, u: Refs, v: Refs, w: Refs, b: nat)
    requires Valid(s) && Valid(s1) && Valid(u) && Searched(s, s1) && Searched(u, v) && s1.free <= u.free
    requires b < |s.table| == |u.table| && s1.table == s.table && s.table[b] == 0 && u.table == s.table[b := u.table[b]]
    requires u.perBlock == s.perBlock && forall i: nat :: Ref(u, i) == Ref(s, i)
    requires w == v.(table := v.table[b := 0])
    ensures Searched(s, w)
  {
    DropBlock(s1, u, v, w, b);
  }

  lemma MoveOn(s: Refs, free: nat)
    requires Valid(s) && s.free <= free
    ensures Searched(s, s.(free := free))
  {
    var t := s.(free := free);
    forall b | 0 <= b < |t.table| && t.table[b] != 0 ensures BlockOk(t, t.table[b]) {
      assert BlockOk(s, s.table[b]);
    }
    forall i: nat ensures Ref(t, i) == Ref(s, i) && (IsBlock(t, i) <==> IsBlock(s, i)) { }
  }

  lemma NothingCounted(s: Refs, first: nat, n: nat)
    requires Valid(s) && FirstFit(s, first, n)
    ensures Counted(s, s.(free := first + n), first, n, 0)
  {
    MoveOn(s, first + n);
    NoChange(s.(free := first + n));
  }

  /** The next cluster of a run being counted still counts zero. */
  lemma NextOfRun(s: Refs, u: Refs, first: nat, n: nat, i: nat)
    requires Counted(s, u, first, n, i) && i < n
    ensures Valid(u) && first + i < u.free && Ref(u, first + i) < 0xffff
    ensures Zeros(u.table) <= Zeros(s.table)
  {
    MoveOn(s, first + n);
    ZerosKept(s.table, u.table);
    assert Ref(s.(free := first + n), first + i) == Ref(s, first + i);
  }

  lemma RunStops(s: Refs, u: Refs, t: Refs, first: nat, n: nat, i: nat)
    requires Counted(s, u, first, n, i) && i < n && Searched(u, t)
    ensures Failed(s, t, n)
  {
    var mid := s.(free := first + n);
    MoveOn(s, first + n);
    forall j: nat ensures NewBlock(mid, t, j) <==> NewBlock(mid, u, j) { }
    assert Change(mid, t, Run(first, i)) by {
      hide Ref, IsBlock;
      assert forall j: nat :: Ref(t, j) == Ref(u, j);
    }
    assert Counted(s, t, first, n, i);
  }

  lemma RunGrows(s: Refs, u: Refs, t: Refs, first: nat, n: nat, i: nat)
    requires Counted(s, u, first, n, i) && i < n && Change(u, t, {first + i})
    ensures Counted(s, t, first, n, i + 1)
  {
    ChangeTwice(s.(free := first + n), u, t, Run(first, i), {first + i});
  }

  lemma RunCounted(s: Refs, t: Refs, first: nat, n: nat)
    requires Counted(s, t, first, n, n)
    ensures Allocated(s, t, first, n)
  { }

  // --------------------------------------------------------- what allocations mean

  /** The clusters counted were free and are now counted once; they overlap no refcount
      block, old or grown meanwhile; clusters in use keep their counts and stay what they
      are; and every refcount block still counts itself. */
  lemma CountedIsSound(s: Refs, t: Refs, start: nat, n: nat, m: nat)
    requires Sound(s) && Counted(s, t, start, n, m)
    ensures Sound(t)
    ensures forall i: nat :: start <= i < start + m ==> Ref(s, i) == 0 && Ref(t, i) == 1 && !IsBlock(t, i)
    ensures forall i: nat :: Ref(s, i) > 0 ==> Ref(t, i) == Ref(s, i) && (IsBlock(t, i) <==> IsBlock(s, i))
  {
    var mid := s.(free := start + n);
    MoveOn(s, start + n);
    forall i: nat ensures IsBlock(mid, i) <==> IsBlock(s, i) { }
    forall i: nat
      ensures Ref(t, i) == Ref(s, i) + One(i in Run(start, m) || NewBlock(mid, t, i))
      ensures NewBlock(mid, t, i) ==> start + n <= i && Ref(s, i) == 0
    {
      assert Ref(mid, i) == Ref(s, i);
    }
    forall i: nat | IsBlock(s, i) ensures IsBlock(t, i) { BlocksStay(mid, t, i); }
    forall i: nat | start <= i < start + m ensures !IsBlock(t, i) && Ref(t, i) == 1 {
      assert Ref(s, i) == 0;
    }
    forall i: nat | IsBlock(t, i) ensures Ref(t, i) > 0 { }
  }

  lemma AllocatedIsSound(s: Refs, t: Refs, start: nat, n: nat)
    requires Sound(s) && Allocated(s, t, start, n)
    ensures Sound(t)
    ensures forall i: nat :: start <= i < start + n ==> Ref(s, i) == 0 && Ref(t, i) == 1 && !IsBlock(t, i)
    ensures forall i: nat :: Ref(s, i) > 0 ==> Ref(t, i) == Ref(s, i) && (IsBlock(t, i) <==> IsBlock(s, i))
  {
    CountedIsSound(s, t, start, n, n);
  }

  lemma SearchedIsSound(s: Refs, t: Refs)
    requires Sound(s) && Searched(s, t)
    ensures Sound(t) && forall i: nat :: Ref(t, i) == Ref(s, i) && (IsBlock(t, i) <==> IsBlock(s, i))
  {
    forall i: nat ensures IsBlock(t, i) <==> IsBlock(s, i) { }
  }

  /** A failed allocation does no harm to clusters in use, and refcount blocks still count
      themselves. */
  lemma FailedIsSound(s: Refs, t: Refs, n: nat)
    requires Sound(s) && Failed(s, t, n)
    ensures Sound(t)
    ensures forall i: nat :: Ref(s, i) > 0 ==> Ref(t, i) == Ref(s, i) && (IsBlock(t, i) <==> IsBlock(s, i))
  {
    hide Ref, IsBlock, Valid, Searched, Sound;
    if Searched(s, t) {
      SearchedIsSound(s, t);
    } else {
      var start: nat, m: nat :| m < n && Counted(s, t, start, n, m);
      CountedIsSound(s, t, start, n, m);
    }
  }

  datatype Event = Got(start: nat, n: nat) | Refused(n: nat)

  ghost predicate Happens(s: Refs, t: Refs, e: Event) {
    match e
    case Got(start, n) => Allocated(s, t, start, n)
    case Refused(n) => Failed(s, t, n)
  }

  predicate GotCluster(e: Event, i: nat) {
    e.Got? && e.start <= i < e.start + e.n
  }

  /** A run of the allocator: states[k] leads to states[k + 1] by an allocation that
      succeeds or fails. */
  ghost predicate History(states: seq<Refs>, events: seq<Event>) {
    && |states| == |events| + 1 && Sound(states[0])
    && forall k :: 0 <= k < |events| ==> Happens(states[k], states[k + 1], events[k])
  }

  lemma EventIsSound(s: Refs, t: Refs, e: Event)
    requires Sound(s) && Happens(s, t, e)
    ensures Sound(t)
    ensures forall i: nat :: GotCluster(e, i) ==> Ref(s, i) == 0 && Ref(t, i) == 1 && !IsBlock(t, i)
    ensures forall i: nat :: Ref(s, i) > 0 ==> Ref(t, i) == Ref(s, i) && (IsBlock(t, i) <==> IsBlock(s, i))
  {
    match e
    case Got(start, n) => AllocatedIsSound(s, t, start, n);
    case Refused(n) => FailedIsSound(s, t, n);
  }

  lemma {:induction false} HistorySound(states: seq<Refs>, events: seq<Event>, k: nat)
    requires History(states, events) && k <= |events|
    ensures Sound(states[k])
  {
    if k > 0 {
      HistorySound(states, events, k - 1);
      EventIsSound(states[k - 1], states[k], events[k - 1]);
    }
  }

  /** Once handed out, a cluster stays counted and never becomes a refcount block. */
  lemma {:induction false} StaysTaken(states: seq<Refs>, events: seq<Event>, j: nat, k: nat, i: nat)
    requires History(states, events) && j < k <= |events| && GotCluster(events[j], i)
    ensures Sound(states[k]) && Ref(states[k], i) == 1 && !IsBlock(states[k], i)
  {
    hide Ref, IsBlock, Valid, Happens, Sound;
    HistorySound(states, events, k - 1);
    EventIsSound(states[k - 1], states[k], events[k - 1]);
    if j < k - 1 {
      StaysTaken(states, events, j, k - 1, i);
    }
  }

  /** However many allocations are made, and however many of them fail, no cluster is
      handed out twice, and none of those handed out holds a refcount block. */
  lemma NeverTwice(states: seq<Refs>, events: seq<Event>, j: nat, k: nat, i: nat)
    requires History(states, events) && j < k < |events| && GotCluster(events[j], i)
    ensures !GotCluster(events[k], i)
    ensures !IsBlock(states[|events|], i)
  {
    StaysTaken(states, events, j, k, i);
    StaysTaken(states, events, j, |events|, i);
    HistorySound(states, events, k);
    EventIsSound(states[k], states[k + 1], events[k]);
  }

  // --------------------------------------------------------------- where counts stand

  /** The count of cluster b * perBlock + k is entry k of the block that table entry b
      names; without a block, or past the table, it is zero. */
  lemma RefStands(s: Refs, b: nat, k: nat)
    requires Shape(s) && k < s.perBlock
    ensures b < |s.table| && s.table[b] != 0 ==>
              BlockOk(s, s.table[b]) && Ref(s, b * s.perBlock + k) == s.blocks[s.table[b]][k]
    ensures b >= |s.table| || s.table[b] == 0 ==> Ref(s, b * s.perBlock + k) == 0
  {
    DivUnique(b * s.perBlock + k, s.perBlock, b, k);
  }
}
