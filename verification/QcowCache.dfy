/** What the least-recently-used order of the table cache (disk/qcow.c) means over a run:
    the cache holds the tables used last, in the order of their last use. */
module QcowCache {
  import opened Lists

  const MAX_CACHE_NODES := 32

  /** The tables ever used, by last use, the latest at the end. */
  function Recent(uses: seq<nat>): seq<nat> {
    if uses == [] then []
    else
      var before, o := uses[..|uses| - 1], uses[|uses| - 1];
      Without(Recent(before), o) + [o]
  }

  function Newest(s: seq<nat>): (r: seq<nat>)
    ensures |r| <= MAX_CACHE_NODES
  {
    if |s| <= MAX_CACHE_NODES then s else s[|s| - MAX_CACHE_NODES..]
  }

  /** What the list holds after these uses. */
  function Cached(uses: seq<nat>): seq<nat> { Newest(Recent(uses)) }

  lemma {:induction false} RecentDistinct(uses: seq<nat>)
    ensures Distinct(Recent(uses)) && forall o :: o in Recent(uses) <==> o in uses
  {
    if uses != [] {
      var before, o := uses[..|uses| - 1], uses[|uses| - 1];
      assert uses == before + [o];
      RecentDistinct(before);
      WithoutDistinct(Recent(before), o);
      var w := Without(Recent(before), o);
      assert forall i :: 0 <= i < |w| ==> w[i] in w;
    }
  }

  /** The number of uses up to and with the last one of `o`. */
  function LastUse(uses: seq<nat>, o: nat): (n: nat)
    ensures n <= |uses| && (n > 0 <==> o in uses) && (n > 0 ==> uses[n - 1] == o)
    ensures forall k :: n <= k < |uses| ==> uses[k] != o
  {
    if uses == [] then 0
    else if uses[|uses| - 1] == o then |uses|
    else
      assert uses == uses[..|uses| - 1] + [uses[|uses| - 1]];
      LastUse(uses[..|uses| - 1], o)
  }

  /** The order is that of the last uses. */
  lemma {:induction false} RecentOrder(uses: seq<nat>, a: nat, b: nat)
    requires a < b < |Recent(uses)|
    ensures LastUse(uses, Recent(uses)[a]) < LastUse(uses, Recent(uses)[b])
  {
    var before, o := uses[..|uses| - 1], uses[|uses| - 1];
    RecentDistinct(uses);
    var r := Recent(uses);
    if b < |r| - 1 {
      var i, j := WithoutOrder(Recent(before), o, a, b);
      RecentOrder(before, i, j);
      assert r[|r| - 1] == o && r[a] != o && r[b] != o;
    }
  }

  /** Elements of a list that stay keep their order. */
  lemma {:induction false} WithoutOrder(s: seq<nat>, o: nat, a: nat, b: nat) returns (i: nat, j: nat)
    requires a < b < |Without(s, o)|
    ensures i < j < |s| && s[i] == Without(s, o)[a] && s[j] == Without(s, o)[b]
  {
    if s[0] == o {
      i, j := WithoutOrder(s[1..], o, a, b);
      i, j := i + 1, j + 1;
    } else if a == 0 {
      i := 0;
      assert Without(s, o)[b] == Without(s[1..], o)[b - 1];
      assert Without(s, o)[b] in s[1..];
      var k: nat :| k < |s[1..]| && s[1..][k] == Without(s, o)[b];
      j := k + 1;
    } else {
      i, j := WithoutOrder(s[1..], o, a - 1, b - 1);
      i, j := i + 1, j + 1;
    }
  }

  lemma RecentNext(uses: seq<nat>, o: nat)
    ensures Recent(uses + [o]) == Without(Recent(uses), o) + [o]
  {
    assert (uses + [o])[..|uses|] == uses;
  }

  /** Finding a table in the cache moves it to the end of the list. */
  lemma HitKeeps(uses: seq<nat>, o: nat)
    requires o in Cached(uses)
    ensures Cached(uses + [o]) == Without(Cached(uses), o) + [o]
  {
    hide Without, Recent;
    var r, n := Recent(uses), Cached(uses);
    RecentDistinct(uses);
    RecentNext(uses, o);
    var pre := r[..|r| - |n|];
    assert r == pre + n;
    HitSplits(pre, n, o);
    var m := Without(n, o) + [o];
    assert Recent(uses + [o]) == pre + m;
    assert |pre| == 0 || |m| == MAX_CACHE_NODES;
  }

  lemma HitSplits(pre: seq<nat>, n: seq<nat>, o: nat)
    requires Distinct(pre + n) && o in n
    ensures Without(pre + n, o) + [o] == pre + (Without(n, o) + [o]) && |Without(n, o)| == |n| - 1
  {
    var i :| 0 <= i < |n| && n[i] == o;
    assert (pre + n)[|pre| + i] == o;
    assert forall k :: 0 <= k < |pre| ==> (pre + n)[k] == pre[k];
    assert forall k :: 0 <= k < |n| ==> (pre + n)[|pre| + k] == n[k];
    WithoutJoin(pre, n, o);
    WithoutAbsent(pre, o);
    WithoutAt(n, i);
  }

  /** Adding one pushes the list's first out when the cache is full. */
  lemma MissKeeps(uses: seq<nat>, o: nat)
    requires o !in Cached(uses)
    ensures Cached(uses + [o])
         == (if |Cached(uses)| == MAX_CACHE_NODES then Cached(uses)[1..] else Cached(uses)) + [o]
  {
    var r, n := Recent(uses), Cached(uses);
    RecentNext(uses, o);
    var pre := r[..|r| - |n|];
    assert r == pre + n;
    WithoutJoin(pre, n, o);
    WithoutAbsent(n, o);
    assert Recent(uses + [o]) == Without(pre, o) + (n + [o]);
  }

  lemma CachedDistinct(uses: seq<nat>)
    ensures Distinct(Cached(uses))
  {
    RecentDistinct(uses);
  }

  /** A table is cached exactly while fewer than 32 others have been used since. */
  lemma CachedExactly(uses: seq<nat>, k: nat)
    requires k < |Recent(uses)|
    ensures Recent(uses)[k] in Cached(uses) <==> |Recent(uses)| - k <= 32
  {
    var r := Recent(uses);
    RecentDistinct(uses);
    if |r| - k <= MAX_CACHE_NODES && |r| > MAX_CACHE_NODES {
      assert Cached(uses)[k - (|r| - MAX_CACHE_NODES)] == r[k];
    }
  }
}
