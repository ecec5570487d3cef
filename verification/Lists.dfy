/** Lists of numbers without repetition, as the linked lists of the program are used. */
module Lists {
  ghost predicate Distinct(s: seq<nat>) {
    forall a, b :: 0 <= a < b < |s| ==> s[a] != s[b]
  }

  function Without(s: seq<nat>, j: nat): (r: seq<nat>)
    ensures forall x :: x in r <==> x in s && x != j
    ensures |r| <= |s|
  {
    if s == [] then []
    else if s[0] == j then Without(s[1..], j)
    else
      assert forall x :: x in s <==> x == s[0] || x in s[1..];
      [s[0]] + Without(s[1..], j)
  }

  lemma {:induction false} WithoutDistinct(s: seq<nat>, j: nat)
    requires Distinct(s)
    ensures Distinct(Without(s, j))
  {
    if s != [] {
      WithoutDistinct(s[1..], j);
      assert s[0] !in s[1..];
    }
  }

  lemma {:induction false} WithoutJoin(a: seq<nat>, b: seq<nat>, j: nat)
    ensures Without(a + b, j) == Without(a, j) + Without(b, j)
  {
    if a == [] {
      assert a + b == b;
    } else {
      assert (a + b)[1..] == a[1..] + b;
      WithoutJoin(a[1..], b, j);
    }
  }

  lemma {:induction false} WithoutAbsent(s: seq<nat>, j: nat)
    requires j !in s
    ensures Without(s, j) == s
  {
    if s != [] { WithoutAbsent(s[1..], j); }
  }

  /** Taking out the element at a place. */
  lemma {:induction false} WithoutAt(s: seq<nat>, i: nat)
    requires Distinct(s) && i < |s|
    ensures Without(s, s[i]) == s[..i] + s[i + 1..]
  {
    var tail := s[1..];
    assert forall k :: 0 <= k < |tail| ==> tail[k] == s[k + 1];
    if i == 0 {
      WithoutAbsent(tail, s[0]);
    } else {
      WithoutAt(tail, i - 1);
      assert s[..i] == [s[0]] + tail[..i - 1] && s[i + 1..] == tail[i..];
    }
  }
}
