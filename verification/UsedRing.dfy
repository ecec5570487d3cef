/** The used ring of a virtqueue and its event index (virtio/core.c; sections 2.7.7 and
    2.7.8 of Virtio 1.2): 16-bit indices over a history that never ends. */
module UsedRing {
  import opened Arith

  const WRAP := 0x1_0000

  /** A completion: which chain, and how many bytes were written to it. */
  datatype Elem = Elem(id: nat, len: nat)

  /** Indices mod 2^16 and mod the ring size agree when the size divides 2^16. */
  lemma ModMod(x: nat, num: nat, q: nat)
    requires num > 0 && WRAP == num * q
    ensures Rem(x % WRAP, num) == Rem(x, num)
  {
    var k, y := x / WRAP, x % WRAP;
    var p, r := y / num, y % num;
    Assoc(k, q, num);
    assert x == k * q * num + (p * num + r) == (k * q + p) * num + r;
    DivUnique(x, num, k * q + p, r);
  }

  /** Different places among num successive ones fall in different slots. */
  lemma Slots(a: nat, b: nat, num: nat)
    requires num > 0 && a < b < a + num
    ensures Rem(a, num) != Rem(b, num)
  {
    assert a == a / num * num + a % num && b == b / num * num + b % num;
    Above(a / num, b / num, num);
    Above(b / num, a / num, num);
  }

  // ----------------------------------------------------------------- event indices

  /** The test of the driver's event index on 16-bit numbers. */
  predicate NeedEvent(event: nat, now: nat, old_: nat)
    requires event < WRAP && now < WRAP && old_ < WRAP
  {
    (now - event - 1) % WRAP < (now - old_) % WRAP
  }

  /** Among the completions a..n is one the guest asked to be told about. */
  ghost predicate Crossed(a: nat, n: nat, event: nat) {
    exists k: nat :: a <= k < n && k % WRAP == event
  }

  /** What the test really says: whether the event index was crossed by the last
      (n - a) mod 2^16 completions. */
  lemma NeedEventIs(a: nat, n: nat, event: nat)
    requires a <= n && event < WRAP
    ensures NeedEvent(event, n % WRAP, a % WRAP) <==> Crossed(n - (n - a) % WRAP, n, event)
  {
    hide Crossed;
    ModDifference(n, event + 1);
    ModBoth(n, a);
    LastAsked(n, event);
    var d, m := (n - event - 1) % WRAP, (n - a) % WRAP;
    LastIsLast(n, m, event, d);
  }

  /** How far back the last completion the guest asked about lies. */
  lemma LastAsked(n: nat, event: nat)
    requires event < WRAP
    ensures var d := (n - event - 1) % WRAP;
            forall k: nat :: n - WRAP <= k < n ==> (k % WRAP == event <==> k == n - 1 - d)
    ensures n - 1 - (n - event - 1) % WRAP >= 0 ==> (n - 1 - (n - event - 1) % WRAP) % WRAP == event
  {
    var d, t := (n - event - 1) % WRAP, (n - event - 1) / WRAP;
    assert n - event - 1 == WRAP * t + d;
    assert n - 1 - d == WRAP * t + event;
    forall k: nat | n - WRAP <= k < n ensures k % WRAP == event <==> k == n - 1 - d {
      if k % WRAP == event {
        assert k == WRAP * (k / WRAP) + event;
      }
    }
  }

  lemma LastIsLast(n: nat, m: nat, event: nat, d: nat)
    requires m <= n && m < WRAP && event < WRAP
    requires forall k: nat :: n - WRAP <= k < n ==> (k % WRAP == event <==> k == n - 1 - d)
    ensures d < m <==> Crossed(n - m, n, event)
  {
    if d < m {
      var k := n - 1 - d;
      assert k % WRAP == event;
    }
  }

  lemma ModDifference(x: nat, y: nat)
    ensures (x % WRAP - y) % WRAP == (x - y) % WRAP
  {
    assert x == WRAP * (x / WRAP) + x % WRAP;
  }

  lemma ModBoth(x: nat, y: nat)
    ensures (x % WRAP - y % WRAP) % WRAP == (x - y) % WRAP
  {
    assert x == WRAP * (x / WRAP) + x % WRAP && y == WRAP * (y / WRAP) + y % WRAP;
    assert x - y == WRAP * (x / WRAP - y / WRAP) + (x % WRAP - y % WRAP);
  }

  lemma NotSame(j: nat, k: nat)
    requires k < j < k + WRAP
    ensures j % WRAP != k % WRAP
  { }

  /** The test is right for every event index the guest may have set exactly when fewer
      than 2^16 completions were made since the last signal. */
  lemma NeedEventExactly(a: nat, n: nat)
    requires a <= n
    ensures n - a < WRAP <==>
            forall event: nat :: event < WRAP ==> (NeedEvent(event, n % WRAP, a % WRAP) <==> Crossed(a, n, event))
  {
    if n - a < WRAP {
      forall event: nat | event < WRAP
        ensures NeedEvent(event, n % WRAP, a % WRAP) <==> Crossed(a, n, event)
      {
        NeedEventIs(a, n, event);
      }
    } else {
      var m := (n - a) % WRAP;
      var k := n - m - 1;
      var event := k % WRAP;
      NeedEventIs(a, n, event);
      assert Crossed(a, n, event);
      forall j: nat | n - m <= j < n ensures j % WRAP != event { NotSame(j, k); }
      assert !NeedEvent(event, n % WRAP, a % WRAP);
    }
  }

  // --------------------------------------------------------------------- the queue

  class Queue {
    const ring: array<Elem>
    const useEventIdx: bool
    var idx: nat
    var lastUsedSignalled: nat
    ghost var log: seq<Elem>       // every completion ever published
    ghost var pending: seq<Elem>   // written to the ring, not yet published
    ghost var signalledAt: nat     // how many were published at the last signal

    /** The ring holds the most recent completions, through any number of wraps. */
    ghost predicate Valid()
      reads this, ring
    {
      && ring.Length > 0 && (exists q: nat :: WRAP == ring.Length * q)
      && idx == |log| % WRAP
      && signalledAt <= |log| && lastUsedSignalled == signalledAt % WRAP
      && Shows(ring[..], log + pending)
    }

    constructor (num: nat, eventIdx: bool)
      requires num > 0 && exists q: nat :: WRAP == num * q
      ensures Valid() && log == [] && pending == [] && signalledAt == 0 && useEventIdx == eventIdx
      ensures fresh(ring) && ring.Length == num
    {
      ring := new Elem[num](_ => Elem(0, 0));
      useEventIdx, idx, lastUsedSignalled := eventIdx, 0, 0;
      log, pending, signalledAt := [], [], 0;
    }

    method SetUsedElemNoUpdate(head: nat, len: nat, offset: nat)
      requires Valid() && offset == |pending| < WRAP
      modifies this`pending, ring
      ensures Valid() && pending == old(pending) + [Elem(head, len)]
    {
      var q: nat :| WRAP == ring.Length * q;
      ghost var total, was := log + pending, ring[..];
      var at := (idx + offset) % WRAP;
      assert at == |total| % WRAP;
      ModMod(|total|, ring.Length, q);
      ring[Rem(at, ring.Length)] := Elem(head, len);
      pending := pending + [Elem(head, len)];
      assert ring[..] == was[Rem(|total|, |was|) := Elem(head, len)];
      ShowsOneMore(was, total, Elem(head, len));
      assert log + pending == total + [Elem(head, len)];
    }

    method UsedIdxAdvance(jump: nat)
      requires Valid() && jump <= |pending| && jump < WRAP
      modifies this`idx, this`log, this`pending
      ensures Valid() && log == old(log) + old(pending)[..jump] && pending == old(pending)[jump..]
    {
      hide Shows;
      ghost var total := log + pending;
      idx := (idx + jump) % WRAP;
      log, pending := log + pending[..jump], pending[jump..];
      assert log + pending == total;
    }

    method SetUsedElem(head: nat, len: nat)
      requires Valid() && pending == []
      modifies this`idx, this`log, this`pending, ring
      ensures Valid() && log == old(log) + [Elem(head, len)] && pending == []
    {
      SetUsedElemNoUpdate(head, len, 0);
      UsedIdxAdvance(1);
    }

    /** Given fewer than 2^16 completions since the last signal, the guest is signalled
        exactly when the index it asked for was crossed. */
    method ShouldSignal(eventIdx: nat, noInterrupt: bool) returns (signal: bool)
      requires Valid() && eventIdx < WRAP
      modifies this`lastUsedSignalled, this`signalledAt
      ensures Valid()
      ensures !useEventIdx ==> signal == !noInterrupt && signalledAt == old(signalledAt)
      ensures useEventIdx ==> signalledAt == if signal then |log| else old(signalledAt)
      ensures useEventIdx && |log| - old(signalledAt) < WRAP ==>
                (signal <==> Crossed(old(signalledAt), |log|, eventIdx))
    {
      hide Shows, Crossed, NeedEvent;
      if !useEventIdx { return !noInterrupt; }
      NeedEventIs(signalledAt, |log|, eventIdx);
      if NeedEvent(eventIdx, idx, lastUsedSignalled) {
        lastUsedSignalled := idx;
        signalledAt := |log|;
        return true;
      }
      return false;
    }
  }

  /** Slot by slot, the ring holds the last |ring| elements of `total`. */
  ghost predicate Shows(ring: seq<Elem>, total: seq<Elem>)
    requires |ring| > 0
  {
    forall k :: 0 <= k < |total| && |total| - |ring| <= k ==> ring[Rem(k, |ring|)] == total[k]
  }

  lemma ShowsOneMore(ring: seq<Elem>, total: seq<Elem>, x: Elem)
    requires |ring| > 0 && Shows(ring, total)
    ensures Shows(ring[Rem(|total|, |ring|) := x], total + [x])
  {
    forall k: nat | k < |total| && |total| + 1 - |ring| <= k ensures Rem(k, |ring|) != Rem(|total|, |ring|) {
      Slots(k, |total|, |ring|);
    }
  }
}
