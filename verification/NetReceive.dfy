/** Receiving one packet into mergeable buffers (the packet loop of virtio_net_rx_thread in
    virtio/net.c; section 5.1.6.4 of Virtio 1.2): the packet is cut over as many descriptor
    chains as it needs, and all of them are published at once. */
module NetReceive {
  import opened Iovec
  import opened UsedRing

  /** Where num_buffers lies in the packet header, and where the header ends. */
  const NUM_BUFFERS_AT := 10
  const HEADER_SIZE := 12

  datatype Chain = Chain(head: nat, iov: seq<array<Byte>>)

  function Bytes(c: Chain): seq<Byte>
    reads set a | a in c.iov
  {
    Join(Contents(c.iov))
  }

  function Arrays(chains: seq<Chain>): set<array<Byte>> {
    set c, a | c in chains && a in c.iov :: a
  }

  /** No buffer is offered twice. */
  ghost predicate NoSharing(chains: seq<Chain>) {
    && (forall k :: 0 <= k < |chains| ==> Separate(chains[k].iov))
    && (forall k, l :: 0 <= k < l < |chains| ==> forall a <- chains[k].iov :: a !in chains[l].iov)
  }

  function Size(iov: seq<array<Byte>>): nat {
    if iov == [] then 0 else iov[0].Length + Size(iov[1..])
  }

  lemma {:induction false} SizeIs(iov: seq<array<Byte>>)
    ensures |Join(Contents(iov))| == Size(iov)
  {
    if iov != [] {
      SizeIs(iov[1..]);
      assert Contents(iov)[1..] == Contents(iov[1..]);
    }
  }

  function Sizes(chains: seq<Chain>): (r: seq<nat>)
    ensures |r| == |chains|
  {
    seq<nat>(|chains|, k requires 0 <= k < |chains| => Size(chains[k].iov))
  }

  /** How a packet of `len` bytes is cut over chains of these sizes. */
  function Cut(sizes: seq<nat>, len: nat): (r: seq<nat>)
    requires Sum(sizes) >= len
    ensures |r| <= |sizes| && forall k :: 0 <= k < |r| ==> r[k] <= sizes[k]
  {
    if len == 0 then [] else [Min(len, sizes[0])] + Cut(sizes[1..], len - Min(len, sizes[0]))
  }

  /** The used lengths add up to the packet, every chain but the last is full, and with
      positive sizes every chain used carries something. */
  lemma {:induction false} CutWhole(sizes: seq<nat>, len: nat)
    requires Sum(sizes) >= len
    ensures Sum(Cut(sizes, len)) == len
    ensures forall k :: 0 <= k < |Cut(sizes, len)| - 1 ==> Cut(sizes, len)[k] == sizes[k]
    ensures (forall k :: 0 <= k < |sizes| ==> sizes[k] > 0) ==>
              forall k :: 0 <= k < |Cut(sizes, len)| ==> Cut(sizes, len)[k] > 0
  {
    if len > 0 {
      var m := Min(len, sizes[0]);
      var rest := Cut(sizes[1..], len - m);
      CutWhole(sizes[1..], len - m);
      assert Cut(sizes, len)[1..] == rest;
      forall k | 0 <= k < |Cut(sizes, len)| - 1 ensures Cut(sizes, len)[k] == sizes[k] {
        if k > 0 { assert Cut(sizes, len)[k] == rest[k - 1] == sizes[1..][k - 1]; }
      }
    }
  }

  /** The used-ring entries of a packet. */
  function Entries(chains: seq<Chain>, lens: seq<nat>): (r: seq<Elem>)
    requires |lens| <= |chains|
    ensures |r| == |lens|
  {
    seq<Elem>(|lens|, k requires 0 <= k < |lens| => Elem(chains[k].head, lens[k]))
  }

  /** What each chain holds. */
  function Views(chains: seq<Chain>): (r: seq<seq<Byte>>)
    reads Arrays(chains)
    ensures |r| == |chains|
  {
    seq<seq<Byte>>(|chains|, k requires 0 <= k < |chains| reads Arrays(chains) => Bytes(chains[k]))
  }

  /** Chain by chain, what was received so far lies at the front of each buffer. */
  ghost predicate Landed(views: seq<seq<Byte>>, parts: seq<seq<Byte>>) {
    && |parts| <= |views|
    && forall k :: 0 <= k < |parts| ==> |parts[k]| <= |views[k]| && views[k][..|parts[k]|] == parts[k]
  }

  lemma LandedMore(views: seq<seq<Byte>>, parts: seq<seq<Byte>>, piece: seq<Byte>)
    requires Landed(views, parts) && |parts| < |views| && |piece| <= |views[|parts|]|
    ensures Landed(views[|parts| := Overlay(views[|parts|], 0, piece)], parts + [piece])
  {
    assert Overlay(views[|parts|], 0, piece)[..|piece|] == piece;
  }

  /** One chain: copy the next piece of the packet to its front. */
  method Land(chains: seq<Chain>, i: nat, piece: seq<Byte>)
    requires NoSharing(chains) && i < |chains| && |piece| <= Size(chains[i].iov)
    modifies Arrays(chains)
    ensures |piece| <= |old(Views(chains))[i]|
    ensures Views(chains) == old(Views(chains))[i := Overlay(old(Views(chains))[i], 0, piece)]
  {
    hide Join, Size, Overlay;
    SizeIs(chains[i].iov);
    ghost var was := Views(chains);
    assert forall a <- chains[i].iov :: a in Arrays(chains);
    var copied := CopyTo(chains[i].iov, 0, piece);
    forall k | 0 <= k < |chains| && k != i ensures Bytes(chains[k]) == was[k] {
      assert forall a <- chains[k].iov :: a !in chains[i].iov;
    }
    assert Bytes(chains[i]) == Overlay(was[i], 0, piece);
  }

  method IovSize(iov: seq<array<Byte>>) returns (size: nat)
    ensures size == Size(iov)
  {
    size := 0;
    for i := 0 to |iov|
      invariant Size(iov) == size + Size(iov[i..])
    {
      assert iov[i..][1..] == iov[i + 1..];
      size := size + iov[i].Length;
    }
  }

  /** A 16-bit number as the guest reads it, little- or big-endian. */
  function U16Bytes(n: nat, bigEndian: bool): (r: seq<Byte>)
    requires n < WRAP
    ensures |r| == 2
  {
    if bigEndian then [n / 0x100, n % 0x100] else [n % 0x100, n / 0x100]
  }

  /** The pieces a packet is cut into. */
  function Pieces(packet: seq<Byte>, lens: seq<nat>): (r: seq<seq<Byte>>)
    requires Sum(lens) <= |packet|
    ensures |r| == |lens|
    ensures forall k :: 0 <= k < |r| ==> |r[k]| == lens[k]
  {
    if lens == [] then [] else [packet[..lens[0]]] + Pieces(packet[lens[0]..], lens[1..])
  }

  lemma {:induction false} PiecesJoin(packet: seq<Byte>, lens: seq<nat>)
    requires Sum(lens) == |packet|
    ensures Join(Pieces(packet, lens)) == packet
  {
    if lens != [] {
      PiecesJoin(packet[lens[0]..], lens[1..]);
      assert Pieces(packet, lens)[1..] == Pieces(packet[lens[0]..], lens[1..]);
      assert packet[..lens[0]] + packet[lens[0]..] == packet;
    }
  }

  /** The lengths used so far, and those to come. */
  ghost predicate Cutting(sizes: seq<nat>, len: nat, i: nat, left: nat, lens: seq<nat>) {
    && i <= |sizes| && |lens| == i && Sum(sizes) >= len && Sum(sizes[i..]) >= left
    && Cut(sizes, len) == lens + Cut(sizes[i..], left)
  }

  lemma SumPositive(sizes: seq<nat>, left: nat)
    requires Sum(sizes) >= left && left > 0
    ensures sizes != [] && Sum(sizes[1..]) >= left - Min(left, sizes[0])
  { }

  lemma CutMore(sizes: seq<nat>, len: nat, i: nat, left: nat, lens: seq<nat>)
    requires Cutting(sizes, len, i, left, lens) && left > 0
    ensures i < |sizes| && i < |Cut(sizes, len)|
    ensures var n := Min(left, sizes[i]);
            Cutting(sizes, len, i + 1, left - n, lens + [n])
  {
    hide Sum, Cut;
    CutNext(sizes, i, left);
    var n := Min(left, sizes[i]);
    Longer(lens, n, Cut(sizes[i + 1..], left - n));
  }

  /** The next chain takes what it can of what is left. */
  lemma CutNext(sizes: seq<nat>, i: nat, left: nat)
    requires i <= |sizes| && Sum(sizes[i..]) >= left > 0
    ensures i < |sizes| && Sum(sizes[i + 1..]) >= left - Min(left, sizes[i])
    ensures Cut(sizes[i..], left) == [Min(left, sizes[i])] + Cut(sizes[i + 1..], left - Min(left, sizes[i]))
  {
    hide Sum, Cut;
    var rest := sizes[i..];
    SumPositive(rest, left);
    assert rest[0] == sizes[i] && rest[1..] == sizes[i + 1..];
    CutOnce(rest, left);
  }

  lemma Longer(lens: seq<nat>, n: nat, c: seq<nat>)
    ensures lens + ([n] + c) == lens + [n] + c
  { }

  lemma CutOnce(sizes: seq<nat>, left: nat)
    requires Sum(sizes) >= left > 0 && sizes != [] && Sum(sizes[1..]) >= left - Min(left, sizes[0])
    ensures Cut(sizes, left) == [Min(left, sizes[0])] + Cut(sizes[1..], left - Min(left, sizes[0]))
  { }

  /** The pieces received so far, the lengths to come being `next`. */
  ghost predicate Splitting(packet: seq<Byte>, all: seq<nat>, copied: nat, next: seq<nat>, parts: seq<seq<Byte>>) {
    && Sum(all) == |packet| && copied <= |packet| && Sum(next) == |packet| - copied
    && Pieces(packet, all) == parts + Pieces(packet[copied..], next)
  }

  lemma SplitMore(packet: seq<Byte>, all: seq<nat>, copied: nat, next: seq<nat>, parts: seq<seq<Byte>>)
    requires Splitting(packet, all, copied, next, parts) && next != []
    ensures copied + next[0] <= |packet|
    ensures Splitting(packet, all, copied + next[0], next[1..], parts + [packet[copied..copied + next[0]]])
  {
    var p, tail := packet[copied..][..next[0]], packet[copied..][next[0]..];
    assert p == packet[copied..copied + next[0]] && tail == packet[copied + next[0]..];
    assert parts + ([p] + Pieces(tail, next[1..])) == parts + [p] + Pieces(tail, next[1..]);
  }

  /** Where the loop stands after i chains and `copied` bytes. */
  ghost predicate Going(sizes: seq<nat>, packet: seq<Byte>, i: nat, copied: nat,
                        lens: seq<nat>, parts: seq<seq<Byte>>)
  {
    && |parts| == i && copied <= |packet|
    && Cutting(sizes, |packet|, i, |packet| - copied, lens)
    && Splitting(packet, Cut(sizes, |packet|), copied, Cut(sizes[i..], |packet| - copied), parts)
  }

  lemma GoingStarts(sizes: seq<nat>, packet: seq<Byte>)
    requires Sum(sizes) >= |packet|
    ensures Going(sizes, packet, 0, 0, [], [])
  {
    hide Cut, Pieces, Sum;
    assert sizes[0..] == sizes && packet[0..] == packet;
    CutWhole(sizes, |packet|);
    var c := Cut(sizes, |packet|);
    assert [] + c == c && [] + Pieces(packet, c) == Pieces(packet, c);
  }

  lemma GoingOn(sizes: seq<nat>, packet: seq<Byte>, i: nat, copied: nat, lens: seq<nat>, parts: seq<seq<Byte>>)
    requires Going(sizes, packet, i, copied, lens, parts) && copied < |packet|
    ensures i < |sizes| && i < |Cut(sizes, |packet|)|
    ensures var n := Min(|packet| - copied, sizes[i]);
            Going(sizes, packet, i + 1, copied + n, lens + [n], parts + [packet[copied..copied + n]])
  {
    hide Pieces, Sum, Splitting, Cutting, Cut;
    CutMore(sizes, |packet|, i, |packet| - copied, lens);
    CutHead(sizes, i, |packet| - copied, packet, lens);
    SplitMore(packet, Cut(sizes, |packet|), copied, Cut(sizes[i..], |packet| - copied), parts);
  }

  lemma CutHead(sizes: seq<nat>, i: nat, left: nat, packet: seq<Byte>, lens: seq<nat>)
    requires Cutting(sizes, |packet|, i, left, lens) && i < |sizes| && left > 0
    ensures Sum(sizes) >= |packet| && Sum(sizes[i..]) >= left
    ensures var c, n := Cut(sizes[i..], left), Min(left, sizes[i]);
            c != [] && c[0] == n && Sum(sizes[i + 1..]) >= left - n && c[1..] == Cut(sizes[i + 1..], left - n)
  {
    assert sizes[i..][0] == sizes[i] && sizes[i..][1..] == sizes[i + 1..];
  }

  lemma GoingEnds(sizes: seq<nat>, packet: seq<Byte>, i: nat, lens: seq<nat>, parts: seq<seq<Byte>>)
    requires Going(sizes, packet, i, |packet|, lens, parts) && Sum(sizes) >= |packet|
    ensures lens == Cut(sizes, |packet|) && Sum(lens) == |packet| && parts == Pieces(packet, lens)
    ensures Join(parts) == packet
  {
    assert Cut(sizes[i..], 0) == [] && lens + [] == lens;
    assert packet[|packet|..] == [] && parts + [] == parts;
    PiecesJoin(packet, lens);
  }

  /** One packet.  All chains it needs are available; the program waits for them. */
  method ReceivePacket(vq: Queue, packet: seq<Byte>, chains: seq<Chain>) returns (numBuffers: nat, ghost lens: seq<nat>)
    requires vq.Valid() && vq.pending == [] && NoSharing(chains)
    requires Sum(Sizes(chains)) >= |packet| && |Cut(Sizes(chains), |packet|)| < WRAP
    modifies vq`pending, vq.ring, Arrays(chains)
    ensures vq.Valid() && lens == Cut(Sizes(chains), |packet|) && numBuffers == |lens|
    ensures Sum(lens) == |packet| && |lens| <= |chains|
    ensures vq.pending == Entries(chains, lens)
    ensures Landed(Views(chains), Pieces(packet, lens)) && Join(Pieces(packet, lens)) == packet
  {
    hide Going, Landed, Views, Overlay, NoSharing, Entries, Cut, Pieces, Sum, Queue.Valid;
    ghost var sizes := Sizes(chains);
    ghost var parts: seq<seq<Byte>> := [];
    var i: nat, copied: nat := 0, 0;
    lens := [];
    numBuffers := 0;
    GoingStarts(sizes, packet);
    NothingLanded(chains);
    while copied < |packet|
      invariant Going(sizes, packet, i, copied, lens, parts) && numBuffers == i == |lens| == |parts|
      invariant copied <= |packet| && i <= |chains|
      invariant Landed(Views(chains), parts) && vq.Valid() && vq.pending == Entries(chains, lens)
      decreases |chains| - i
    {
      GoingOn(sizes, packet, i, copied, lens, parts);
      var size := IovSize(chains[i].iov);
      var iovsize := Min(|packet| - copied, size);
      var p := packet[copied..copied + iovsize];
      SizeIs(chains[i].iov);
      ghost var views := Views(chains);
      Land(chains, i, p);
      LandedMore(views, parts, p);
      vq.SetUsedElemNoUpdate(chains[i].head, iovsize, numBuffers);
      EntriesMore(chains, lens, iovsize);
      numBuffers := numBuffers + 1;
      copied := copied + iovsize;
      lens := lens + [iovsize];
      parts := parts + [p];
      i := i + 1;
    }
    GoingEnds(sizes, packet, i, lens, parts);
  }

  lemma NothingLanded(chains: seq<Chain>)
    ensures Landed(Views(chains), []) && Entries(chains, []) == []
  { }

  lemma EntriesMore(chains: seq<Chain>, lens: seq<nat>, n: nat)
    requires |lens| < |chains|
    ensures Entries(chains, lens + [n]) == Entries(chains, lens) + [Elem(chains[|lens|].head, n)]
  { }

  lemma OverlayFirst(bufs: seq<seq<Byte>>, at: nat, d: seq<Byte>)
    requires bufs != [] && at + |d| <= |bufs[0]|
    ensures Join(bufs[0 := Overlay(bufs[0], at, d)]) == Overlay(Join(bufs), at, d)
  {
    var now := bufs[0 := Overlay(bufs[0], at, d)];
    assert now[1..] == bufs[1..];
  }

  /** The header field, in the first buffer of the first chain. */
  method SetNumBuffers(chains: seq<Chain>, d: seq<Byte>)
    requires NoSharing(chains) && chains != [] && chains[0].iov != []
    requires |d| == 2 && chains[0].iov[0].Length >= HEADER_SIZE
    modifies Arrays(chains)
    ensures Views(chains) == old(Views(chains))[0 := Overlay(old(Views(chains))[0], NUM_BUFFERS_AT, d)]
  {
    hide Join, Overlay;
    ghost var was, bufs := Views(chains), Contents(chains[0].iov);
    assert chains[0] in chains && chains[0].iov[0] in chains[0].iov;
    assert chains[0].iov[0] in Arrays(chains);
    Store(chains[0].iov[0], NUM_BUFFERS_AT, d);
    assert Contents(chains[0].iov) == bufs[0 := Overlay(bufs[0], NUM_BUFFERS_AT, d)];
    OverlayFirst(bufs, NUM_BUFFERS_AT, d);
    forall k | 0 < k < |chains| ensures Bytes(chains[k]) == was[k] {
      assert forall a <- chains[0].iov :: a !in chains[k].iov;
    }
    assert Bytes(chains[0]) == Overlay(was[0], NUM_BUFFERS_AT, d);
  }

  /** The header lies whole in the first piece, so writing it in the buffer is writing it
      in the packet. */
  lemma HeaderLands(views: seq<seq<Byte>>, parts: seq<seq<Byte>>, d: seq<Byte>)
    requires Landed(views, parts) && views != [] && |d| == 2
    requires |parts| > 0 ==> |parts[0]| >= HEADER_SIZE || |parts| == 1
    ensures var now := views[0 := Overlay(views[0], NUM_BUFFERS_AT, d)];
            var put := if parts == [] then [] else parts[0 := Overlay(parts[0], NUM_BUFFERS_AT, d)];
            Landed(now, put) && Join(put) == Overlay(Join(parts), NUM_BUFFERS_AT, d)
  {
    if parts != [] {
      PrefixOverlay(views[0], |parts[0]|, NUM_BUFFERS_AT, d);
      var put := parts[0 := Overlay(parts[0], NUM_BUFFERS_AT, d)];
      assert put[1..] == parts[1..];
      if |parts[0]| >= HEADER_SIZE {
        OverlayFirst(parts, NUM_BUFFERS_AT, d);
      } else {
        assert parts[1..] == [] && Join(parts) == parts[0] && Join(put) == put[0];
      }
    }
  }

  lemma PrefixOverlay(s: seq<Byte>, n: nat, at: nat, d: seq<Byte>)
    requires n <= |s|
    ensures Overlay(s, at, d)[..n] == Overlay(s[..n], at, d)
  { }

  /** The packet as the guest finds it. */
  function Delivered(packet: seq<Byte>, numBuffers: nat, mergeable: bool, bigEndian: bool): seq<Byte>
    requires numBuffers < WRAP
  {
    if mergeable then Overlay(packet, NUM_BUFFERS_AT, U16Bytes(numBuffers, bigEndian)) else packet
  }

  /** Some pieces, of these lengths, lie at the front of the buffers and make up `bytes`. */
  ghost predicate Carries(views: seq<seq<Byte>>, lens: seq<nat>, bytes: seq<Byte>) {
    exists parts: seq<seq<Byte>> ::
      && |parts| == |lens| && (forall k :: 0 <= k < |lens| ==> |parts[k]| == lens[k])
      && Landed(views, parts) && Join(parts) == bytes
  }

  /** A packet of the receive loop: spread over the chains, num_buffers filled in, and all
      used entries published by one advance of the index. */
  method Receive(vq: Queue, packet: seq<Byte>, chains: seq<Chain>, mergeable: bool, bigEndian: bool)
    returns (numBuffers: nat, ghost lens: seq<nat>)
    requires vq.Valid() && vq.pending == [] && NoSharing(chains)
    requires Sum(Sizes(chains)) >= |packet| && |Cut(Sizes(chains), |packet|)| < WRAP
    requires mergeable ==> chains != [] && chains[0].iov != [] && chains[0].iov[0].Length >= HEADER_SIZE
    modifies vq, vq.ring, Arrays(chains)
    ensures vq.Valid() && vq.pending == [] && numBuffers == |lens| < WRAP
    ensures lens == Cut(Sizes(chains), |packet|) && |lens| <= |chains| && Sum(lens) == |packet|
    ensures vq.log == old(vq.log) + Entries(chains, lens)
    ensures Carries(Views(chains), lens, Delivered(packet, numBuffers, mergeable, bigEndian))
  {
    hide Landed, NoSharing, Entries, Cut, Pieces, Sum, Queue.Valid, Views, Join, Overlay;
    numBuffers, lens := ReceivePacket(vq, packet, chains);
    ghost var views, parts := Views(chains), Pieces(packet, lens);
    if mergeable {
      FirstPiece(chains, packet);
      SetNumBuffers(chains, U16Bytes(numBuffers, bigEndian));
      HeaderLands(views, parts, U16Bytes(numBuffers, bigEndian));
    }
    vq.UsedIdxAdvance(numBuffers);
    assert vq.pending == [];
  }

  lemma FirstPiece(chains: seq<Chain>, packet: seq<Byte>)
    requires chains != [] && chains[0].iov != [] && chains[0].iov[0].Length >= HEADER_SIZE
    requires Sum(Sizes(chains)) >= |packet|
    ensures var lens := Cut(Sizes(chains), |packet|);
            |lens| > 0 ==> lens[0] >= HEADER_SIZE || |lens| == 1
  {
    assert Size(chains[0].iov) >= HEADER_SIZE;
    var sizes := Sizes(chains);
    if |packet| > 0 && |packet| < HEADER_SIZE {
      assert Cut(sizes[1..], 0) == [];
    }
  }

  // ------------------------------------------------------------- what the guest reads

  /** The guest reads the number in the byte order of its queue. */
  lemma U16Reads(n: nat)
    requires n < WRAP
    ensures var le := U16Bytes(n, false); (le[0] as int) + 0x100 * (le[1] as int) == n
    ensures var be := U16Bytes(n, true); (be[1] as int) + 0x100 * (be[0] as int) == n
  { }

  /** With mergeable buffers the guest finds the number of buffers at byte 10 of the header
      and every other byte of the packet as it was; without, just the packet. */
  lemma DeliveredReads(packet: seq<Byte>, n: nat, bigEndian: bool)
    requires n < WRAP && |packet| >= HEADER_SIZE
    ensures Delivered(packet, n, false, bigEndian) == packet
    ensures var d := Delivered(packet, n, true, bigEndian);
            && |d| == |packet|
            && (if bigEndian then (d[11] as int) + 0x100 * (d[10] as int) else (d[10] as int) + 0x100 * (d[11] as int)) == n
            && forall k :: 0 <= k < |packet| && k != 10 && k != 11 ==> d[k] == packet[k]
  {
    U16Reads(n);
    hide U16Bytes;
  }

  /** One used entry a chain, in order, with the chain's head and the bytes written to it. */
  lemma EntriesRead(chains: seq<Chain>, lens: seq<nat>, k: nat)
    requires |lens| <= |chains| && k < |lens|
    ensures |Entries(chains, lens)| == |lens|
    ensures Entries(chains, lens)[k].id == chains[k].head && Entries(chains, lens)[k].len == lens[k]
  { }
}
