/** Buffers cut into pieces (util/iovec.c and the copy loops of virtio/9p-pdu.c): copying
    to or from the pieces is copying to or from their concatenation. */
module Iovec {
  type Byte = n: nat | n < 0x100

  function Contents(iov: seq<array<Byte>>): (r: seq<seq<Byte>>)
    reads set a | a in iov
    ensures |r| == |iov|
  {
    seq<seq<Byte>>(|iov|, i requires 0 <= i < |iov| reads set a | a in iov => iov[i][..])
  }

  function Join(bufs: seq<seq<Byte>>): seq<Byte> {
    if bufs == [] then [] else bufs[0] + Join(bufs[1..])
  }

  function Sum(lens: seq<nat>): nat {
    if lens == [] then 0 else lens[0] + Sum(lens[1..])
  }

  lemma {:induction false} JoinPlus(bufs: seq<seq<Byte>>, last: seq<Byte>)
    ensures Join(bufs + [last]) == Join(bufs) + last
  {
    if bufs == [] {
      assert [last][1..] == [];
    } else {
      JoinPlus(bufs[1..], last);
      assert (bufs + [last])[1..] == bufs[1..] + [last];
    }
  }

  ghost predicate Separate(iov: seq<array<Byte>>) {
    forall i, j :: 0 <= i < j < |iov| ==> iov[i] != iov[j]
  }

  /** The first `i` buffers hold `done`, the others still what they held. */
  ghost predicate Filled(iov: seq<array<Byte>>, i: nat, was: seq<seq<Byte>>, done: seq<seq<Byte>>)
    reads set a | a in iov
  {
    && |was| == |iov| && |done| == i <= |iov|
    && (forall k :: 0 <= k < |iov| ==> iov[k].Length == |was[k]|)
    && (forall k :: 0 <= k < i ==> iov[k][..] == done[k])
    && (forall k :: i <= k < |iov| ==> iov[k][..] == was[k])
  }

  lemma NoneFilled(iov: seq<array<Byte>>)
    ensures Filled(iov, 0, Contents(iov), [])
  { }

  lemma AllFilled(iov: seq<array<Byte>>, was: seq<seq<Byte>>, done: seq<seq<Byte>>)
    requires Filled(iov, |iov|, was, done)
    ensures Contents(iov) == done && |was| == |iov|
  { }

  function Min(a: nat, b: nat): nat { if a < b then a else b }

  /** The bytes at most `n` long from `offset` on; fewer where the sequence ends. */
  function Slice(s: seq<Byte>, offset: nat, n: nat): seq<Byte> {
    s[Min(offset, |s|)..Min(offset + n, |s|)]
  }

  /** `data` laid over the sequence at `offset`, as far as the sequence reaches. */
  function Overlay(s: seq<Byte>, offset: nat, data: seq<Byte>): (r: seq<Byte>)
    ensures |r| == |s|
  {
    s[..Min(offset, |s|)] + data[..Min(|data|, |s| - Min(offset, |s|))] + s[Min(offset + |data|, |s|)..]
  }

  // ------------------------------------------------------------ piece by piece

  function ReadPieces(bufs: seq<seq<Byte>>, offset: nat, n: nat): seq<Byte>
    decreases |bufs|
  {
    if bufs == [] || n == 0 then []
    else if offset >= |bufs[0]| then ReadPieces(bufs[1..], offset - |bufs[0]|, n)
    else
      var m := Min(|bufs[0]| - offset, n);
      bufs[0][offset..offset + m] + ReadPieces(bufs[1..], 0, n - m)
  }

  function WritePieces(bufs: seq<seq<Byte>>, offset: nat, data: seq<Byte>): (r: seq<seq<Byte>>)
    ensures |r| == |bufs| && forall i :: 0 <= i < |r| ==> |r[i]| == |bufs[i]|
    decreases |bufs|
  {
    if bufs == [] || data == [] then bufs
    else if offset >= |bufs[0]| then [bufs[0]] + WritePieces(bufs[1..], offset - |bufs[0]|, data)
    else
      var m := Min(|bufs[0]| - offset, |data|);
      [Overlay(bufs[0], offset, data[..m])] + WritePieces(bufs[1..], 0, data[m..])
  }

  lemma {:induction false} ReadIsSlice(bufs: seq<seq<Byte>>, offset: nat, n: nat)
    ensures ReadPieces(bufs, offset, n) == Slice(Join(bufs), offset, n)
    decreases |bufs|
  {
    if bufs != [] && n > 0 {
      var rest := Join(bufs[1..]);
      if offset >= |bufs[0]| {
        ReadIsSlice(bufs[1..], offset - |bufs[0]|, n);
        SliceSkips(bufs[0], rest, offset, n);
      } else {
        var m := Min(|bufs[0]| - offset, n);
        ReadIsSlice(bufs[1..], 0, n - m);
        SliceSplits(bufs[0], rest, offset, n);
      }
    }
  }

  lemma SliceSkips(a: seq<Byte>, b: seq<Byte>, offset: nat, n: nat)
    requires offset >= |a|
    ensures Slice(a + b, offset, n) == Slice(b, offset - |a|, n)
  { }

  lemma SliceSplits(a: seq<Byte>, b: seq<Byte>, offset: nat, n: nat)
    requires offset < |a|
    ensures var m := Min(|a| - offset, n);
            Slice(a + b, offset, n) == a[offset..offset + m] + Slice(b, 0, n - m)
  { }

  lemma {:induction false} WriteIsOverlay(bufs: seq<seq<Byte>>, offset: nat, data: seq<Byte>)
    ensures Join(WritePieces(bufs, offset, data)) == Overlay(Join(bufs), offset, data)
    decreases |bufs|
  {
    hide Overlay;
    if data == [] {
      OverlayNothing(Join(bufs), offset);
    } else if bufs != [] {
      var rest, w := Join(bufs[1..]), WritePieces(bufs, offset, data);
      if offset >= |bufs[0]| {
        WriteIsOverlay(bufs[1..], offset - |bufs[0]|, data);
        OverlaySkips(bufs[0], rest, offset, data);
        assert w[0] == bufs[0] && w[1..] == WritePieces(bufs[1..], offset - |bufs[0]|, data);
      } else {
        var m := Min(|bufs[0]| - offset, |data|);
        WriteIsOverlay(bufs[1..], 0, data[m..]);
        OverlaySplits(bufs[0], rest, offset, data);
        assert w[0] == Overlay(bufs[0], offset, data[..m]) && w[1..] == WritePieces(bufs[1..], 0, data[m..]);
      }
    }
  }

  lemma OverlayNothing(s: seq<Byte>, offset: nat)
    ensures Overlay(s, offset, []) == s
  { }

  lemma OverlaySkips(a: seq<Byte>, b: seq<Byte>, offset: nat, data: seq<Byte>)
    requires offset >= |a|
    ensures Overlay(a + b, offset, data) == a + Overlay(b, offset - |a|, data)
  { }

  lemma OverlaySplits(a: seq<Byte>, b: seq<Byte>, offset: nat, data: seq<Byte>)
    requires offset < |a|
    ensures var m := Min(|a| - offset, |data|);
            Overlay(a + b, offset, data) == Overlay(a, offset, data[..m]) + Overlay(b, 0, data[m..])
  { }

  // -------------------------------------------------------------------- the copy loops

  /** Where a copy out of the pieces stands before piece `i`. */
  ghost predicate Reading(bufs: seq<seq<Byte>>, offset: nat, n: nat, i: nat, off: nat, left: nat, data: seq<Byte>) {
    i <= |bufs| && ReadPieces(bufs, offset, n) == data + ReadPieces(bufs[i..], off, left)
  }

  lemma ReadStarts(bufs: seq<seq<Byte>>, offset: nat, n: nat)
    ensures Reading(bufs, offset, n, 0, offset, n, [])
  {
    assert bufs[0..] == bufs && ReadPieces(bufs, offset, n) == [] + ReadPieces(bufs, offset, n);
  }

  lemma ReadTurns(bufs: seq<seq<Byte>>, offset: nat, n: nat, i: nat, off: nat, left: nat, data: seq<Byte>)
    requires Reading(bufs, offset, n, i, off, left, data) && i < |bufs| && left > 0
    ensures off >= |bufs[i]| ==> Reading(bufs, offset, n, i + 1, off - |bufs[i]|, left, data)
    ensures off < |bufs[i]| ==>
              var m := Min(|bufs[i]| - off, left);
              Reading(bufs, offset, n, i + 1, 0, left - m, data + bufs[i][off..off + m])
  {
    assert bufs[i..][1..] == bufs[i + 1..];
    if off < |bufs[i]| {
      var m := Min(|bufs[i]| - off, left);
      var piece, rest := bufs[i][off..off + m], ReadPieces(bufs[i + 1..], 0, left - m);
      assert data + (piece + rest) == data + piece + rest;
    }
  }

  lemma ReadEnds(bufs: seq<seq<Byte>>, offset: nat, n: nat, i: nat, off: nat, left: nat, data: seq<Byte>)
    requires Reading(bufs, offset, n, i, off, left, data) && (i == |bufs| || left == 0)
    ensures data == Slice(Join(bufs), offset, n)
  {
    ReadIsSlice(bufs, offset, n);
  }

  /** Copy out of the pieces (virtio_p9_pdu_read; memcpy_fromiovecend when it fits). */
  method CopyFrom(iov: seq<array<Byte>>, offset: nat, size: nat) returns (data: seq<Byte>)
    ensures data == Slice(Join(Contents(iov)), offset, size)
  {
    hide Reading, Slice, Join;
    ghost var bufs := Contents(iov);
    var i: nat, off: nat, left: nat := 0, offset, size;
    data := [];
    ReadStarts(bufs, offset, size);
    while i < |iov| && left > 0
      invariant i <= |iov| && Reading(bufs, offset, size, i, off, left, data)
    {
      ReadTurns(bufs, offset, size, i, off, left, data);
      assert bufs[i] == iov[i][..];
      if off >= iov[i].Length {
        off := off - iov[i].Length;
      } else {
        var len := Min(iov[i].Length - off, left);
        assert bufs[i][off..off + len] == iov[i][off..off + len];
        data := data + iov[i][off..off + len];
        left := left - len;
        off := 0;
      }
      i := i + 1;
    }
    ReadEnds(bufs, offset, size, i, off, left, data);
  }

  /** memcpy into one piece. */
  method Store(a: array<Byte>, at: nat, data: seq<Byte>)
    requires at + |data| <= a.Length
    modifies a
    ensures a[..] == Overlay(old(a[..]), at, data)
  {
    for i := 0 to |data|
      invariant forall k :: 0 <= k < a.Length && !(at <= k < at + i) ==> a[k] == old(a[k])
      invariant forall k :: at <= k < at + i ==> a[k] == data[k - at]
    {
      a[at + i] := data[i];
    }
  }

  /** Where a copy into the pieces stands before piece `i`. */
  ghost predicate Copying(was: seq<seq<Byte>>, offset: nat, data: seq<Byte>,
                          i: nat, off: nat, left: seq<Byte>, done: seq<seq<Byte>>, copied: nat)
  {
    && i <= |was| && |done| == i
    && WritePieces(was, offset, data) == done + WritePieces(was[i..], off, left)
    && |ReadPieces(was, offset, |data|)| == copied + |ReadPieces(was[i..], off, |left|)|
  }

  lemma CopyStarts(was: seq<seq<Byte>>, offset: nat, data: seq<Byte>)
    ensures Copying(was, offset, data, 0, offset, data, [], 0)
  {
    assert was[0..] == was && WritePieces(was, offset, data) == [] + WritePieces(was, offset, data);
  }

  lemma CopySkips(was: seq<seq<Byte>>, offset: nat, data: seq<Byte>,
                  i: nat, off: nat, left: seq<Byte>, done: seq<seq<Byte>>, copied: nat)
    requires Copying(was, offset, data, i, off, left, done, copied) && i < |was| && left != []
    requires off >= |was[i]|
    ensures Copying(was, offset, data, i + 1, off - |was[i]|, left, done + [was[i]], copied)
  {
    assert was[i..][1..] == was[i + 1..];
    var rest := WritePieces(was[i + 1..], off - |was[i]|, left);
    assert done + ([was[i]] + rest) == done + [was[i]] + rest;
  }

  lemma CopyTurns(was: seq<seq<Byte>>, offset: nat, data: seq<Byte>,
                  i: nat, off: nat, left: seq<Byte>, done: seq<seq<Byte>>, copied: nat)
    requires Copying(was, offset, data, i, off, left, done, copied) && i < |was| && left != []
    requires off < |was[i]|
    ensures var m := Min(|was[i]| - off, |left|);
            Copying(was, offset, data, i + 1, 0, left[m..], done + [Overlay(was[i], off, left[..m])], copied + m)
  {
    hide Overlay;
    assert was[i..][1..] == was[i + 1..];
    var m := Min(|was[i]| - off, |left|);
    var piece, rest := Overlay(was[i], off, left[..m]), WritePieces(was[i + 1..], 0, left[m..]);
    assert done + ([piece] + rest) == done + [piece] + rest;
  }

  lemma CopyEnds(was: seq<seq<Byte>>, offset: nat, data: seq<Byte>,
                 i: nat, off: nat, left: seq<Byte>, done: seq<seq<Byte>>, copied: nat)
    requires Copying(was, offset, data, i, off, left, done, copied) && (i == |was| || left == [])
    ensures WritePieces(was, offset, data) == done + was[i..]
    ensures copied == |Slice(Join(was), offset, |data|)|
    ensures Join(WritePieces(was, offset, data)) == Overlay(Join(was), offset, data)
  {
    ReadIsSlice(was, offset, |data|);
    WriteIsOverlay(was, offset, data);
  }

  /** One piece of a copy. */
  method StorePiece(iov: seq<array<Byte>>, i: nat, at: nat, data: seq<Byte>,
                    ghost was: seq<seq<Byte>>, ghost done: seq<seq<Byte>>)
    requires Separate(iov) && i < |iov| && Filled(iov, i, was, done) && at + |data| <= iov[i].Length
    modifies iov[i]
    ensures Filled(iov, i + 1, was, done + [Overlay(was[i], at, data)])
  {
    Store(iov[i], at, data);
  }

  lemma LeaveRest(iov: seq<array<Byte>>, i: nat, was: seq<seq<Byte>>, done: seq<seq<Byte>>)
    requires Filled(iov, i, was, done)
    ensures i <= |was| && Contents(iov) == done + was[i..]
    ensures i < |iov| ==> iov[i].Length == |was[i]| && Filled(iov, i + 1, was, done + [was[i]])
  { }

  /** Copy into the pieces (virtio_p9_pdu_write; memcpy_toiovecend when it fits). */
  method CopyTo(iov: seq<array<Byte>>, offset: nat, data: seq<Byte>) returns (copied: nat)
    requires Separate(iov)
    modifies set a | a in iov
    ensures Contents(iov) == WritePieces(old(Contents(iov)), offset, data)
    ensures Join(Contents(iov)) == Overlay(old(Join(Contents(iov))), offset, data)
    ensures copied == |Slice(old(Join(Contents(iov))), offset, |data|)|
  {
    hide Copying, Filled, Contents, Overlay, Slice, WritePieces, Join;
    ghost var was := Contents(iov);
    ghost var done: seq<seq<Byte>> := [];
    var i: nat, off: nat, left := 0, offset, data;
    copied := 0;
    NoneFilled(iov);
    CopyStarts(was, offset, data);
    while i < |iov| && left != []
      invariant i <= |iov| == |was| && Filled(iov, i, was, done)
      invariant Copying(was, offset, data, i, off, left, done, copied)
    {
      LeaveRest(iov, i, was, done);
      if off >= iov[i].Length {
        CopySkips(was, offset, data, i, off, left, done, copied);
        done := done + [was[i]];
        off := off - iov[i].Length;
      } else {
        var len := Min(iov[i].Length - off, |left|);
        CopyTurns(was, offset, data, i, off, left, done, copied);
        StorePiece(iov, i, off, left[..len], was, done);
        done := done + [Overlay(was[i], off, left[..len])];
        copied := copied + len;
        left := left[len..];
        off := 0;
      }
      i := i + 1;
    }
    CopyEnds(was, offset, data, i, off, left, done, copied);
    LeaveRest(iov, i, was, done);
  }

  // ---------------------------------------------------------------------- byte by byte

  /** A slice has the bytes from the offset on, as many as there are. */
  lemma SliceBytes(s: seq<Byte>, offset: nat, n: nat)
    ensures offset + n <= |s| ==> |Slice(s, offset, n)| == n
    ensures offset <= |s| < offset + n ==> |Slice(s, offset, n)| == |s| - offset
    ensures offset > |s| ==> Slice(s, offset, n) == []
    ensures forall k :: 0 <= k < |Slice(s, offset, n)| ==> Slice(s, offset, n)[k] == s[offset + k]
  { }

  /** An overlay has the new bytes in their place and the old ones elsewhere. */
  lemma OverlayBytes(s: seq<Byte>, offset: nat, data: seq<Byte>, k: nat)
    requires k < |s|
    ensures Overlay(s, offset, data)[k] == if offset <= k < offset + |data| then data[k - offset] else s[k]
  { }
}
