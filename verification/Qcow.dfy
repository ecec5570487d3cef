/** The read path of disk/qcow.c in place: L2 tables go through a cache of at most 32
    entries kept in least-recently-used order.  What a read returns is a function of the
    image alone (QcowRead), whatever the cache holds. */
module Qcow {
  import opened Arith
  import opened Iovec
  import opened Lists
  import opened QcowCache
  import opened QcowImage
  import opened QcowRead
  import opened Wrappers

  /** Where the scatter loop stands before buffer `i`. */
  ghost predicate Scattered(img: Image, sector: nat, was: seq<seq<Byte>>, i: nat,
                            done: seq<seq<Byte>>, total: int, o: Outcome)
    requires WellFormed(img)
  {
    i <= |was| && total == |Join(done)| && o == Prepend(Join(done), ReadIov(img, sector, was[i..]))
  }

  lemma FirstBuffer(img: Image, sector: nat, was: seq<seq<Byte>>)
    requires WellFormed(img)
    ensures Scattered(img, sector, was, 0, [], 0, ReadIov(img, sector, was))
  {
    assert was[0..] == was;
    var o := ReadIov(img, sector, was);
    if o.Full? { assert [] + o.bytes == o.bytes; }
  }

  lemma NextBuffer(img: Image, sector: nat, was: seq<seq<Byte>>, i: nat, done: seq<seq<Byte>>,
                   total: int, o: Outcome)
    requires WellFormed(img) && i < |was| && Scattered(img, sector, was, i, done, total, o)
    ensures var r := ReadSingle(img, sector, was[i]);
            if !r.Full? then o == r else
            Scattered(img, sector + Sectors(|was[i]|), was, i + 1, done + [r.bytes], total + |was[i]|, o)
  {
    hide ReadSingle, WellFormed, Sectors;
    assert was[i..][1..] == was[i + 1..];
    var r := ReadSingle(img, sector, was[i]);
    if r.Full? {
      JoinPlus(done, r.bytes);
      PrependTwice(Join(done), r.bytes, ReadIov(img, sector + Sectors(|was[i]|), was[i + 1..]));
    }
  }

  lemma LastBuffer(img: Image, sector: nat, was: seq<seq<Byte>>, done: seq<seq<Byte>>, total: int, o: Outcome)
    requires WellFormed(img) && Scattered(img, sector, was, |was|, done, total, o)
    ensures o == Full(Join(done)) && total == |Join(done)|
  {
    assert Join(done) + [] == Join(done);
  }

  ghost predicate Buffers(iov: seq<array<Byte>>) {
    Separate(iov) && forall i :: 0 <= i < |iov| ==> iov[i].Length < TWO_32
  }

  /** How an outcome shows in a return value; `wild` is a write outside the buffers, where
      the model stops. */
  predicate Reports(o: Outcome, nr: int, wild: bool, bytes: seq<Byte>) {
    match o
    case Full(b) => !wild && nr == |b| && bytes == b
    case Failed => !wild && nr == -1
    case Wild => wild
  }

  class Disk {
    const img: Image
    var tree: map<nat, seq<U64>>  // cached tables by their offset in the file
    var lru: seq<nat>             // the same offsets, least recently used first
    var nrCached: nat
    ghost var uses: seq<nat>      // every table read so far

    /** Tree and list hold the same tables, those used last, each as the file has it. */
    ghost predicate Valid()
      reads this
    {
      && WellFormed(img)
      && nrCached == |lru| && lru == Cached(uses)
      && (forall o :: o in lru <==> o in tree)
      && (forall o <- tree :: o < |img.file| && tree[o] == img.TableAt(o))
    }

    lemma ImageOk()
      requires Valid()
      ensures WellFormed(img)
    { }

    constructor (image: Image)
      requires WellFormed(image)
      ensures Valid() && img == image && lru == []
    {
      img := image;
      tree, lru, nrCached, uses := map[], [], 0, [];
    }

    method CacheTable(offset: nat, table: seq<U64>)
      requires Valid() && offset !in tree
      requires offset < |img.file| && table == img.TableAt(offset)
      modifies this
      ensures Valid() && uses == old(uses) + [offset]
      ensures lru == (if |old(lru)| == MAX_CACHE_NODES then old(lru)[1..] else old(lru)) + [offset]
    {
      hide Cached;
      CachedDistinct(uses);
      MissKeeps(uses, offset);
      if nrCached == MAX_CACHE_NODES {
        tree := tree - {lru[0]};
        lru := lru[1..];
        nrCached := nrCached - 1;
        assert forall o <- tree :: o in old(lru[1..]);
      }
      tree := tree[offset := table];
      lru := lru + [offset];
      nrCached := nrCached + 1;
      uses := uses + [offset];
    }

    /** Finding a table moves it to the end of the list; the others keep their order. */
    method L2TableSearch(offset: nat) returns (table: Option<seq<U64>>)
      requires Valid()
      modifies `lru, `uses
      ensures Valid()
      ensures table == if offset in tree then Some(img.TableAt(offset)) else None
      ensures lru == if offset in tree then Without(old(lru), offset) + [offset] else old(lru)
      ensures uses == if offset in tree then old(uses) + [offset] else old(uses)
    {
      hide Cached, Without;
      if offset !in tree { return None; }
      CachedDistinct(uses);
      HitKeeps(uses, offset);
      var i :| 0 <= i < |lru| && lru[i] == offset;
      WithoutAt(lru, i);
      lru := lru[..i] + lru[i + 1..] + [offset];
      uses := uses + [offset];
      return Some(tree[offset]);
    }

    /** Fails exactly when the table lies past the end of the file.  The cache then holds
        the tables used last, this one included (Valid). */
    method ReadL2Table(offset: nat) returns (table: Option<seq<U64>>)
      requires Valid()
      modifies this
      ensures Valid()
      ensures table == if offset < |img.file| then Some(img.TableAt(offset)) else None
      ensures uses == if table.Some? then old(uses) + [offset] else old(uses)
      ensures lru == Cached(uses)
    {
      table := L2TableSearch(offset);
      if table.Some? { return; }
      if offset >= |img.file| { return None; }
      CacheTable(offset, img.TableAt(offset));
      return Some(img.TableAt(offset));
    }

    /** dst[at..] as the buffer pointer, `len` as the buffer length; -1 on error. */
    method ReadCluster(offset: nat, dst: array<Byte>, at: nat, len: nat) returns (nr: int)
      requires Valid() && at + len <= dst.Length && len > 0
      modifies this, dst
      ensures Valid()
      ensures var n := ChunkLen(img, offset, len);
              match ReadChunk(img, offset, old(dst[..])[at..at + n])
              case None => nr == -1 && dst[..] == old(dst[..])
              case Some(chunk) =>
                nr == n && dst[..] == old(dst[..])[..at] + chunk + old(dst[..])[at + n..]
    {
      hide Cached;
      var clustSize := img.ClusterSize();
      var l1Idx := Quot(offset, img.L2Size() * clustSize);
      assert l1Idx == Quot(Quot(offset, clustSize), img.L2Size()) by {
        ShiftTwice(offset, clustSize, img.L2Size());
      }
      hide Quot, Rem, Pow2;
      if l1Idx >= |img.l1| { return -1; }
      var clustOffset := Rem(offset, clustSize);
      var length := Min(clustSize - clustOffset, len);
      assert length == ChunkLen(img, offset, len);
      var l2tOffset := img.l1[l1Idx] % OFLAG_COPIED;
      if l2tOffset == 0 {
        Fill(dst, at, Zeros(length));
        return length;
      }
      var l2t := ReadL2Table(l2tOffset);
      if l2t.None? { return -1; }
      nr := ReadEntry(l2t.value[Rem(Quot(offset, clustSize), img.L2Size())], clustOffset, dst, at, length);
    }

    /** The cluster named by one L2 entry. */
    method ReadEntry(entry: U64, clustOffset: nat, dst: array<Byte>, at: nat, length: nat)
      returns (nr: int)
      requires WellFormed(img) && at + length <= dst.Length
      requires length > 0 && clustOffset + length <= img.ClusterSize()
      modifies dst
      ensures match ReadPlace(img, PlaceIn(img, entry, clustOffset), old(dst[..])[at..at + length])
              case None => nr == -1 && dst[..] == old(dst[..])
              case Some(chunk) =>
                nr == length
                && dst[..] == old(dst[..])[..at] + chunk + old(dst[..])[at + length..]
    {
      if entry / OFLAG_COMPRESSED % 2 == 1 {
        if entry !in img.inflated { return -1; }
        Fill(dst, at, img.inflated[entry][clustOffset..clustOffset + length]);
      } else {
        var clustStart := entry % OFLAG_COMPRESSED;
        if clustStart == 0 {
          Fill(dst, at, Zeros(length));
        } else {
          if clustStart + clustOffset >= |img.file| { return -1; }
          Fill(dst, at, FileOver(img, clustStart + clustOffset, dst[..][at..at + length]));
        }
      }
      return length;
    }

    /** The call of the read loop, its result taken for an unsigned 32-bit count. */
    method ReadTurn(sector: nat, dst: array<Byte>, buf: nat, ghost outcome: Outcome) returns (nr: nat)
      requires Valid() && buf < dst.Length < TWO_32 && Offset(sector) < img.size
      requires Going(img, sector, dst[..], buf, buf, outcome)
      modifies this, dst
      ensures Valid() && nr < TWO_32
      ensures Going(img, sector + Sectors(nr), dst[..], Add32(buf, nr), buf + nr, outcome)
      ensures buf < Add32(buf, nr) == buf + nr || Add32(buf, nr) < dst.Length < buf + nr
    {
      hide Going, Offset, ReadChunk, Disk.Valid, Prepend, Sectors, Add32, WellFormed;
      ImageOk();
      ghost var was := dst[..];
      var got := ReadCluster(Offset(sector), dst, buf, dst.Length - buf);
      nr := if got < 0 then got + TWO_32 else got;
      NextTurn(img, sector, was, buf, got, nr, dst[..], outcome);
    }

    /** A call whose destination lies outside the buffer.  It finds its cluster, and moves
        tables in the cache, like any other; `wrote` tells whether it gets to writing. */
    method LostRead(sector: nat) returns (wrote: bool)
      requires Valid() && Offset(sector) < img.size
      modifies this
      ensures Valid() && (wrote <==> Readable(img, Offset(sector)))
    {
      var elsewhere := new Byte[1];
      ChunkFailsExactly(img, Offset(sector), elsewhere[..][0..ChunkLen(img, Offset(sector), 1)]);
      var got := ReadCluster(Offset(sector), elsewhere, 0, 1);
      wrote := got >= 0;
    }

    /** The program's test for a count of zero or less is left out: the count is unsigned
        and never zero. */
    method ReadSectorSingle(sector: nat, dst: array<Byte>) returns (nr: int, wild: bool)
      requires Valid() && dst.Length < TWO_32
      modifies this, dst
      ensures Valid()
      ensures Reports(ReadSingle(img, sector, old(dst[..])), nr, wild, dst[..])
    {
      hide Going, Offset, ReadSingle, ReadChunk, WellFormed, Disk.Valid, Prepend, Sectors, Add32, Readable;
      ImageOk();
      ghost var outcome := ReadSingle(img, sector, dst[..]);
      var sec: nat, nrRead: nat, buf: nat := sector, 0, 0;
      FirstTurn(img, sector, dst[..]);
      while nrRead < dst.Length
        invariant Valid() && WellFormed(img) && Going(img, sec, dst[..], nrRead, buf, outcome)
        decreases buf == nrRead, if buf == nrRead then dst.Length - nrRead else if nrRead < dst.Length then nrRead + 1 else 0
      {
        EndTurn(img, sec, dst[..], nrRead, buf, outcome);
        if Offset(sec) >= img.size { return -1, false; }
        var nr: nat := LOST;
        if buf > dst.Length {
          LostTurn(img, sec, dst[..], nrRead, buf, outcome);
          var wrote := LostRead(sec);
          if wrote { return 0, true; }
        } else {
          nr := ReadTurn(sec, dst, buf, outcome);
        }
        nrRead, buf, sec := Add32(nrRead, nr), buf + nr, sec + Sectors(nr);
      }
      LastTurn(img, sec, dst[..], nrRead, buf, outcome);
      return dst.Length, false;
    }

    /** The call of the scatter loop. */
    method ReadBuffer(sector: nat, iov: seq<array<Byte>>, i: nat, ghost was: seq<seq<Byte>>,
                      ghost done: seq<seq<Byte>>)
      returns (nr: int, wild: bool)
      requires Valid() && i < |iov| && Buffers(iov) && Filled(iov, i, was, done)
      modifies this, iov[i]
      ensures Valid()
      ensures var r := ReadSingle(img, sector, was[i]);
              && (r.Full? ==> !wild && nr == iov[i].Length && Filled(iov, i + 1, was, done + [r.bytes]))
              && (r.Failed? ==> !wild && nr == -1)
              && (r.Wild? ==> wild)
    {
      hide ReadSingle;
      nr, wild := ReadSectorSingle(sector, iov[i]);
    }

    /** Each buffer is filled by a read of its own; any error fails the whole request. */
    method ReadSector(sector: nat, iov: seq<array<Byte>>) returns (total: int, wild: bool)
      requires Valid() && Buffers(iov)
      modifies this, set a | a in iov
      ensures Valid()
      ensures Reports(ReadIov(img, sector, old(Contents(iov))), total, wild, Join(Contents(iov)))
    {
      hide Filled, Scattered, Sectors, Disk.Valid, WellFormed, ReadSingle, ReadIov, Contents;
      ImageOk();
      NoneFilled(iov);
      ghost var was := Contents(iov);
      ghost var outcome := ReadIov(img, sector, was);
      ghost var done: seq<seq<Byte>> := [];
      var sec: nat := sector;
      total := 0;
      FirstBuffer(img, sector, was);
      for i := 0 to |iov|
        invariant Valid() && WellFormed(img) && Filled(iov, i, was, done)
        invariant Scattered(img, sec, was, i, done, total, outcome)
      {
        NextBuffer(img, sec, was, i, done, total, outcome);
        var nr;
        nr, wild := ReadBuffer(sec, iov, i, was, done);
        if wild { return 0, true; }
        if nr != iov[i].Length { return -1, false; }
        done := done + [ReadSingle(img, sec, was[i]).bytes];
        sec := sec + Sectors(iov[i].Length);
        total := total + nr;
      }
      AllFilled(iov, was, done);
      LastBuffer(img, sec, was, done, total, outcome);
      return total, false;
    }

    method Fill(dst: array<Byte>, at: nat, bytes: seq<Byte>)
      requires at + |bytes| <= dst.Length
      modifies dst
      ensures dst[..] == old(dst[..])[..at] + bytes + old(dst[..])[at + |bytes|..]
    {
      for i := 0 to |bytes|
        invariant forall k :: 0 <= k < dst.Length && !(at <= k < at + i) ==> dst[k] == old(dst[k])
        invariant forall k :: at <= k < at + i ==> dst[k] == bytes[k - at]
      {
        dst[at + i] := bytes[i];
      }
    }
  }
}
