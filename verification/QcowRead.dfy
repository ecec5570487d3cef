/** Reading a qcow2 disk (disk/qcow.c): one cluster chunk at a time, on values.  What a
    whole read returns, and exactly when that is the virtual disk's content. */
module QcowRead {
  import opened Arith
  import opened Iovec
  import opened QcowImage
  import opened Wrappers

  const TWO_32 := 0x1_0000_0000
  const TWO_64 := 0x1_0000_0000_0000_0000

  function Sectors(n: nat): nat { n / SECTOR_SIZE }

  /** An unsigned 32-bit sum. */
  function Add32(a: nat, b: nat): nat { (a + b) % TWO_32 }

  /** A cluster read stops at the end of the cluster. */
  function ChunkLen(img: Image, a: nat, n: nat): (r: nat)
    ensures r <= n && (n > 0 ==> r > 0)
    ensures Rem(a, img.ClusterSize()) + r <= img.ClusterSize()
  {
    Min(img.ClusterSize() - Rem(a, img.ClusterSize()), n)
  }

  /** Bytes of the file from `pos` on; past its end the destination keeps `was`. */
  function FileOver(img: Image, pos: nat, was: seq<Byte>): (r: seq<Byte>)
    ensures |r| == |was|
  {
    seq<Byte>(|was|, i requires 0 <= i < |was| =>
                if pos + i < |img.file| then img.file[pos + i] else was[i])
  }

  function Zeros(n: nat): (r: seq<Byte>)
    ensures |r| == n && forall i :: 0 <= i < n ==> r[i] == 0
  {
    seq<Byte>(n, _ => 0)
  }

  /** What a place yields over a destination holding `was`; None is the error return. */
  function ReadPlace(img: Image, p: Place, was: seq<Byte>): (r: Option<seq<Byte>>)
    requires WellFormed(img)
    requires p.Packed? ==> p.off + |was| <= img.ClusterSize()
    ensures r.Some? ==> |r.value| == |was|
  {
    match p
    case Unmapped => Some(Zeros(|was|))
    case Packed(entry, off) =>
      if entry in img.inflated then Some(img.inflated[entry][off..off + |was|]) else None
    case At(pos) => if pos < |img.file| then Some(FileOver(img, pos, was)) else None
    case _ => None
  }

  /** One cluster read. */
  function ReadChunk(img: Image, a: nat, was: seq<Byte>): (r: Option<seq<Byte>>)
    requires WellFormed(img)
    requires Rem(a, img.ClusterSize()) + |was| <= img.ClusterSize()
    ensures r.Some? ==> |r.value| == |was|
  {
    ReadPlace(img, Locate(img, a), was)
  }

  function Offset(sector: nat): nat { sector * SECTOR_SIZE % TWO_64 }

  /** `Full` is the success return; `Wild` is a write outside the caller's buffer. */
  datatype Outcome = Full(bytes: seq<Byte>) | Failed | Wild

  /** What -1 becomes in the unsigned 32-bit count. */
  const LOST := TWO_32 - 1

  /** A read that has lost its way: `count` bytes counted, the pointer some 4 GB past the
      buffer, whose content is `now`.  Reading there either succeeds, and writes outside the
      buffer, or fails once more. */
  function Lost(img: Image, sector: nat, now: seq<Byte>, count: nat): (r: Outcome)
    ensures r.Full? ==> r.bytes == now
    decreases count, 1
  {
    if Offset(sector) >= img.size then Failed
    else if Readable(img, Offset(sector)) then Wild
    else AfterError(img, sector, now, count)
  }

  /** After a failed cluster read the sector goes up by 4 GB, and the count of bytes, taken
      mod 2^32, down by one: from zero to far above any buffer, which ends the loop. */
  function AfterError(img: Image, sector: nat, now: seq<Byte>, count: nat): (r: Outcome)
    ensures r.Full? ==> r.bytes == now
    decreases count, 0
  {
    if count == 0 then Full(now) else Lost(img, sector + Sectors(LOST), now, count - 1)
  }

  function Prepend(bytes: seq<Byte>, o: Outcome): Outcome {
    if o.Full? then Full(bytes + o.bytes) else o
  }

  /** Read into what is left of the buffer, with `count` bytes read so far. */
  function ReadRest(img: Image, sector: nat, rest: seq<Byte>, count: nat): (r: Outcome)
    requires WellFormed(img)
    ensures r.Full? ==> |r.bytes| == |rest|
    decreases |rest|
  {
    if rest == [] then Full([])
    else if Offset(sector) >= img.size then Failed
    else
      var n := ChunkLen(img, Offset(sector), |rest|);
      match ReadChunk(img, Offset(sector), rest[..n])
      case None => AfterError(img, sector, rest, count)
      case Some(chunk) => Prepend(chunk, ReadRest(img, sector + Sectors(n), rest[n..], count + n))
  }

  function ReadSingle(img: Image, sector: nat, dst: seq<Byte>): (r: Outcome)
    requires WellFormed(img)
    ensures r.Full? ==> |r.bytes| == |dst|
  {
    ReadRest(img, sector, dst, 0)
  }

  /** One turn of the read loop at byte `buf` of the buffer `was`. */
  lemma Turn(img: Image, sector: nat, was: seq<Byte>, buf: nat)
    requires WellFormed(img) && buf < |was|
    ensures var outcome := Prepend(was[..buf], ReadRest(img, sector, was[buf..], buf));
            if Offset(sector) >= img.size then outcome == Failed else
            var n := ChunkLen(img, Offset(sector), |was| - buf);
            match ReadChunk(img, Offset(sector), was[buf..buf + n])
            case None => outcome == AfterError(img, sector, was, buf)
            case Some(chunk) =>
              var now := was[..buf] + chunk + was[buf + n..];
              outcome == Prepend(now[..buf + n],
                                 ReadRest(img, sector + Sectors(n), now[buf + n..], buf + n))
  {
    hide Offset, ReadChunk, ChunkLen, Prepend, WellFormed, Sectors, ReadRest;
    ReadRestOnce(img, sector, was[buf..], buf);
    assert was[..buf] + was[buf..] == was;
    LostWhole(img, sector, was[..buf], was[buf..], buf);
    PrependFailed(was[..buf]);
    if Offset(sector) < img.size {
      var n := ChunkLen(img, Offset(sector), |was| - buf);
      assert was[buf..][..n] == was[buf..buf + n];
      var r := ReadChunk(img, Offset(sector), was[buf..buf + n]);
      if r.Some? {
        Overwrite(was, buf, r.value);
        PrependTwice(was[..buf], r.value, ReadRest(img, sector + Sectors(n), was[buf..][n..], buf + n));
      }
    }
  }

  /** One unfolding of a read. */
  lemma ReadRestOnce(img: Image, sector: nat, rest: seq<Byte>, count: nat)
    requires WellFormed(img) && rest != []
    ensures Offset(sector) >= img.size ==> ReadRest(img, sector, rest, count) == Failed
    ensures Offset(sector) < img.size ==>
              var n := ChunkLen(img, Offset(sector), |rest|);
              var r := ReadChunk(img, Offset(sector), rest[..n]);
              ReadRest(img, sector, rest, count) ==
              if r.None? then AfterError(img, sector, rest, count)
              else Prepend(r.value, ReadRest(img, sector + Sectors(n), rest[n..], count + n))
  { }

  lemma PrependFailed(before: seq<Byte>)
    ensures Prepend(before, Failed) == Failed
  { }

  lemma {:induction false} LostWhole(img: Image, sector: nat, before: seq<Byte>, rest: seq<Byte>, count: nat)
    ensures Prepend(before, AfterError(img, sector, rest, count)) == AfterError(img, sector, before + rest, count)
    decreases count
  {
    if count > 0 { LostWhole(img, sector + Sectors(LOST), before, rest, count - 1); }
  }

  lemma PrependTwice(x: seq<Byte>, y: seq<Byte>, o: Outcome)
    ensures Prepend(x, Prepend(y, o)) == Prepend(x + y, o)
  {
    if o.Full? { assert x + (y + o.bytes) == x + y + o.bytes; }
  }

  lemma Overwrite(was: seq<Byte>, buf: nat, chunk: seq<Byte>)
    requires buf + |chunk| <= |was|
    ensures var now := was[..buf] + chunk + was[buf + |chunk|..];
            now[..buf + |chunk|] == was[..buf] + chunk && now[buf + |chunk|..] == was[buf..][|chunk|..]
  { }

  /** Where the read loop stands with `buf` bytes behind its pointer and `nrRead` counted:
      in step, done, or lost outside the buffer. */
  ghost predicate Going(img: Image, sector: nat, now: seq<Byte>, nrRead: nat, buf: nat, o: Outcome)
    requires WellFormed(img)
  {
    || (buf == nrRead <= |now| && o == Prepend(now[..buf], ReadRest(img, sector, now[buf..], buf)))
    || (|now| <= nrRead && |now| <= buf && o == Full(now))
    || (nrRead < |now| < buf && o == Lost(img, sector, now, nrRead))
  }

  lemma FirstTurn(img: Image, sector: nat, dst: seq<Byte>)
    requires WellFormed(img)
    ensures Going(img, sector, dst, 0, 0, ReadSingle(img, sector, dst))
  {
    assert dst[0..] == dst && dst[..0] == [];
    var o := ReadSingle(img, sector, dst);
    assert o.Full? ==> [] + o.bytes == o.bytes;
  }

  lemma Add32Is(a: nat, b: nat)
    requires a < TWO_32 && b < TWO_32
    ensures Add32(a, b) == if a + b < TWO_32 then a + b else a + b - TWO_32
  { }

  lemma NextTurn(img: Image, sector: nat, was: seq<Byte>, buf: nat, got: int, nr: nat,
                 now: seq<Byte>, o: Outcome)
    requires WellFormed(img) && buf < |was| < TWO_32 && Offset(sector) < img.size
    requires Going(img, sector, was, buf, buf, o)
    requires var n := ChunkLen(img, Offset(sector), |was| - buf);
             match ReadChunk(img, Offset(sector), was[buf..buf + n])
             case None => got == -1 && now == was
             case Some(chunk) => got == n && now == was[..buf] + chunk + was[buf + n..]
    requires nr == if got < 0 then got + TWO_32 else got
    ensures nr < TWO_32 && Going(img, sector + Sectors(nr), now, Add32(buf, nr), buf + nr, o)
    ensures buf < Add32(buf, nr) == buf + nr || Add32(buf, nr) < |was| < buf + nr
  {
    hide Offset, ReadRest, ReadChunk, Prepend, WellFormed, Sectors, Add32;
    Turn(img, sector, was, buf);
    Add32Is(buf, nr);
    var n := ChunkLen(img, Offset(sector), |was| - buf);
    if ReadChunk(img, Offset(sector), was[buf..buf + n]).None? {
      assert nr == TWO_32 - 1;
    } else {
      assert nr == n;
    }
  }

  lemma EndTurn(img: Image, sector: nat, now: seq<Byte>, nrRead: nat, buf: nat, o: Outcome)
    requires WellFormed(img) && nrRead < |now| && Going(img, sector, now, nrRead, buf, o)
    ensures Offset(sector) >= img.size ==> o == Failed
    ensures buf <= |now| ==> buf == nrRead
  { }

  /** A turn outside the buffer. */
  lemma LostTurn(img: Image, sector: nat, now: seq<Byte>, nrRead: nat, buf: nat, o: Outcome)
    requires WellFormed(img) && nrRead < |now| < TWO_32 && |now| < buf && Offset(sector) < img.size
    requires Going(img, sector, now, nrRead, buf, o)
    ensures Readable(img, Offset(sector)) ==> o == Wild
    ensures !Readable(img, Offset(sector)) ==>
              Going(img, sector + Sectors(LOST), now, Add32(nrRead, LOST), buf + LOST, o)
    ensures Add32(nrRead, LOST) == if nrRead == 0 then LOST else nrRead - 1
  {
    hide Offset, ReadRest, Prepend, WellFormed, Sectors, Add32, Readable;
    Add32Is(nrRead, LOST);
    assert o == Lost(img, sector, now, nrRead);
    if !Readable(img, Offset(sector)) {
      assert o == AfterError(img, sector, now, nrRead);
      if nrRead > 0 { assert o == Lost(img, sector + Sectors(LOST), now, nrRead - 1); }
    }
  }

  lemma LastTurn(img: Image, sector: nat, now: seq<Byte>, nrRead: nat, buf: nat, o: Outcome)
    requires WellFormed(img) && nrRead >= |now| && Going(img, sector, now, nrRead, buf, o)
    ensures o == Full(now)
  {
    if nrRead == |now| == buf {
      assert now[..|now|] + [] == now;
    }
  }

  // ------------------------------------------------- when a read is the flat disk

  lemma ChunkIsFlat(img: Image, a: nat, was: seq<Byte>)
    requires WellFormed(img) && |was| > 0
    requires Rem(a, img.ClusterSize()) + |was| <= img.ClusterSize()
    requires AllReadable(img, a, |was|)
    ensures ReadChunk(img, a, was) == Some(Flat(img, a, |was|))
  {
    hide Quot, Rem, Pow2;
    assert Readable(img, a);
    var chunk := ReadChunk(img, a, was).value;
    forall i | 0 <= i < |was| ensures chunk[i] == FlatByte(img, a + i) {
      LocateAlong(img, a, i);
      assert Readable(img, a + i);
      hide Locate;
    }
    assert chunk == Flat(img, a, |was|);
  }

  /** A byte the image does not hold is left as it was by a read that succeeds. */
  lemma ChunkSkips(img: Image, a: nat, was: seq<Byte>, i: nat)
    requires WellFormed(img) && i < |was| && !Readable(img, a + i)
    requires Rem(a, img.ClusterSize()) + |was| <= img.ClusterSize()
    requires ReadChunk(img, a, was).Some?
    ensures ReadChunk(img, a, was).value[i] == was[i]
  {
    LocateAlong(img, a, i);
  }

  lemma ChunkFailsExactly(img: Image, a: nat, was: seq<Byte>)
    requires WellFormed(img)
    requires Rem(a, img.ClusterSize()) + |was| <= img.ClusterSize()
    ensures ReadChunk(img, a, was).None? <==> !Readable(img, a)
  { }

  /** Where the chunks of a read of [a, a+n) begin: at `a` and at every cluster boundary. */
  ghost predicate StartsOnDisk(img: Image, a: nat, n: nat) {
    && (n > 0 ==> a < img.size)
    && forall p: nat :: a < p < a + n && Rem(p, img.ClusterSize()) == 0 ==> p < img.size
  }

  ghost predicate AllReadable(img: Image, a: nat, n: nat) {
    forall p: nat :: a <= p < a + n ==> Readable(img, p)
  }

  ghost predicate Sound(img: Image, a: nat, n: nat) {
    StartsOnDisk(img, a, n) && AllReadable(img, a, n)
  }

  /** The rest of the disk after a whole chunk, addressed by sector. */
  lemma NextChunk(img: Image, sector: nat, n: nat)
    requires WellFormed(img) && Offset(sector) + n <= TWO_64
    ensures var k := ChunkLen(img, Offset(sector), n);
            k < n ==>
              && Offset(sector + Sectors(k)) == Offset(sector) + k
              && Rem(Offset(sector) + k, img.ClusterSize()) == 0
  {
    var a, c := Offset(sector), img.ClusterSize();
    var k := ChunkLen(img, a, n);
    if k < n {
      var m := Pow2Sector(img.clusterBits);
      AlignedRem(sector, c, m);
      CeilRem(a, c);
      OffsetPlus(sector, Sectors(k));
    }
  }

  lemma AlignedRem(sector: nat, c: nat, m: nat)
    requires c > 0 && c == SECTOR_SIZE * m
    ensures (c - Rem(Offset(sector), c)) % SECTOR_SIZE == 0
  {
    var a := Offset(sector);
    SectorOffset(sector);
    hide Offset;
    AlignedDiv(a / SECTOR_SIZE, m, a / c, a % c);
  }

  lemma SectorOffset(sector: nat)
    ensures Offset(sector) == SECTOR_SIZE * (Offset(sector) / SECTOR_SIZE)
  { }

  lemma AlignedDiv(t: nat, m: nat, q: nat, r: nat)
    requires SECTOR_SIZE * t == q * (SECTOR_SIZE * m) + r
    ensures (SECTOR_SIZE * m - r) % SECTOR_SIZE == 0
  {
    assert q * (SECTOR_SIZE * m) == SECTOR_SIZE * (q * m);
    assert SECTOR_SIZE * m - r == SECTOR_SIZE * (m - t + q * m);
  }

  lemma CeilRem(a: nat, c: nat)
    requires c > 0
    ensures Rem(a + (c - Rem(a, c)), c) == 0
  {
    var q := a / c;
    assert a + (c - a % c) == (q + 1) * c;
    DivUnique(a + (c - a % c), c, q + 1, 0);
  }

  lemma OffsetPlus(sector: nat, k: nat)
    requires Offset(sector) + k * SECTOR_SIZE < TWO_64
    ensures Offset(sector + k) == Offset(sector) + k * SECTOR_SIZE
  { }

  lemma SoundSplits(img: Image, a: nat, n: nat, k: nat)
    requires 0 < k < n && k == ChunkLen(img, a, n) && Rem(a + k, img.ClusterSize()) == 0
    ensures Sound(img, a, n) <==>
            a < img.size && AllReadable(img, a, k) && Sound(img, a + k, n - k)
  {
    forall p: nat | a < p < a + k ensures Rem(p, img.ClusterSize()) != 0 {
      SameBlock(a, p - a, img.ClusterSize());
    }
    if Sound(img, a, n) {
      assert a + k < img.size;
    }
  }

  lemma {:induction false} SoundReads(img: Image, sector: nat, rest: seq<Byte>, count: nat)
    requires WellFormed(img) && Offset(sector) + |rest| <= TWO_64
    requires Sound(img, Offset(sector), |rest|)
    ensures ReadRest(img, sector, rest, count) == Full(Flat(img, Offset(sector), |rest|))
    decreases |rest|
  {
    hide Locate, Quot, Rem, Pow2, Offset, Readable, ReadChunk, FlatByte;
    if rest != [] {
      var a, k := Offset(sector), ChunkLen(img, Offset(sector), |rest|);
      assert Sound(img, a, |rest|) ==> AllReadable(img, a, k) && a < img.size;
      ChunkIsFlat(img, a, rest[..k]);
      if k < |rest| {
        NextChunk(img, sector, |rest|);
        SoundSplits(img, a, |rest|, k);
        SoundReads(img, sector + Sectors(k), rest[k..], count + k);
        FlatJoin(img, a, k, |rest| - k);
      } else {
        assert rest[..k] == rest && rest[k..] == [];
        FlatJoin(img, a, k, 0);
        assert Flat(img, a, k) + [] == Flat(img, a, k);
      }
    }
  }

  /** No byte of the buffer already holds what the disk has there. */
  ghost predicate Differs(img: Image, a: nat, rest: seq<Byte>) {
    forall i :: 0 <= i < |rest| ==> rest[i] != Flat(img, a, |rest|)[i]
  }

  lemma TailDiffers(img: Image, a: nat, rest: seq<Byte>, k: nat)
    requires Differs(img, a, rest) && k <= |rest|
    ensures Differs(img, a + k, rest[k..])
    ensures Flat(img, a, |rest|)[k..] == Flat(img, a + k, |rest| - k)
  {
    hide FlatByte, Flat;
    var flat, tail := Flat(img, a, |rest|), Flat(img, a + k, |rest| - k);
    FlatJoin(img, a, k, |rest| - k);
    assert flat[k..] == tail;
    assert forall i :: 0 <= i < |tail| ==> tail[i] == flat[k + i];
  }

  lemma {:induction false} UnsoundMisreads(img: Image, sector: nat, rest: seq<Byte>, count: nat)
    requires WellFormed(img) && Offset(sector) + |rest| <= TWO_64
    requires !Sound(img, Offset(sector), |rest|)
    requires Differs(img, Offset(sector), rest)
    ensures ReadRest(img, sector, rest, count) != Full(Flat(img, Offset(sector), |rest|))
    decreases |rest|
  {
    hide Locate, Quot, Rem, Pow2, Offset, Readable, ReadChunk, FlatByte, Flat, ChunkLen;
    var a, k := Offset(sector), ChunkLen(img, Offset(sector), |rest|);
    var flat, r := Flat(img, a, |rest|), ReadRest(img, sector, rest, count);
    assert rest != [] ==> rest[0] != flat[0];
    if rest != [] && a < img.size && ReadChunk(img, a, rest[..k]).Some? && r.Full? {
      var chunk := ReadChunk(img, a, rest[..k]).value;
      if p: nat :| a <= p < a + k && !Readable(img, p) {
        ChunkSkips(img, a, rest[..k], p - a);
        assert r.bytes[p - a] == rest[p - a];
      } else if k < |rest| {
        NextChunk(img, sector, |rest|);
        SoundSplits(img, a, |rest|, k);
        TailDiffers(img, a, rest, k);
        UnsoundMisreads(img, sector + Sectors(k), rest[k..], count + k);
        assert r.bytes[k..] == ReadRest(img, sector + Sectors(k), rest[k..], count + k).bytes;
      } else {
        LoneChunk(img, a, k);
      }
    }
  }

  lemma LoneChunk(img: Image, a: nat, n: nat)
    requires n > 0 && n == ChunkLen(img, a, n) && a < img.size && AllReadable(img, a, n)
    ensures Sound(img, a, n)
  {
    forall p: nat | a < p < a + n ensures Rem(p, img.ClusterSize()) != 0 {
      SameBlock(a, p - a, img.ClusterSize());
    }
  }

  /** A single-buffer read can be trusted, whatever the buffer held before, exactly when
      every byte is readable and every chunk starts inside the disk. */
  lemma SingleIsFlatExactly(img: Image, sector: nat, n: nat)
    requires WellFormed(img) && Offset(sector) + n <= TWO_64
    ensures Sound(img, Offset(sector), n) <==>
            forall dst: seq<Byte> :: |dst| == n ==>
              ReadSingle(img, sector, dst) == Full(Flat(img, Offset(sector), n))
  {
    var a := Offset(sector);
    if Sound(img, a, n) {
      forall dst: seq<Byte> | |dst| == n
        ensures ReadSingle(img, sector, dst) == Full(Flat(img, a, n))
      {
        SoundReads(img, sector, dst, 0);
      }
    } else {
      var dst := seq<Byte>(n, i requires 0 <= i < n => if Flat(img, a, n)[i] == 0 then 1 else 0);
      UnsoundMisreads(img, sector, dst, 0);
      assert |dst| == n && ReadSingle(img, sector, dst) != Full(Flat(img, a, n));
    }
  }

  /** The signed error lost in a 32-bit count: a disk whose only cluster lies outside
      the L1 table reads as a success that fills nothing in. */
  lemma ErrorReadsAsSuccess(dst: seq<Byte>)
    requires |dst| == SECTOR_SIZE
    ensures var img := Image([0], [], 9, 0, 512, map[]);
            WellFormed(img) && ReadSingle(img, 0, dst) == Full(dst)
  {
    var img := Image([0], [], 9, 0, 512, map[]);
    assert Pow2(9) == 512;
    assert Quot(0, 512) == 0 && Rem(0, 512) == 0;
    assert Locate(img, 0) == Outside;
    assert Offset(0) == 0;
  }

  // ------------------------------------------------------ where a lost error leads

  /** The j-th place read after an error in `sector`. */
  function Jump(sector: nat, j: nat): nat { sector + j * Sectors(LOST) }

  /** The first j of them lie on the disk and cannot be read either. */
  ghost predicate FailsOn(img: Image, sector: nat, j: nat) {
    forall i: nat :: 1 <= i <= j ==>
      Offset(Jump(sector, i)) < img.size && !Readable(img, Offset(Jump(sector, i)))
  }

  /** One of the first `count` lies on the disk and can be read, those before it not. */
  ghost predicate Lands(img: Image, sector: nat, count: nat) {
    exists j: nat :: 1 <= j <= count && FailsOn(img, sector, j - 1) &&
      Offset(Jump(sector, j)) < img.size && Readable(img, Offset(Jump(sector, j)))
  }

  lemma {:induction false} LostExactly(img: Image, sector: nat, now: seq<Byte>, count: nat)
    ensures AfterError(img, sector, now, count) == Wild <==> Lands(img, sector, count)
    ensures AfterError(img, sector, now, count).Full? <==> FailsOn(img, sector, count)
    decreases count
  {
    hide Offset, Readable;
    if count > 0 {
      var next := sector + Sectors(LOST);
      assert Jump(sector, 1) == next;
      assert forall i: nat {:trigger Jump(next, i)} :: Jump(next, i) == Jump(sector, i + 1);
      forall j: nat | 1 <= j ensures Jump(sector, j) == Jump(next, j - 1) { }
      LostExactly(img, next, now, count - 1);
      FailsOnward(img, sector, next, count);
    }
  }

  lemma FailsOnward(img: Image, sector: nat, next: nat, count: nat)
    requires count > 0 && next == Jump(sector, 1)
    ensures var here := Offset(next) < img.size && !Readable(img, Offset(next));
            && (FailsOn(img, sector, count) <==> here && FailsOn(img, next, count - 1))
            && (Lands(img, sector, count) <==>
                  Offset(next) < img.size && (Readable(img, Offset(next)) || Lands(img, next, count - 1)))
  {
    hide Offset, Readable;
    forall i: nat ensures Jump(next, i) == Jump(sector, i + 1) { }
    forall j: nat ensures FailsOn(img, sector, j + 1) <==>
                          Offset(next) < img.size && !Readable(img, Offset(next)) && FailsOn(img, next, j)
    {
      if FailsOn(img, sector, j + 1) {
        forall i: nat | 1 <= i <= j
          ensures Offset(Jump(next, i)) < img.size && !Readable(img, Offset(Jump(next, i)))
        { assert Jump(next, i) == Jump(sector, i + 1); }
      }
      if Offset(next) < img.size && !Readable(img, Offset(next)) && FailsOn(img, next, j) {
        forall i: nat | 1 <= i <= j + 1
          ensures Offset(Jump(sector, i)) < img.size && !Readable(img, Offset(Jump(sector, i)))
        { assert i > 1 ==> Jump(sector, i) == Jump(next, i - 1); }
      }
    }
    if Lands(img, sector, count) {
      var j: nat :| 1 <= j <= count && FailsOn(img, sector, j - 1) &&
        Offset(Jump(sector, j)) < img.size && Readable(img, Offset(Jump(sector, j)));
      if j > 1 { assert FailsOn(img, sector, (j - 2) + 1) && Jump(next, j - 1) == Jump(sector, j); }
    }
    if Offset(next) < img.size && Readable(img, Offset(next)) {
      assert FailsOn(img, sector, 0);
    } else if Offset(next) < img.size && Lands(img, next, count - 1) {
      var j: nat :| 1 <= j <= count - 1 && FailsOn(img, next, j - 1) &&
        Offset(Jump(next, j)) < img.size && Readable(img, Offset(Jump(next, j)));
      assert FailsOn(img, sector, (j - 1) + 1) && Jump(next, j) == Jump(sector, j + 1);
    }
  }

  /** The chunks of a read at `a` start at `a` and at every cluster boundary behind it. */
  ghost predicate ChunkStart(img: Image, a: nat, p: nat) {
    p == 0 || Rem(a + p, img.ClusterSize()) == 0
  }

  /** Of the chunks of a read of [a, a+n), the one p bytes in is the first that fails. */
  ghost predicate StopsAt(img: Image, a: nat, n: nat, p: nat) {
    && p < n && ChunkStart(img, a, p) && a + p < img.size && !Readable(img, a + p)
    && forall q: nat :: q < p && ChunkStart(img, a, q) ==> a + q < img.size && Readable(img, a + q)
  }

  lemma StopsLater(img: Image, a: nat, n: nat, k: nat, p: nat)
    requires 0 < k <= n && k == ChunkLen(img, a, n) && a < img.size && Readable(img, a)
    requires k < n ==> Rem(a + k, img.ClusterSize()) == 0
    ensures StopsAt(img, a, n, p) <==> k <= p && k < n && StopsAt(img, a + k, n - k, p - k)
  {
    hide Readable;
    forall q: nat | 0 < q < k ensures !ChunkStart(img, a, q) { SameBlock(a, q, img.ClusterSize()); }
    if k < n {
      forall q: nat | k <= q ensures ChunkStart(img, a, q) <==> ChunkStart(img, a + k, q - k) {
        assert a + k + (q - k) == a + q;
      }
      if StopsAt(img, a, n, p) && k <= p {
        var b := a + k;
        forall q: nat | q < p - k && ChunkStart(img, b, q) ensures b + q < img.size && Readable(img, b + q) {
          assert ChunkStart(img, a, q + k);
        }
      }
    }
  }

  lemma ChunkSectors(img: Image, sector: nat, n: nat, p: nat)
    requires WellFormed(img)
    ensures var k := ChunkLen(img, Offset(sector), n);
            k < n && k <= p ==> sector + Sectors(k) + Sectors(p - k) == sector + Sectors(p)
  {
    var m := Pow2Sector(img.clusterBits);
    AlignedRem(sector, img.ClusterSize(), m);
  }

  /** What comes of a read whose first failing chunk is p bytes in. */
  lemma {:induction false} StopLeads(img: Image, sector: nat, rest: seq<Byte>, count: nat, p: nat)
    requires WellFormed(img) && Offset(sector) + |rest| <= TWO_64
    requires StopsAt(img, Offset(sector), |rest|, p)
    ensures ReadRest(img, sector, rest, count) == Wild <==> Lands(img, sector + Sectors(p), count + p)
    ensures ReadRest(img, sector, rest, count).Full? <==> FailsOn(img, sector + Sectors(p), count + p)
    decreases |rest|
  {
    hide Readable, ReadChunk, Offset, Rem, Quot, Lands, FailsOn, Sectors;
    var a, k := Offset(sector), ChunkLen(img, Offset(sector), |rest|);
    ChunkFailsExactly(img, a, rest[..k]);
    if Readable(img, a) {
      NextChunk(img, sector, |rest|);
      assert a < img.size by { assert p > 0 ==> ChunkStart(img, a, 0); }
      StopsLater(img, a, |rest|, k, p);
      ChunkSectors(img, sector, |rest|, p);
      StopLeads(img, sector + Sectors(k), rest[k..], count + k, p - k);
    } else {
      assert p == 0 by { assert ChunkStart(img, a, 0); }
      assert Sectors(0) == 0 by { NoSectors(); }
      LostExactly(img, sector, rest, count);
    }
  }

  lemma NoSectors()
    ensures Sectors(0) == 0
  { }

  lemma {:induction false} NoStopNoWild(img: Image, sector: nat, rest: seq<Byte>, count: nat)
    requires WellFormed(img) && Offset(sector) + |rest| <= TWO_64
    requires forall p: nat :: !StopsAt(img, Offset(sector), |rest|, p)
    ensures ReadRest(img, sector, rest, count) != Wild
    decreases |rest|
  {
    hide Readable, ReadChunk, Offset, Rem, Quot, Sectors;
    var a, k := Offset(sector), ChunkLen(img, Offset(sector), |rest|);
    if rest != [] && a < img.size {
      ChunkFailsExactly(img, a, rest[..k]);
      assert Readable(img, a) by { assert !StopsAt(img, a, |rest|, 0); }
      NextChunk(img, sector, |rest|);
      if k < |rest| {
        var b, m := a + k, |rest| - k;
        forall p: nat ensures !StopsAt(img, b, m, p) {
          StopsLater(img, a, |rest|, k, p + k);
          assert p + k - k == p;
        }
        NoStopNoWild(img, sector + Sectors(k), rest[k..], count + k);
      }
    }
  }

  /** A read writes outside its buffer if and only if some chunk but the first is the
      first to fail and, of the places 4 GB apart behind it, as many as bytes had been
      read, one lies on the disk and can be read, all before it on the disk too. */
  lemma SingleWildExactly(img: Image, sector: nat, dst: seq<Byte>)
    requires WellFormed(img) && Offset(sector) + |dst| <= TWO_64
    ensures ReadSingle(img, sector, dst) == Wild <==>
            exists p: nat :: StopsAt(img, Offset(sector), |dst|, p) && Lands(img, sector + Sectors(p), p)
  {
    hide Readable, Offset, Lands, StopsAt, ReadRest;
    if p: nat :| StopsAt(img, Offset(sector), |dst|, p) {
      StopLeads(img, sector, dst, 0, p);
      forall q: nat | StopsAt(img, Offset(sector), |dst|, q) ensures q == p { OneStop(img, Offset(sector), |dst|, p, q); }
    } else {
      NoStopNoWild(img, sector, dst, 0);
    }
  }

  lemma OneStop(img: Image, a: nat, n: nat, p: nat, q: nat)
    requires StopsAt(img, a, n, p) && StopsAt(img, a, n, q)
    ensures p == q
  { }

  /** A read with an error in it is reported as complete if and only if all those places
      lie on the disk and fail; with an error in the first chunk there are none of them. */
  lemma ErrorReadsAsSuccessExactly(img: Image, sector: nat, dst: seq<Byte>, p: nat)
    requires WellFormed(img) && Offset(sector) + |dst| <= TWO_64
    requires StopsAt(img, Offset(sector), |dst|, p)
    ensures ReadSingle(img, sector, dst).Full? <==> FailsOn(img, sector + Sectors(p), p)
  {
    StopLeads(img, sector, dst, 0, p);
  }

  /** A disk of just over 4 GB whose second cluster has its table past the end of the file. */
  function Torn(): Image {
    Image([0], seq<U64>(8388609, i => if i == 1 then 8 else 0), 9, 0, 0x1_0000_0200, map[])
  }

  lemma TornPlaces(a: nat)
    requires Offset(0) == 0
    ensures WellFormed(Torn()) && Torn().ClusterSize() == 512
    ensures a == 0 || a == 0x1_0000_0000 ==> Readable(Torn(), a)
    ensures a == 512 ==> !Readable(Torn(), a) && Rem(a, 512) == 0
  {
    assert Pow2(9) == 512 && Pow2(0) == 1;
    assert Quot(0, 512) == 0 && Quot(512, 512) == 1 && Quot(0x1_0000_0000, 512) == 8388608;
    assert Quot(0, 1) == 0 && Quot(1, 1) == 1 && Quot(8388608, 1) == 8388608;
  }

  /** Reading its first two clusters writes outside the buffer. */
  lemma TornReadsWild(dst: seq<Byte>)
    requires |dst| == 1024
    ensures WellFormed(Torn()) && ReadSingle(Torn(), 0, dst) == Wild
  {
    hide Readable, Torn;
    var img := Torn();
    TornPlaces(0);
    TornPlaces(512);
    TornPlaces(0x1_0000_0000);
    TornSize();
    forall q: nat | 0 < q < 512 ensures !ChunkStart(img, 0, q) { SameBlock(0, q, 512); }
    assert StopsAt(img, 0, 1024, 512);
    assert Jump(Sectors(512), 1) == 8388608 && Offset(8388608) == 0x1_0000_0000;
    assert FailsOn(img, Sectors(512), 0);
    assert Lands(img, 0 + Sectors(512), 512);
    SingleWildExactly(img, 0, dst);
  }

  lemma TornSize()
    ensures Torn().size == 0x1_0000_0200
  { }

  // --------------------------------------------------------------- scattered reads

  function Lens(bufs: seq<seq<Byte>>): (r: seq<nat>)
    ensures |r| == |bufs|
  {
    seq<nat>(|bufs|, i requires 0 <= i < |bufs| => |bufs[i]|)
  }

  /** Buffer after buffer, each a read of its own. */
  function ReadIov(img: Image, sector: nat, bufs: seq<seq<Byte>>): Outcome
    requires WellFormed(img)
    decreases |bufs|
  {
    if bufs == [] then Full([])
    else
      match ReadSingle(img, sector, bufs[0])
      case Full(bytes) => Prepend(bytes, ReadIov(img, sector + Sectors(|bufs[0]|), bufs[1..]))
      case o => o
  }

  ghost predicate PartsSound(img: Image, a: nat, lens: seq<nat>)
    decreases |lens|
  {
    lens != [] ==> Sound(img, a, lens[0]) && PartsSound(img, a + lens[0], lens[1..])
  }

  ghost predicate WholeSectors(lens: seq<nat>) {
    forall i :: 0 <= i < |lens| ==> lens[i] % SECTOR_SIZE == 0
  }

  lemma NextPart(sector: nat, lens: seq<nat>)
    requires lens != [] && WholeSectors(lens) && Offset(sector) + Sum(lens) < TWO_64
    ensures Offset(sector + Sectors(lens[0])) == Offset(sector) + lens[0]
    ensures WholeSectors(lens[1..])
  {
    OffsetPlus(sector, lens[0] / SECTOR_SIZE);
  }

  lemma {:induction false} PartsRead(img: Image, sector: nat, bufs: seq<seq<Byte>>)
    requires WellFormed(img) && WholeSectors(Lens(bufs))
    requires Offset(sector) + Sum(Lens(bufs)) < TWO_64
    requires PartsSound(img, Offset(sector), Lens(bufs))
    ensures ReadIov(img, sector, bufs) == Full(Flat(img, Offset(sector), Sum(Lens(bufs))))
    decreases |bufs|
  {
    hide Offset, ReadRest, Sound, FlatByte, Flat;
    if bufs != [] {
      var a, lens := Offset(sector), Lens(bufs);
      assert Lens(bufs[1..]) == lens[1..];
      NextPart(sector, lens);
      SoundReads(img, sector, bufs[0], 0);
      PartsRead(img, sector + Sectors(lens[0]), bufs[1..]);
      FlatJoin(img, a, lens[0], Sum(lens[1..]));
    }
  }

  /** Buffers none of whose bytes already hold the disk's content. */
  function Unlike(img: Image, a: nat, lens: seq<nat>): (bufs: seq<seq<Byte>>)
    ensures Lens(bufs) == lens
    decreases |lens|
  {
    if lens == [] then [] else
    var flat := Flat(img, a, lens[0]);
    var head := seq<Byte>(lens[0], i requires 0 <= i < lens[0] => if flat[i] == 0 then 1 else 0);
    var tail := Unlike(img, a + lens[0], lens[1..]);
    assert Lens([head] + tail) == [lens[0]] + Lens(tail);
    [head] + tail
  }

  lemma {:induction false} PartsMisread(img: Image, sector: nat, lens: seq<nat>)
    requires WellFormed(img) && WholeSectors(lens) && Offset(sector) + Sum(lens) < TWO_64
    requires !PartsSound(img, Offset(sector), lens)
    ensures ReadIov(img, sector, Unlike(img, Offset(sector), lens))
         != Full(Flat(img, Offset(sector), Sum(lens)))
    decreases |lens|
  {
    hide Offset, ReadSingle, Sound, FlatByte, Flat, PartsSound, Unlike, Differs;
    var a := Offset(sector);
    PartsOnce(img, a, lens);
    NextPart(sector, lens);
    UnlikeOnce(img, a, lens);
    var bufs, next := Unlike(img, a, lens), sector + Sectors(lens[0]);
    var r, rest := ReadSingle(img, sector, bufs[0]), ReadIov(img, next, bufs[1..]);
    if Sound(img, a, lens[0]) {
      PartsMisread(img, next, lens[1..]);
    } else {
      UnsoundMisreads(img, sector, bufs[0], 0);
      SingleIsRest(img, sector, bufs[0]);
    }
    if r.Full? && rest.Full? {
      FlatJoin(img, a, lens[0], Sum(lens[1..]));
      if r.bytes + rest.bytes == Flat(img, a, Sum(lens)) {
        ConcatInjective(r.bytes, rest.bytes, Flat(img, a, lens[0]), Flat(img, a + lens[0], Sum(lens[1..])));
      }
    }
  }

  lemma PartsOnce(img: Image, a: nat, lens: seq<nat>)
    ensures lens == [] ==> PartsSound(img, a, lens)
    ensures lens != [] ==>
              (PartsSound(img, a, lens) <==> Sound(img, a, lens[0]) && PartsSound(img, a + lens[0], lens[1..]))
  { }

  lemma UnlikeOnce(img: Image, a: nat, lens: seq<nat>)
    requires lens != []
    ensures var bufs := Unlike(img, a, lens);
            && |bufs| == |lens| && |bufs[0]| == lens[0] && Differs(img, a, bufs[0])
            && bufs[1..] == Unlike(img, a + lens[0], lens[1..])
  {
    var bufs := Unlike(img, a, lens);
    assert |bufs| == |Lens(bufs)| && Lens(bufs)[0] == |bufs[0]|;
  }

  lemma SingleIsRest(img: Image, sector: nat, dst: seq<Byte>)
    requires WellFormed(img)
    ensures ReadSingle(img, sector, dst) == ReadRest(img, sector, dst, 0)
  { }

  lemma ConcatInjective(x: seq<Byte>, y: seq<Byte>, u: seq<Byte>, v: seq<Byte>)
    requires |x| == |u| && x + y == u + v
    ensures x == u && y == v
  {
    assert x == (x + y)[..|x|] && u == (u + v)[..|u|];
    assert y == (x + y)[|x|..] && v == (u + v)[|u|..];
  }

  /** A scattered read of whole-sector buffers can be trusted exactly when each of its
      parts can: cutting the range differently does not change the bytes. */
  lemma ScatterIsFlatExactly(img: Image, sector: nat, lens: seq<nat>)
    requires WellFormed(img) && WholeSectors(lens) && Offset(sector) + Sum(lens) < TWO_64
    ensures PartsSound(img, Offset(sector), lens) <==>
            forall bufs: seq<seq<Byte>> :: Lens(bufs) == lens ==>
              ReadIov(img, sector, bufs) == Full(Flat(img, Offset(sector), Sum(lens)))
  {
    hide Offset, ReadIov;
    if PartsSound(img, Offset(sector), lens) {
      forall bufs: seq<seq<Byte>> | Lens(bufs) == lens
        ensures ReadIov(img, sector, bufs) == Full(Flat(img, Offset(sector), Sum(lens)))
      {
        PartsRead(img, sector, bufs);
      }
    } else {
      PartsMisread(img, sector, lens);
    }
  }

  /** Staying inside the disk is enough, however the range is cut. */
  lemma {:induction false} InsideIsSound(img: Image, a: nat, lens: seq<nat>)
    requires a + Sum(lens) <= img.size && AllReadable(img, a, Sum(lens))
    ensures PartsSound(img, a, lens)
    decreases |lens|
  {
    if lens != [] {
      InsideIsSound(img, a + lens[0], lens[1..]);
    }
  }
}
