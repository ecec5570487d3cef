/** The tables of a qcow2 file byte by byte (disk/qcow.c): what somebody who writes entries
    in big-endian order gets to read as guest data.  Nothing here uses the reader's own
    decoding. */
module QcowFormat {
  import opened Arith
  import opened Iovec
  import opened QcowImage
  import opened QcowRead

  /** The k bytes of a number, most significant first. */
  function BigEndian(n: nat, k: nat): (r: seq<Byte>)
    ensures |r| == k
  {
    if k == 0 then [] else BigEndian(n / 0x100, k - 1) + [n % 0x100]
  }

  predicate HoldsAt(file: seq<Byte>, at: nat, bytes: seq<Byte>) {
    at + |bytes| <= |file| && file[at..at + |bytes|] == bytes
  }

  lemma BigEndianLast(n: nat, k: nat)
    requires k > 0
    ensures BigEndian(n, k) == BigEndian(n / 0x100, k - 1) + [n % 0x100]
  { }

  /** The last byte, and those before it, lie where they should. */
  lemma HoldsLast(file: seq<Byte>, at: nat, n: nat, k: nat)
    requires k > 0 && HoldsAt(file, at, BigEndian(n, k))
    ensures HoldsAt(file, at, BigEndian(n / 0x100, k - 1)) && file[at + k - 1] == n % 0x100
  {
    BigEndianLast(n, k);
    hide BigEndian;
    var whole := file[at..at + k];
    assert whole[k - 1] == n % 0x100;
    assert file[at..at + (k - 1)] == whole[..k - 1] == BigEndian(n / 0x100, k - 1);
  }

  lemma Be32Reads(img: Image, at: nat, n: nat)
    requires n < 0x1_0000_0000 && HoldsAt(img.file, at, BigEndian(n, 4))
    ensures img.Be32(at) == n
  {
    hide BigEndian;
    HoldsLast(img.file, at, n, 4);
    HoldsLast(img.file, at, n / 0x100, 3);
    HoldsLast(img.file, at, n / 0x100 / 0x100, 2);
    HoldsLast(img.file, at, n / 0x100 / 0x100 / 0x100, 1);
  }

  /** Eight bytes are four and four. */
  lemma HoldsHalves(file: seq<Byte>, at: nat, n: nat)
    requires HoldsAt(file, at, BigEndian(n, 8))
    ensures HoldsAt(file, at, BigEndian(n / 0x1_0000_0000, 4))
    ensures HoldsAt(file, at + 4, BigEndian(n % 0x1_0000_0000, 4))
  {
    var a, b, c, d := n / 0x100, n / 0x1_0000, n / 0x100_0000, n / 0x1_0000_0000;
    var low := n % 0x1_0000_0000;
    Quarter(n);
    Quarter(low);
    BigEndianLast(n, 8);
    BigEndianLast(a, 7);
    BigEndianLast(b, 6);
    BigEndianLast(c, 5);
    BigEndianLast(low, 4);
    BigEndianLast(low / 0x100, 3);
    BigEndianLast(low / 0x1_0000, 2);
    BigEndianLast(low / 0x100_0000, 1);
    LowBytes(n);
    hide BigEndian;
    Halves(file, at, BigEndian(d, 4), [c % 0x100, b % 0x100, a % 0x100, n % 0x100]);
    assert BigEndian(low, 4) == [c % 0x100, b % 0x100, a % 0x100, n % 0x100] by { NoBytes(low / 0x1_0000_0000); }
  }

  lemma NoBytes(n: nat)
    ensures BigEndian(n, 0) == []
  { }

  lemma Halves(file: seq<Byte>, at: nat, x: seq<Byte>, y: seq<Byte>)
    requires HoldsAt(file, at, x + y)
    ensures HoldsAt(file, at, x) && HoldsAt(file, at + |x|, y)
  {
    var whole := file[at..at + |x + y|];
    assert file[at..at + |x|] == whole[..|x|] == x;
    assert file[at + |x|..at + |x| + |y|] == whole[|x|..] == y;
  }

  lemma Quarter(n: nat)
    ensures n / 0x100 / 0x100 == n / 0x1_0000 && n / 0x1_0000 / 0x100 == n / 0x100_0000
    ensures n / 0x100_0000 / 0x100 == n / 0x1_0000_0000
  { }

  lemma LowBytes(n: nat)
    ensures var low := n % 0x1_0000_0000;
            && low % 0x100 == n % 0x100 && low / 0x100 % 0x100 == n / 0x100 % 0x100
            && low / 0x1_0000 % 0x100 == n / 0x1_0000 % 0x100 && low / 0x100_0000 % 0x100 == n / 0x100_0000 % 0x100
  {
    var low, d := n % 0x1_0000_0000, n / 0x1_0000_0000;
    assert n == 0x1_0000_0000 * d + low;
    assert n / 0x100 == 0x100_0000 * d + low / 0x100;
    assert n / 0x1_0000 == 0x1_0000 * d + low / 0x1_0000;
    assert n / 0x100_0000 == 0x100 * d + low / 0x100_0000;
  }

  lemma Be64Reads(img: Image, at: nat, n: U64)
    requires HoldsAt(img.file, at, BigEndian(n, 8))
    ensures img.Be64(at) == n
  {
    hide BigEndian;
    HoldsHalves(img.file, at, n);
    Be32Reads(img, at, n / 0x1_0000_0000);
    Be32Reads(img, at + 4, n % 0x1_0000_0000);
  }

  // --------------------------------------------------------------- the guest's bytes

  /** Guest byte `off` of the cluster whose table entry is number i of L2 table j. */
  function GuestByte(img: Image, j: nat, i: nat, off: nat): nat {
    (j * img.L2Size() + i) * img.ClusterSize() + off
  }

  lemma GuestIndex(img: Image, j: nat, i: nat, off: nat)
    requires i < img.L2Size() && off < img.ClusterSize()
    ensures var a := GuestByte(img, j, i, off);
            && Quot(a, img.ClusterSize()) == j * img.L2Size() + i && Rem(a, img.ClusterSize()) == off
            && Quot(j * img.L2Size() + i, img.L2Size()) == j && Rem(j * img.L2Size() + i, img.L2Size()) == i
  {
    DivUnique(GuestByte(img, j, i, off), img.ClusterSize(), j * img.L2Size() + i, off);
    DivUnique(j * img.L2Size() + i, img.L2Size(), j, i);
  }

  /** L1 entry j names the table at byte t, with or without the COPIED flag. */
  predicate Names(img: Image, j: nat, t: nat) {
    j < |img.l1| && t < 0x8000_0000_0000_0000 && (img.l1[j] == t || img.l1[j] == t + 0x8000_0000_0000_0000)
  }

  lemma NamesMasked(img: Image, j: nat, t: nat)
    requires Names(img, j, t)
    ensures img.l1[j] % OFLAG_COPIED == t
  { }

  /** Where L1 names no table its clusters read as zeros; past its end, or where the table
      lies past the end of the file, nothing can be read. */
  lemma NoTableReads(img: Image, j: nat, t: nat, i: nat, off: nat)
    requires i < img.L2Size() && off < img.ClusterSize()
    ensures var a := GuestByte(img, j, i, off);
            && (j >= |img.l1| ==> !Readable(img, a))
            && (Names(img, j, 0) ==> Readable(img, a) && FlatByte(img, a) == 0)
            && (Names(img, j, t) && t > 0 && t >= |img.file| ==> !Readable(img, a))
  {
    hide Quot, Rem, GuestByte, Names;
    GuestIndex(img, j, i, off);
    if Names(img, j, 0) { NamesMasked(img, j, 0); }
    if Names(img, j, t) { NamesMasked(img, j, t); }
    assert Names(img, j, t) || Names(img, j, 0) ==> j < |img.l1| by { NamesInside(img, j, t); NamesInside(img, j, 0); }
  }

  lemma NamesInside(img: Image, j: nat, t: nat)
    ensures Names(img, j, t) ==> j < |img.l1|
  { }

  /** A file in which L2 table j lies at byte t and has entry e at place i. */
  ghost predicate Written(img: Image, j: nat, t: nat, i: nat, e: U64) {
    && Names(img, j, t) && t > 0
    && i < img.L2Size() && HoldsAt(img.file, t + 8 * i, BigEndian(e, 8))
  }

  lemma WrittenPlace(img: Image, j: nat, t: nat, i: nat, e: U64, off: nat)
    requires Written(img, j, t, i, e) && off < img.ClusterSize()
    ensures Locate(img, GuestByte(img, j, i, off)) == PlaceIn(img, e, off)
  {
    hide Quot, Rem, BigEndian, PlaceIn, GuestByte;
    GuestIndex(img, j, i, off);
    EntryReads(img, t, i, e);
    NamesMasked(img, j, t);
  }

  lemma EntryReads(img: Image, t: nat, i: nat, e: U64)
    requires i < img.L2Size() && HoldsAt(img.file, t + 8 * i, BigEndian(e, 8))
    ensures img.TableAt(t)[i] == e && t < |img.file|
  {
    hide BigEndian;
    Be64Reads(img, t + 8 * i, e);
    hide Image.Be64;
  }

  /** A plain entry, with or without the COPIED flag, is the place of the cluster in the
      file; place zero is a cluster of zeros. */
  lemma PlainEntryReads(img: Image, j: nat, t: nat, i: nat, p: nat, copied: bool, off: nat)
    requires p < 0x4000_0000_0000_0000 && off < img.ClusterSize()
    requires Written(img, j, t, i, if copied then p + 0x8000_0000_0000_0000 else p)
    ensures var a := GuestByte(img, j, i, off);
            && (p == 0 ==> Readable(img, a) && FlatByte(img, a) == 0)
            && (p > 0 ==> (Readable(img, a) <==> p + off < |img.file|))
            && (0 < p && p + off < |img.file| ==> FlatByte(img, a) == img.file[p + off])
  {
    hide BigEndian, GuestByte, Quot, Rem, Written, LocateIn;
    var e: U64 := if copied then p + 0x8000_0000_0000_0000 else p;
    WrittenPlace(img, j, t, i, e, off);
    assert e / OFLAG_COMPRESSED % 2 == 0 && e % OFLAG_COMPRESSED == p;
  }

  /** A compressed entry is read through what zlib makes of it. */
  lemma CompressedEntryReads(img: Image, j: nat, t: nat, i: nat, z: nat, copied: bool, off: nat)
    requires WellFormed(img) && z < 0x4000_0000_0000_0000 && off < img.ClusterSize()
    requires Written(img, j, t, i, 0x4000_0000_0000_0000 + if copied then z + 0x8000_0000_0000_0000 else z)
    ensures var a := GuestByte(img, j, i, off);
            var e: U64 := 0x4000_0000_0000_0000 + if copied then z + 0x8000_0000_0000_0000 else z;
            && (Readable(img, a) <==> e in img.inflated)
            && (e in img.inflated ==> |img.inflated[e]| == img.ClusterSize() && FlatByte(img, a) == img.inflated[e][off])
  {
    hide BigEndian, GuestByte, Quot, Rem, Written, LocateIn;
    var e: U64 := 0x4000_0000_0000_0000 + if copied then z + 0x8000_0000_0000_0000 else z;
    WrittenPlace(img, j, t, i, e, off);
    assert e / OFLAG_COMPRESSED % 2 == 1;
  }

  /** A sound read of sectors returns the bytes of the disk from 512 times the sector on. */
  lemma SectorsRead(img: Image, sector: nat, dst: seq<Byte>)
    requires WellFormed(img) && 512 * sector + |dst| < TWO_64 && Sound(img, 512 * sector, |dst|)
    ensures ReadSingle(img, sector, dst).Full?
    ensures forall k :: 0 <= k < |dst| ==> ReadSingle(img, sector, dst).bytes[k] == FlatByte(img, 512 * sector + k)
  {
    hide FlatByte, Sound, ReadRest;
    assert Offset(sector) == 512 * sector;
    SoundReads(img, sector, dst, 0);
  }

  /** And from a written entry: a sector inside one plain cluster is that part of the file. */
  lemma WrittenSectorReads(img: Image, j: nat, t: nat, i: nat, p: nat, copied: bool, sector: nat, off: nat, dst: seq<Byte>)
    requires WellFormed(img) && 0 < p < 0x4000_0000_0000_0000 && 0 < |dst| && off + |dst| <= img.ClusterSize()
    requires Written(img, j, t, i, if copied then p + 0x8000_0000_0000_0000 else p)
    requires 512 * sector == GuestByte(img, j, i, off) < img.size && 512 * sector + |dst| < TWO_64
    requires p + off + |dst| <= |img.file|
    ensures ReadSingle(img, sector, dst) == Full(img.file[p + off..p + off + |dst|])
  {
    hide BigEndian, GuestByte, Written, Readable, FlatByte, ReadRest, Quot, Rem, Sound;
    var a, b := 512 * sector, p + off;
    forall q: nat | a <= q < a + |dst| ensures Readable(img, q) && FlatByte(img, q) == img.file[b + (q - a)] {
      GuestOn(img, j, i, off, q - a);
      PlainEntryReads(img, j, t, i, p, copied, off + (q - a));
    }
    WrittenIndex(img, j, t, i, if copied then p + 0x8000_0000_0000_0000 else p);
    ClusterSound(img, a, off, |dst|, j, i);
    SectorsRead(img, sector, dst);
    var r := ReadSingle(img, sector, dst).bytes;
    assert r == img.file[b..b + |dst|] by {
      forall k | 0 <= k < |dst| ensures r[k] == img.file[b + k] { assert r[k] == FlatByte(img, a + k); }
    }
  }

  lemma WrittenIndex(img: Image, j: nat, t: nat, i: nat, e: U64)
    requires Written(img, j, t, i, e)
    ensures i < img.L2Size()
  { }

  lemma GuestOn(img: Image, j: nat, i: nat, off: nat, k: nat)
    ensures GuestByte(img, j, i, off + k) == GuestByte(img, j, i, off) + k
  { }

  lemma ClusterSound(img: Image, a: nat, off: nat, n: nat, j: nat, i: nat)
    requires a == GuestByte(img, j, i, off) < img.size && 0 < n && off + n <= img.ClusterSize() && i < img.L2Size()
    requires forall p: nat :: a <= p < a + n ==> Readable(img, p)
    ensures Sound(img, a, n)
  {
    hide Readable, Quot, Rem, GuestByte;
    GuestIndex(img, j, i, off);
    forall p: nat | a < p < a + n ensures Rem(p, img.ClusterSize()) != 0 {
      GuestOn(img, j, i, off, p - a);
      GuestIndex(img, j, i, off + (p - a));
    }
  }
}
