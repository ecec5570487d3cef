/** What a qcow2 file means (disk/qcow.c): a flat disk, found through two levels of
    tables.  Nothing here knows about caches, chunks or buffers. */
module QcowImage {
  import opened Arith
  import opened Iovec

  type U64 = n: nat | n < 0x1_0000_0000_0000_0000

  const SECTOR_SIZE := 512
  const OFLAG_COPIED := 0x8000_0000_0000_0000
  const OFLAG_COMPRESSED := 0x4000_0000_0000_0000

  function Pow2(n: nat): (r: nat)
    ensures r > 0
  {
    if n == 0 then 1 else 2 * Pow2(n - 1)
  }

  /** The backing file and what the header and the L1 table said when it was opened.
      `inflated` is what zlib makes of the compressed clusters it can decompress, by
      L2 entry. */
  datatype Image = Image(file: seq<Byte>, l1: seq<U64>, clusterBits: nat, l2Bits: nat, size: nat,
                         inflated: map<U64, seq<Byte>>)
  {
    function ClusterSize(): (r: nat)
      ensures r > 0
    {
      Pow2(clusterBits)
    }

    function L2Size(): (r: nat)
      ensures r > 0
    {
      Pow2(l2Bits)
    }

    /** A byte of the file as a table read sees it: the buffer was cleared beforehand. */
    function FileByte(i: nat): Byte { if i < |file| then file[i] else 0 }

    function Be32(at: nat): (r: nat)
      ensures r < 0x1_0000_0000
    {
      FileByte(at) * 0x100_0000 + FileByte(at + 1) * 0x1_0000
      + FileByte(at + 2) * 0x100 + FileByte(at + 3)
    }

    function Be64(at: nat): U64 {
      Be32(at) * 0x1_0000_0000 + Be32(at + 4)
    }

    /** The L2 table stored at byte `at` of the file. */
    function TableAt(at: nat): (t: seq<U64>)
      ensures |t| == L2Size()
    {
      seq<U64>(L2Size(), i requires 0 <= i < L2Size() => Be64(at + 8 * i))
    }
  }

  /** A cluster is at least one sector, as the format requires, and is inflated whole. */
  ghost predicate WellFormed(img: Image) {
    img.clusterBits >= 9 && forall e <- img.inflated :: |img.inflated[e]| == img.ClusterSize()
  }

  /** Where the guest's byte `a` is kept. */
  datatype Place = Outside | NoTable | Unmapped | Packed(entry: U64, off: nat) | At(pos: nat)

  function PlaceIn(img: Image, entry: U64, off: nat): Place {
    if entry / OFLAG_COMPRESSED % 2 == 1 then Packed(entry, off)
    else if entry % OFLAG_COMPRESSED == 0 then Unmapped
    else At(entry % OFLAG_COMPRESSED + off)
  }

  function LocateIn(img: Image, cluster: nat, off: nat): Place {
    var l1Idx := Quot(cluster, img.L2Size());
    if l1Idx >= |img.l1| then Outside else
    var table := img.l1[l1Idx] % OFLAG_COPIED;
    if table == 0 then Unmapped
    else if table >= |img.file| then NoTable
    else PlaceIn(img, img.TableAt(table)[Rem(cluster, img.L2Size())], off)
  }

  function Locate(img: Image, a: nat): Place {
    LocateIn(img, Quot(a, img.ClusterSize()), Rem(a, img.ClusterSize()))
  }

  /** The image really holds the byte, or the byte is unmapped. */
  predicate Readable(img: Image, a: nat) {
    match Locate(img, a)
    case Unmapped => true
    case Packed(entry, _) => entry in img.inflated
    case At(pos) => pos < |img.file|
    case _ => false
  }

  /** The virtual disk: unmapped bytes read as zero. */
  function FlatByte(img: Image, a: nat): Byte {
    match Locate(img, a)
    case Packed(entry, off) =>
      if entry in img.inflated && off < |img.inflated[entry]| then img.inflated[entry][off] else 0
    case At(pos) => img.FileByte(pos)
    case _ => 0
  }

  function Flat(img: Image, a: nat, n: nat): (s: seq<Byte>)
    ensures |s| == n
  {
    seq<Byte>(n, i requires 0 <= i < n => FlatByte(img, a + i))
  }

  lemma FlatJoin(img: Image, a: nat, m: nat, n: nat)
    ensures Flat(img, a, m) + Flat(img, a + m, n) == Flat(img, a, m + n)
  {
    var l, r := Flat(img, a, m) + Flat(img, a + m, n), Flat(img, a, m + n);
    forall i | 0 <= i < m + n ensures l[i] == r[i] {
      if i >= m { assert a + m + (i - m) == a + i; }
    }
  }

  // --------------------------------------------------------- address arithmetic

  lemma {:induction false} Pow2Add(a: nat, b: nat)
    ensures Pow2(a + b) == Pow2(a) * Pow2(b)
  {
    if a > 0 {
      Pow2Add(a - 1, b);
      Assoc(2, Pow2(a - 1), Pow2(b));
    }
  }

  lemma Pow2Sector(n: nat) returns (k: nat)
    requires n >= 9
    ensures Pow2(n) == SECTOR_SIZE * k && k > 0
  {
    Pow2Add(9, n - 9);
    assert Pow2(9) == 512;
    k := Pow2(n - 9);
  }

  /** Shifting once by both widths is shifting twice. */
  lemma ShiftTwice(a: nat, c: nat, l: nat)
    requires c > 0 && l > 0 && l * c > 0
    ensures a / (l * c) == a / c / l
  {
    var q, r := a / c, a % c;
    DivSplit(a, c, l, q, r, q / l, q % l);
  }

  lemma DivSplit(a: nat, c: nat, l: nat, q: nat, r: nat, p: nat, s: nat)
    requires l * c > 0 && a == q * c + r && r < c && q == p * l + s && s < l
    ensures a / (l * c) == p
  {
    assert (p * l + s) * c == p * l * c + s * c;
    Assoc(p, l, c);
    Above(s, l, c);
    DivUnique(a, l * c, p, s * c + r);
  }

  /** Inside a cluster, places advance byte by byte. */
  lemma LocateAlong(img: Image, a: nat, i: nat)
    requires Rem(a, img.ClusterSize()) + i < img.ClusterSize()
    ensures Locate(img, a + i) == Advance(Locate(img, a), i)
  {
    SameBlock(a, i, img.ClusterSize());
    hide Pow2, Quot, Rem;
  }

  function Advance(p: Place, i: nat): Place {
    match p
    case Packed(entry, off) => Packed(entry, off + i)
    case At(pos) => At(pos + i)
    case _ => p
  }
}
