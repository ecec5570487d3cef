/** Bit sets kept in machine words (util/bitmap.c, util/find.c).  A word is its 64 bits,
    least significant first; the loops work word by word through masks. */
module Bitmap {
  const BITS_PER_LONG := 64

  type Word = w: seq<bool> | |w| == BITS_PER_LONG witness Filled(false)

  function Filled(b: bool): (w: seq<bool>)
    ensures |w| == BITS_PER_LONG && forall j :: 0 <= j < BITS_PER_LONG ==> w[j] == b
  {
    seq<bool>(BITS_PER_LONG, _ => b)
  }

  function Or(a: Word, b: Word): (w: Word)
    ensures forall j :: 0 <= j < BITS_PER_LONG ==> w[j] == (a[j] || b[j])
  {
    seq<bool>(BITS_PER_LONG, j requires 0 <= j < BITS_PER_LONG => a[j] || b[j])
  }

  function And(a: Word, b: Word): (w: Word)
    ensures forall j :: 0 <= j < BITS_PER_LONG ==> w[j] == (a[j] && b[j])
  {
    seq<bool>(BITS_PER_LONG, j requires 0 <= j < BITS_PER_LONG => a[j] && b[j])
  }

  function Xor(a: Word, b: Word): (w: Word)
    ensures forall j :: 0 <= j < BITS_PER_LONG ==> w[j] == (a[j] != b[j])
  {
    seq<bool>(BITS_PER_LONG, j requires 0 <= j < BITS_PER_LONG => a[j] != b[j])
  }

  /** All bits from start mod 64 up. */
  function FirstWordMask(start: nat): (w: Word)
    ensures forall j :: 0 <= j < BITS_PER_LONG ==> w[j] == (start % BITS_PER_LONG <= j)
  {
    seq<bool>(BITS_PER_LONG, j requires 0 <= j < BITS_PER_LONG => start % BITS_PER_LONG <= j)
  }

  /** All bits below nbits mod 64, or the whole word when that is zero. */
  function LastWordMask(nbits: nat): (w: Word)
    ensures forall j :: 0 <= j < BITS_PER_LONG ==> w[j] == (nbits % BITS_PER_LONG == 0 || j < nbits % BITS_PER_LONG)
  {
    seq<bool>(BITS_PER_LONG, j requires 0 <= j < BITS_PER_LONG =>
                nbits % BITS_PER_LONG == 0 || j < nbits % BITS_PER_LONG)
  }

  predicate NonZero(w: Word) { exists j :: 0 <= j < BITS_PER_LONG && w[j] }

  /** Count of trailing zeros. */
  function Ctz(w: Word): (r: nat)
    requires NonZero(w)
    ensures r < BITS_PER_LONG && w[r] && forall j :: 0 <= j < r ==> !w[j]
  {
    CtzFrom(w, 0)
  }

  function CtzFrom(w: Word, k: nat): (r: nat)
    requires k <= BITS_PER_LONG && (exists j :: k <= j < BITS_PER_LONG && w[j])
    ensures k <= r < BITS_PER_LONG && w[r] && forall j :: k <= j < r ==> !w[j]
    decreases BITS_PER_LONG - k
  {
    if w[k] then k else CtzFrom(w, k + 1)
  }

  predicate Test(bits: seq<Word>, b: nat)
    requires b < BITS_PER_LONG * |bits|
  {
    bits[b / BITS_PER_LONG][b % BITS_PER_LONG]
  }

  /** Exactly the bits [start, start + len) are added. */
  method SetBits(bits: array<Word>, start: nat, len: nat)
    requires start + len <= BITS_PER_LONG * bits.Length
    modifies bits
    ensures forall b: nat :: b < BITS_PER_LONG * bits.Length ==>
              Test(bits[..], b) == (Test(old(bits[..]), b) || start <= b < start + len)
  {
    ghost var was := bits[..];
    var p, left := start / BITS_PER_LONG, len;
    var bitsToSet := BITS_PER_LONG - start % BITS_PER_LONG;
    var maskToSet := FirstWordMask(start);
    while left >= bitsToSet
      invariant 0 < bitsToSet <= BITS_PER_LONG && 0 <= left <= len
      invariant start + (len - left) == BITS_PER_LONG * (p + 1) - bitsToSet
      invariant left == len || bitsToSet == BITS_PER_LONG
      invariant maskToSet == FirstWordMask(start + (len - left))
      invariant forall b: nat :: b < BITS_PER_LONG * bits.Length ==>
                  Test(bits[..], b) == (Test(was, b) || start <= b < start + (len - left))
      decreases left
    {
      ghost var before, from := bits[..], start + (len - left);
      bits[p] := Or(bits[p], maskToSet);
      left := left - bitsToSet;
      OrWord(was, before, bits[..], p, maskToSet, start, from, BITS_PER_LONG * (p + 1));
      bitsToSet := BITS_PER_LONG;
      maskToSet := Filled(true);
      assert maskToSet == FirstWordMask(start + (len - left));
      p := p + 1;
    }
    if left > 0 {
      ghost var before, from := bits[..], start + (len - left);
      maskToSet := And(maskToSet, LastWordMask(start + len));
      bits[p] := Or(bits[p], maskToSet);
      OrWord(was, before, bits[..], p, maskToSet, start, from, start + len);
    }
  }

  /** One word changed by a mask that covers [from, to). */
  lemma OrWord(was: seq<Word>, before: seq<Word>, now: seq<Word>, p: nat, mask: Word, start: nat, from: nat, to: nat)
    requires |was| == |before| && p < |before| && now == before[p := Or(before[p], mask)]
    requires start <= from <= to && BITS_PER_LONG * p <= from && to <= BITS_PER_LONG * (p + 1)
    requires forall j :: 0 <= j < BITS_PER_LONG ==> mask[j] == (from <= BITS_PER_LONG * p + j < to)
    requires forall b: nat :: b < BITS_PER_LONG * |was| ==> Test(before, b) == (Test(was, b) || start <= b < from)
    ensures forall b: nat :: b < BITS_PER_LONG * |was| ==> Test(now, b) == (Test(was, b) || start <= b < to)
  {
    forall b: nat | b < BITS_PER_LONG * |was| ensures Test(now, b) == (Test(was, b) || start <= b < to) {
      assert b == BITS_PER_LONG * (b / BITS_PER_LONG) + b % BITS_PER_LONG;
      assert Test(before, b) == (Test(was, b) || start <= b < from);
    }
  }

  /** A bit the search is after. */
  predicate Match(addr1: seq<Word>, addr2: seq<Word>, both: bool, invert: bool, b: nat)
    requires b < BITS_PER_LONG * |addr1| && (both ==> |addr2| == |addr1|)
  {
    (Test(addr1, b) && (both ==> Test(addr2, b))) != invert
  }

  function Candidates(w1: Word, w2: Word, both: bool, invert: bool): Word {
    Xor(if both then And(w1, w2) else w1, Filled(invert))
  }

  /** The word at `pos` holds the matches from `start` on. */
  ghost predicate Shows(tmp: Word, addr1: seq<Word>, addr2: seq<Word>, both: bool, invert: bool, pos: nat, start: nat)
    requires both ==> |addr2| == |addr1|
  {
    && pos % BITS_PER_LONG == 0 && pos + BITS_PER_LONG <= BITS_PER_LONG * |addr1|
    && forall j :: 0 <= j < BITS_PER_LONG ==>
         tmp[j] == (start <= pos + j && Match(addr1, addr2, both, invert, pos + j))
  }

  lemma WordShows(addr1: seq<Word>, addr2: seq<Word>, both: bool, invert: bool, pos: nat, start: nat)
    requires both ==> |addr2| == |addr1|
    requires pos % BITS_PER_LONG == 0 && pos < BITS_PER_LONG * |addr1|
    ensures var at := pos / BITS_PER_LONG;
            var w := Candidates(addr1[at], if both then addr2[at] else addr1[at], both, invert);
            && (start <= pos ==> Shows(w, addr1, addr2, both, invert, pos, start))
            && (pos == start - start % BITS_PER_LONG ==>
                  Shows(And(w, FirstWordMask(start)), addr1, addr2, both, invert, pos, start))
  {
    var at := pos / BITS_PER_LONG;
    var w := Candidates(addr1[at], if both then addr2[at] else addr1[at], both, invert);
    forall j | 0 <= j < BITS_PER_LONG ensures w[j] == Match(addr1, addr2, both, invert, pos + j) {
      assert (pos + j) / BITS_PER_LONG == at && (pos + j) % BITS_PER_LONG == j;
    }
  }

  lemma ShownMatch(tmp: Word, addr1: seq<Word>, addr2: seq<Word>, both: bool, invert: bool, pos: nat, start: nat, j: nat)
    requires both ==> |addr2| == |addr1|
    requires Shows(tmp, addr1, addr2, both, invert, pos, start) && j < BITS_PER_LONG && tmp[j]
    ensures start <= pos + j && pos + j < BITS_PER_LONG * |addr1| && Match(addr1, addr2, both, invert, pos + j)
  { }

  /** No match from `start` up to `end`. */
  ghost predicate NoMatch(addr1: seq<Word>, addr2: seq<Word>, both: bool, invert: bool, start: nat, end: nat)
    requires both ==> |addr2| == |addr1|
  {
    forall b: nat :: start <= b < end && b < BITS_PER_LONG * |addr1| ==> !Match(addr1, addr2, both, invert, b)
  }

  lemma NoMatchOn(tmp: Word, addr1: seq<Word>, addr2: seq<Word>, both: bool, invert: bool, pos: nat, start: nat, n: nat)
    requires both ==> |addr2| == |addr1|
    requires Shows(tmp, addr1, addr2, both, invert, pos, start) && NoMatch(addr1, addr2, both, invert, start, pos)
    requires n <= BITS_PER_LONG && forall j :: 0 <= j < n ==> !tmp[j]
    ensures NoMatch(addr1, addr2, both, invert, start, pos + n)
  {
    forall b: nat | start <= b < pos + n && b < BITS_PER_LONG * |addr1|
      ensures !Match(addr1, addr2, both, invert, b)
    {
      if b >= pos { assert !tmp[b - pos]; }
    }
  }

  /** The least matching bit from `start` on, or nbits. */
  method FindNextBit(addr1: seq<Word>, addr2: seq<Word>, both: bool, nbits: nat, start: nat, invert: bool)
    returns (r: nat)
    requires nbits <= BITS_PER_LONG * |addr1| && (both ==> |addr2| == |addr1|)
    ensures r <= nbits && (start < nbits ==> start <= r)
    ensures r < nbits ==> Match(addr1, addr2, both, invert, r)
    ensures forall b: nat :: start <= b < r ==> !Match(addr1, addr2, both, invert, b)
  {
    hide Match, Candidates, Shows;
    if start >= nbits { return nbits; }
    var at := start / BITS_PER_LONG;
    var tmp := Candidates(addr1[at], if both then addr2[at] else addr1[at], both, invert);
    tmp := And(tmp, FirstWordMask(start));
    var pos := start - start % BITS_PER_LONG;
    WordShows(addr1, addr2, both, invert, pos, start);
    while !NonZero(tmp)
      invariant pos < nbits && start < pos + BITS_PER_LONG && pos % BITS_PER_LONG == 0
      invariant Shows(tmp, addr1, addr2, both, invert, pos, start)
      invariant NoMatch(addr1, addr2, both, invert, start, pos)
      decreases nbits - pos
    {
      NoMatchOn(tmp, addr1, addr2, both, invert, pos, start, BITS_PER_LONG);
      pos := pos + BITS_PER_LONG;
      if pos >= nbits { return nbits; }
      WordShows(addr1, addr2, both, invert, pos, start);
      at := pos / BITS_PER_LONG;
      tmp := Candidates(addr1[at], if both then addr2[at] else addr1[at], both, invert);
    }
    NoMatchOn(tmp, addr1, addr2, both, invert, pos, start, Ctz(tmp));
    ShownMatch(tmp, addr1, addr2, both, invert, pos, start, Ctz(tmp));
    return if pos + Ctz(tmp) < nbits then pos + Ctz(tmp) else nbits;
  }

  /** The bits of whole words that nbits bits take up. */
  function Covered(nbits: nat): nat { (nbits + BITS_PER_LONG - 1) / BITS_PER_LONG * BITS_PER_LONG }

  /** Bit b of a map after intersecting the first nbits bits word by word. */
  predicate AndBit(was: seq<Word>, src1: seq<Word>, src2: seq<Word>, nbits: nat, b: nat)
    requires |src1| == |src2| == |was| && b < BITS_PER_LONG * |was|
  {
    if b < nbits then Test(src1, b) && Test(src2, b) else b >= Covered(nbits) && Test(was, b)
  }

  /** Intersection of the first nbits bits; those past them in the last word become zero,
      and words behind it stay as they were. */
  method BitmapAnd(dst: array<Word>, src1: seq<Word>, src2: seq<Word>, nbits: nat) returns (any: bool)
    requires |src1| == |src2| == dst.Length && nbits <= BITS_PER_LONG * dst.Length
    modifies dst
    ensures forall b: nat :: b < BITS_PER_LONG * dst.Length ==>
              Test(dst[..], b) == AndBit(old(dst[..]), src1, src2, nbits, b)
    ensures any <==> exists b: nat :: b < nbits && Test(src1, b) && Test(src2, b)
  {
    ghost var was := dst[..];
    var lim := nbits / BITS_PER_LONG;
    any := false;
    assert Covered(0) == 0;
    for k := 0 to lim
      invariant forall b: nat :: b < BITS_PER_LONG * dst.Length ==>
                  Test(dst[..], b) == AndBit(was, src1, src2, BITS_PER_LONG * k, b)
      invariant any <==> exists b: nat :: b < BITS_PER_LONG * k && Test(src1, b) && Test(src2, b)
    {
      ghost var before := dst[..];
      var w := And(src1[k], src2[k]);
      dst[k] := w;
      any := any || NonZero(w);
      AndWord(was, before, dst[..], src1, src2, k, BITS_PER_LONG * (k + 1), w);
    }
    if nbits % BITS_PER_LONG != 0 {
      ghost var before := dst[..];
      var w := And(And(src1[lim], src2[lim]), LastWordMask(nbits));
      dst[lim] := w;
      any := any || NonZero(w);
      AndWord(was, before, dst[..], src1, src2, lim, nbits, w);
    }
  }

  lemma AndWord(was: seq<Word>, before: seq<Word>, now: seq<Word>, src1: seq<Word>, src2: seq<Word>, k: nat, to: nat, w: Word)
    requires |src1| == |src2| == |before| == |was| && k < |before| && now == before[k := w]
    requires BITS_PER_LONG * k < to <= BITS_PER_LONG * (k + 1)
    requires forall j :: 0 <= j < BITS_PER_LONG ==> w[j] == (src1[k][j] && src2[k][j] && BITS_PER_LONG * k + j < to)
    requires forall b: nat :: b < BITS_PER_LONG * |was| ==>
               Test(before, b) == AndBit(was, src1, src2, BITS_PER_LONG * k, b)
    ensures forall b: nat :: b < BITS_PER_LONG * |was| ==> Test(now, b) == AndBit(was, src1, src2, to, b)
    ensures (exists b: nat :: b < to && Test(src1, b) && Test(src2, b)) <==>
            (exists b: nat :: b < BITS_PER_LONG * k && Test(src1, b) && Test(src2, b)) || NonZero(w)
  {
    assert Covered(to) == BITS_PER_LONG * (k + 1) && Covered(BITS_PER_LONG * k) == BITS_PER_LONG * k;
    forall b: nat | b < BITS_PER_LONG * |was| ensures Test(now, b) == AndBit(was, src1, src2, to, b) {
      InWord(b, k);
      assert Test(before, b) == AndBit(was, src1, src2, BITS_PER_LONG * k, b);
    }
    if NonZero(w) {
      var j :| 0 <= j < BITS_PER_LONG && w[j];
      InWord(BITS_PER_LONG * k + j, k);
      assert Test(src1, BITS_PER_LONG * k + j) && Test(src2, BITS_PER_LONG * k + j);
    }
    if b: nat :| b < to && Test(src1, b) && Test(src2, b) {
      InWord(b, k);
      if b >= BITS_PER_LONG * k { assert w[b - BITS_PER_LONG * k]; }
    }
  }

  lemma InWord(b: nat, k: nat)
    ensures b / BITS_PER_LONG == k <==> BITS_PER_LONG * k <= b < BITS_PER_LONG * (k + 1)
    ensures b / BITS_PER_LONG == k ==> b % BITS_PER_LONG == b - BITS_PER_LONG * k
  { }

  method BitmapSubset(map1: seq<Word>, map2: seq<Word>, nbits: nat) returns (subset: bool)
    requires |map1| == |map2| && nbits <= BITS_PER_LONG * |map1|
    ensures subset <==> forall b: nat :: b < nbits && Test(map1, b) ==> Test(map2, b)
  {
    var lim := nbits / BITS_PER_LONG;
    for k := 0 to lim
      invariant forall b: nat :: b < BITS_PER_LONG * k && Test(map1, b) ==> Test(map2, b)
    {
      var extra := And(map1[k], Xor(map2[k], Filled(true)));
      if NonZero(extra) {
        assert Test(map1, BITS_PER_LONG * k + Ctz(extra)) && !Test(map2, BITS_PER_LONG * k + Ctz(extra));
        return false;
      }
      forall b: nat | BITS_PER_LONG * k <= b < BITS_PER_LONG * (k + 1) && Test(map1, b) ensures Test(map2, b) {
        assert !extra[b - BITS_PER_LONG * k];
      }
    }
    if nbits % BITS_PER_LONG != 0 {
      var extra := And(And(map1[lim], Xor(map2[lim], Filled(true))), LastWordMask(nbits));
      if NonZero(extra) {
        assert Test(map1, BITS_PER_LONG * lim + Ctz(extra)) && !Test(map2, BITS_PER_LONG * lim + Ctz(extra));
        return false;
      }
      forall b: nat | BITS_PER_LONG * lim <= b < nbits && Test(map1, b) ensures Test(map2, b) {
        assert !extra[b - BITS_PER_LONG * lim];
      }
    }
    return true;
  }
}
