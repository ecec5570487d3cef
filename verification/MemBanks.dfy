/** Guest memory banks (init/kvm.c): a list kept sorted by slot, in which overlapping
    reserved regions are merged.  Ranges are non-empty and do not wrap. */
module MemBanks {
  import opened Wrappers

  const RESERVED := 4

  datatype Bank = Bank(low: nat, size: nat, host: nat, kind: nat, slot: nat)

  predicate Within(p: nat, low: nat, size: nat) {
    low <= p < low + size
  }

  predicate Meets(b: Bank, low: nat, size: nat) {
    low < b.low + b.size && b.low < low + size
  }

  ghost predicate Disjoint(banks: seq<Bank>) {
    forall i, j :: 0 <= i < j < |banks| ==> !Meets(banks[i], banks[j].low, banks[j].size)
  }

  ghost predicate Sorted(banks: seq<Bank>) {
    forall i, j :: 0 <= i < j < |banks| ==> banks[i].slot < banks[j].slot
  }

  ghost predicate NonEmpty(banks: seq<Bank>) {
    forall b <- banks :: b.size > 0
  }

  ghost predicate Inv(banks: seq<Bank>, memSlots: int) {
    NonEmpty(banks) && Disjoint(banks) && Sorted(banks) && |banks| <= memSlots
  }

  /** Some reserved bank covers p. */
  ghost predicate Reserves(banks: seq<Bank>, p: nat) {
    exists b <- banks :: b.kind == RESERVED && Within(p, b.low, b.size)
  }

  /** Two overlapping ranges that may not be merged. */
  predicate Clash(b: Bank, low: nat, size: nat, kind: nat) {
    Meets(b, low, size) && !(b.kind == RESERVED && kind == RESERVED)
  }

  /** A bank the new range merges with comes before every bank it clashes with. */
  ghost predicate MergesFirst(banks: seq<Bank>, low: nat, size: nat, kind: nat) {
    exists j :: 0 <= j < |banks| && Meets(banks[j], low, size)
             && forall c :: 0 <= c <= j ==> !Clash(banks[c], low, size, kind)
  }

  ghost predicate AnyMeets(banks: seq<Bank>, low: nat, size: nat) {
    exists b <- banks :: Meets(b, low, size)
  }

  ghost predicate NoClash(banks: seq<Bank>, low: nat, size: nat, kind: nat) {
    forall b <- banks :: !Clash(b, low, size, kind)
  }

  predicate SlotUsed(banks: seq<Bank>, slot: nat) {
    exists b <- banks :: b.slot == slot
  }

  // ------------------------------------------------------------------ the scan loop

  /** Where the scan stands: `banks` as changed so far, the next index, the bank that holds
      the merged range, and that range. */
  datatype Scan = Scan(banks: seq<Bank>, i: nat, merged: Option<nat>, low: nat, size: nat)

  /** All banks but the merged one are still apart. */
  ghost predicate ApartBut(banks: seq<Bank>, m: Option<nat>) {
    forall a, b :: 0 <= a < b < |banks| && m != Some(a) && m != Some(b) ==>
      !Meets(banks[a], banks[b].low, banks[b].size)
  }

  ghost predicate ScanOk(was: seq<Bank>, low: nat, size: nat, kind: nat, s: Scan) {
    && size > 0 && s.i <= |s.banks| <= |was| && NonEmpty(s.banks) && Sorted(s.banks)
    && s.banks[s.i..] == was[|was| - (|s.banks| - s.i)..]
    && (forall j :: 0 <= j < |was| - (|s.banks| - s.i) ==> !Clash(was[j], low, size, kind))
    && s.low <= low && low + size <= s.low + s.size
    && ApartBut(s.banks, s.merged)
    && (forall j :: 0 <= j < s.i && s.merged != Some(j) ==> !Meets(s.banks[j], s.low, s.size))
    && (forall p: nat :: Within(p, s.low, s.size) ==> Within(p, low, size) || Reserves(was, p))
    && (forall b: Bank :: b.kind != RESERVED ==> (b in s.banks <==> b in was))
    && (forall p: nat :: Reserves(s.banks, p) <==>
          Reserves(was, p) || (s.merged.Some? && Within(p, low, size)))
    && match s.merged
       case None => s.banks == was && s.low == low && s.size == size
       case Some(m) =>
         && m < s.i && kind == RESERVED && MergesFirst(was, low, size, kind)
         && s.banks[m].kind == RESERVED && s.banks[m].low == s.low && s.banks[m].size == s.size
  }

  lemma ScanStarts(was: seq<Bank>, low: nat, size: nat, kind: nat)
    requires NonEmpty(was) && Disjoint(was) && Sorted(was) && size > 0
    ensures ScanOk(was, low, size, kind, Scan(was, 0, None, low, size)) && SlotScan(was, 0, 0)
  { }

  lemma ScanHolds(was: seq<Bank>, low: nat, size: nat, kind: nat, s: Scan)
    requires ScanOk(was, low, size, kind, s)
    ensures s.merged.None? ==> s.banks == was && Sorted(was)
    ensures s.merged.Some? ==> s.merged.value < s.i
  { }

  lemma SkipKeeps(was: seq<Bank>, low: nat, size: nat, kind: nat, s: Scan)
    requires ScanOk(was, low, size, kind, s) && s.i < |s.banks|
    requires !Meets(s.banks[s.i], s.low, s.size)
    ensures ScanOk(was, low, size, kind, s.(i := s.i + 1))
  {
    hide Reserves, Sorted, ApartBut, NonEmpty, MergesFirst;
    assert s.banks[s.i..][0] == s.banks[s.i] && s.banks[s.i + 1..] == s.banks[s.i..][1..];
  }

  /** The bank grown over the range scanned for. */
  function Grown(b: Bank, low: nat, size: nat): Bank
    requires Meets(b, low, size)
  {
    var from := if b.low < low then b.low else low;
    var to := if b.low + b.size < low + size then low + size else b.low + b.size;
    b.(low := from, size := to - from)
  }

  function Remove(banks: seq<Bank>, m: nat): (r: seq<Bank>)
    requires m < |banks|
    ensures |r| == |banks| - 1
    ensures forall j :: 0 <= j < |r| ==> r[j] == banks[if j < m then j else j + 1]
    ensures forall b :: b in r ==> b in banks
    ensures forall b :: b in banks && b != banks[m] ==> b in r
  {
    assert banks == banks[..m] + [banks[m]] + banks[m + 1..];
    banks[..m] + banks[m + 1..]
  }

  function Merge(s: Scan): Scan
    requires s.i < |s.banks| && Meets(s.banks[s.i], s.low, s.size)
    requires s.merged.Some? ==> s.merged.value < s.i
  {
    var b := Grown(s.banks[s.i], s.low, s.size);
    var banks := s.banks[s.i := b];
    match s.merged
    case None => Scan(banks, s.i + 1, Some(s.i), b.low, b.size)
    case Some(m) => Scan(Remove(banks, m), s.i, Some(s.i - 1), b.low, b.size)
  }

  /** The index a bank of the merged list had before the merge. */
  function From(s: Scan, j: nat): nat {
    if s.merged.Some? && j >= s.merged.value then j + 1 else j
  }

  /** What a merge does, bank by bank. */
  ghost predicate MergeOf(s: Scan, t: Scan) {
    && s.i < |s.banks| && Meets(s.banks[s.i], s.low, s.size)
    && (s.merged.Some? ==> s.merged.value < s.i)
    && |t.banks| == |s.banks| - (if s.merged.Some? then 1 else 0)
    && t.merged.Some? && t.merged.value < |t.banks| && From(s, t.merged.value) == s.i
    && t.i == t.merged.value + 1
    && t.banks[t.merged.value] == Grown(s.banks[s.i], s.low, s.size)
    && t.low == t.banks[t.merged.value].low && t.size == t.banks[t.merged.value].size
    && forall j :: 0 <= j < |t.banks| && j != t.merged.value ==>
         s.merged != Some(From(s, j)) && From(s, j) != s.i && t.banks[j] == s.banks[From(s, j)]
  }

  lemma MergeBanks(s: Scan)
    requires s.i < |s.banks| && Meets(s.banks[s.i], s.low, s.size)
    requires s.merged.Some? ==> s.merged.value < s.i
    ensures MergeOf(s, Merge(s))
  { }

  lemma MergeSorted(s: Scan, t: Scan)
    requires MergeOf(s, t) && NonEmpty(s.banks) && Sorted(s.banks)
    ensures NonEmpty(t.banks) && Sorted(t.banks)
  {
    forall a, b | 0 <= a < b < |t.banks| ensures t.banks[a].slot < t.banks[b].slot {
      assert s.banks[From(s, a)].slot < s.banks[From(s, b)].slot;
    }
    forall j | 0 <= j < |t.banks| ensures t.banks[j].size > 0 {
      assert s.banks[From(s, j)] in s.banks && s.banks[s.i] in s.banks;
    }
  }

  lemma MergeApart(s: Scan, t: Scan)
    requires MergeOf(s, t) && ApartBut(s.banks, s.merged)
    ensures ApartBut(t.banks, t.merged)
  {
    forall a, b | 0 <= a < b < |t.banks| && t.merged != Some(a) && t.merged != Some(b)
      ensures !Meets(t.banks[a], t.banks[b].low, t.banks[b].size)
    {
      assert !Meets(s.banks[From(s, a)], s.banks[From(s, b)].low, s.banks[From(s, b)].size);
    }
  }

  lemma MergeClear(s: Scan, t: Scan)
    requires MergeOf(s, t) && ApartBut(s.banks, s.merged)
    requires forall j :: 0 <= j < s.i && s.merged != Some(j) ==> !Meets(s.banks[j], s.low, s.size)
    ensures forall j :: 0 <= j < t.i && t.merged != Some(j) ==> !Meets(t.banks[j], t.low, t.size)
  {
    forall j | 0 <= j < t.i && t.merged != Some(j) ensures !Meets(t.banks[j], t.low, t.size) {
      assert !Meets(s.banks[From(s, j)], s.low, s.size);
      assert !Meets(s.banks[From(s, j)], s.banks[s.i].low, s.banks[s.i].size);
    }
  }

  /** Where a bank other than the old merged one goes. */
  lemma MergeTo(s: Scan, t: Scan, j: nat) returns (k: nat)
    requires MergeOf(s, t) && j < |s.banks| && s.merged != Some(j)
    ensures k < |t.banks| && From(s, k) == j
    ensures t.banks[k] == if j == s.i then Grown(s.banks[j], s.low, s.size) else s.banks[j]
  {
    k := if s.merged.Some? && j > s.merged.value then j - 1 else j;
    assert From(s, k) == j;
  }

  lemma MergeRest(s: Scan, t: Scan)
    requires MergeOf(s, t)
    ensures t.banks[t.i..] == s.banks[s.i + 1..]
  {
    var l, r := t.banks[t.i..], s.banks[s.i + 1..];
    forall j | 0 <= j < |l| ensures l[j] == r[j] {
      assert t.banks[t.i + j] == s.banks[From(s, t.i + j)];
    }
  }

  lemma MergeOthers(s: Scan, t: Scan, b: Bank)
    requires MergeOf(s, t) && s.banks[s.i].kind == RESERVED && b.kind != RESERVED
    requires s.merged.Some? ==> s.banks[s.merged.value].kind == RESERVED
    ensures b in t.banks <==> b in s.banks
  {
    if b in s.banks {
      var j :| 0 <= j < |s.banks| && s.banks[j] == b;
      var k := MergeTo(s, t, j);
    }
    if b in t.banks {
      var j :| 0 <= j < |t.banks| && t.banks[j] == b;
      assert s.banks[From(s, j)] == b;
    }
  }

  lemma MergeReserves(s: Scan, t: Scan, p: nat)
    requires MergeOf(s, t) && s.banks[s.i].kind == RESERVED
    requires s.merged.Some? ==>
               s.banks[s.merged.value].low == s.low && s.banks[s.merged.value].size == s.size
    ensures Reserves(t.banks, p) <==> Reserves(s.banks, p) || Within(p, s.low, s.size)
    ensures Within(p, t.low, t.size) ==> Reserves(t.banks, p)
  {
    var grown := t.banks[t.merged.value];
    assert grown in t.banks && grown.kind == RESERVED;
    assert s.banks[s.i] in s.banks;
    if Reserves(s.banks, p) {
      var j :| 0 <= j < |s.banks| && s.banks[j].kind == RESERVED && Within(p, s.banks[j].low, s.banks[j].size);
      if s.merged != Some(j) {
        var k := MergeTo(s, t, j);
        assert t.banks[k] in t.banks;
      }
    }
    if Reserves(t.banks, p) {
      var j :| 0 <= j < |t.banks| && t.banks[j].kind == RESERVED && Within(p, t.banks[j].low, t.banks[j].size);
      assert s.banks[From(s, j)] in s.banks;
    }
  }

  lemma MergeKeeps(was: seq<Bank>, low: nat, size: nat, kind: nat, s: Scan)
    requires ScanOk(was, low, size, kind, s) && s.i < |s.banks|
    requires Meets(s.banks[s.i], s.low, s.size) && s.banks[s.i].kind == RESERVED && kind == RESERVED
    ensures ScanOk(was, low, size, kind, Merge(s))
  {
    hide Merge, Reserves, Sorted, ApartBut, NonEmpty, MergesFirst;
    var t := Merge(s);
    MergeBanks(s);
    MergeSorted(s, t);
    MergeApart(s, t);
    MergeClear(s, t);
    MergeMoves(was, low, size, kind, s, t);
    MergeCovers(was, low, size, kind, s, t);
  }

  lemma MergeMoves(was: seq<Bank>, low: nat, size: nat, kind: nat, s: Scan, t: Scan)
    requires ScanOk(was, low, size, kind, s) && MergeOf(s, t)
    requires s.banks[s.i].kind == RESERVED && kind == RESERVED
    ensures t.banks[t.i..] == was[|was| - (|t.banks| - t.i)..]
    ensures forall j :: 0 <= j < |was| - (|t.banks| - t.i) ==> !Clash(was[j], low, size, kind)
    ensures MergesFirst(was, low, size, kind)
  {
    hide Reserves, Sorted, ApartBut, NonEmpty;
    MergeRest(s, t);
    assert s.banks[s.i..][0] == s.banks[s.i] && s.banks[s.i + 1..] == s.banks[s.i..][1..];
    if s.merged.None? {
      assert Meets(was[s.i], low, size);
    }
  }

  lemma MergeCovers(was: seq<Bank>, low: nat, size: nat, kind: nat, s: Scan, t: Scan)
    requires ScanOk(was, low, size, kind, s) && MergeOf(s, t) && s.banks[s.i].kind == RESERVED
    ensures forall b: Bank :: b.kind != RESERVED ==> (b in t.banks <==> b in was)
    ensures forall p: nat :: Reserves(t.banks, p) <==> Reserves(was, p) || Within(p, low, size)
    ensures forall p: nat :: Within(p, t.low, t.size) ==> Within(p, low, size) || Reserves(was, p)
  {
    hide MergesFirst, Sorted, ApartBut, NonEmpty, Reserves;
    forall b: Bank | b.kind != RESERVED ensures b in t.banks <==> b in was {
      MergeOthers(s, t, b);
    }
    forall p: nat
      ensures Reserves(t.banks, p) <==> Reserves(was, p) || Within(p, low, size)
      ensures Within(p, t.low, t.size) ==> Within(p, low, size) || Reserves(was, p)
    {
      MergeReserves(s, t, p);
    }
  }

  /** At a bank that cannot be merged the new range clashes with a bank of the old list;
      what was merged so far then overlaps that bank. */
  lemma ScanFails(was: seq<Bank>, low: nat, size: nat, kind: nat, s: Scan)
    requires ScanOk(was, low, size, kind, s) && s.i < |s.banks| && Disjoint(was)
    requires Clash(s.banks[s.i], s.low, s.size, kind)
    ensures !NoClash(was, low, size, kind)
    ensures MergesFirst(was, low, size, kind) <==> s.banks != was
    ensures Disjoint(s.banks) <==> s.banks == was
  {
    var b, c := s.banks[s.i], |was| - (|s.banks| - s.i);
    assert s.banks[s.i..][0] == b && was[c..][0] == was[c];
    ClashReachesNew(was, low, size, kind, s, b, c);
    if s.merged.Some? {
      assert Meets(s.banks[s.merged.value], b.low, b.size);
    } else {
      assert forall j :: 0 <= j < |was| && Meets(was[j], low, size) ==> c <= j;
    }
  }

  lemma ClashReachesNew(was: seq<Bank>, low: nat, size: nat, kind: nat, s: Scan, b: Bank, c: nat)
    requires ScanOk(was, low, size, kind, s) && Disjoint(was)
    requires c < |was| && was[c] == b && Clash(b, s.low, s.size, kind)
    ensures Clash(b, low, size, kind)
  {
    if s.merged.Some? {
      var p: nat := if s.low < b.low then b.low else s.low;
      assert Within(p, s.low, s.size) && Within(p, b.low, b.size);
      NotReserved(was, c, p);
    }
  }

  lemma NotReserved(banks: seq<Bank>, c: nat, p: nat)
    requires Disjoint(banks) && c < |banks|
    requires banks[c].kind != RESERVED && Within(p, banks[c].low, banks[c].size)
    ensures !Reserves(banks, p)
  {
    forall b <- banks | b.kind == RESERVED ensures !Within(p, b.low, b.size) {
      var j :| 0 <= j < |banks| && banks[j] == b;
      assert j < c ==> !Meets(banks[j], banks[c].low, banks[c].size);
      assert c < j ==> !Meets(banks[c], banks[j].low, banks[j].size);
    }
  }

  lemma ScanEnds(was: seq<Bank>, low: nat, size: nat, kind: nat, s: Scan)
    requires ScanOk(was, low, size, kind, s) && s.i >= |s.banks|
    ensures |s.banks| <= |was| && s.i == |s.banks|
    ensures NonEmpty(s.banks) && Sorted(s.banks) && Disjoint(s.banks)
    ensures NoClash(was, low, size, kind)
    ensures s.merged.Some? <==> AnyMeets(was, low, size)
    ensures s.merged.Some? ==> Absorbed(was, s.banks, low, size)
    ensures s.merged.None? ==> s.banks == was && !MergesFirst(was, low, size, kind)
  {
    assert forall j :: 0 <= j < |was| ==> !Clash(was[j], low, size, kind);
  }

  /** The new range has become part of the reserved regions and nothing else changed. */
  ghost predicate Absorbed(was: seq<Bank>, now: seq<Bank>, low: nat, size: nat) {
    && (forall b: Bank :: b.kind != RESERVED ==> (b in now <==> b in was))
    && (forall p: nat :: Reserves(now, p) <==> Reserves(was, p) || Within(p, low, size))
  }

  // ------------------------------------------------------------------ the free slot

  /** After i banks in order, `slot` is the least number none of them uses. */
  ghost predicate SlotScan(banks: seq<Bank>, i: nat, slot: nat) {
    && slot <= i <= |banks|
    && (forall j :: 0 <= j < slot ==> banks[j].slot == j)
    && (slot < i ==> banks[slot].slot > slot)
  }

  lemma SlotAtLeast(banks: seq<Bank>, j: nat)
    requires Sorted(banks) && j < |banks|
    ensures banks[j].slot >= j
  {
    if j > 0 { SlotAtLeast(banks, j - 1); }
  }

  lemma SlotScanKeeps(banks: seq<Bank>, i: nat, slot: nat)
    requires Sorted(banks) && SlotScan(banks, i, slot) && i < |banks|
    ensures banks[i].slot == slot ==> i == slot
    ensures SlotScan(banks, i + 1, if banks[i].slot == slot then slot + 1 else slot)
  {
    SlotAtLeast(banks, i);
  }

  /** The list with a bank of its own for the new range, in the least free slot. */
  ghost predicate Inserted(was: seq<Bank>, now: seq<Bank>, b: Bank) {
    && b.slot <= |was| && now == was[..b.slot] + [b] + was[b.slot..]
    && !SlotUsed(was, b.slot)
    && (forall s: nat :: s < b.slot ==> SlotUsed(was, s))
  }

  lemma InsertKeeps(was: seq<Bank>, memSlots: int, b: Bank)
    requires Inv(was, memSlots) && SlotScan(was, |was|, b.slot) && b.size > 0
    requires !AnyMeets(was, b.low, b.size)
    ensures var now := was[..b.slot] + [b] + was[b.slot..];
            Inv(now, memSlots + 1) && Inserted(was, now, b)
  {
    var now := was[..b.slot] + [b] + was[b.slot..];
    InsertUnused(was, b.slot);
    forall x <- now ensures x.size > 0 { }
    forall i, j | 0 <= i < j < |now|
      ensures now[i].slot < now[j].slot && !Meets(now[i], now[j].low, now[j].size)
    {
      var k, l := if i <= b.slot then i else i - 1, if j < b.slot then j else j - 1;
      if i == b.slot {
        assert now[j] == was[l] && was[l] in was;
      } else if j == b.slot {
        assert now[i] == was[k] && was[k] in was;
      } else {
        assert now[i] == was[k] && now[j] == was[l] && k < l;
      }
    }
  }

  lemma InsertUnused(was: seq<Bank>, slot: nat)
    requires Sorted(was) && SlotScan(was, |was|, slot)
    ensures !SlotUsed(was, slot) && forall s: nat :: s < slot ==> SlotUsed(was, s)
    ensures forall j :: slot <= j < |was| ==> was[j].slot > slot
  {
    forall s: nat | s < slot ensures SlotUsed(was, s) {
      assert was[s] in was;
    }
  }

  // --------------------------------------------------------------------- the machine

  class Machine {
    var banks: seq<Bank>
    var memSlots: nat

    ghost predicate Valid()
      reads this
    {
      Inv(banks, memSlots)
    }

    constructor ()
      ensures Valid() && banks == []
    {
      banks, memSlots := [], 0;
    }

    /** `hostOk` is the host's answer to mapping the new bank.  On an error after a merge
        the list is left with overlapping banks, and only then. */
    method RegisterMem(guestPhys: nat, size: nat, host: nat, kind: nat, hostOk: bool) returns (ok: bool)
      requires Valid() && size > 0
      modifies this
      ensures ok <==>
              && NoClash(old(banks), guestPhys, size, kind)
              && (AnyMeets(old(banks), guestPhys, size) || kind == RESERVED || hostOk)
      ensures ok ==> Valid()
      ensures ok && AnyMeets(old(banks), guestPhys, size) ==>
                Absorbed(old(banks), banks, guestPhys, size) && memSlots == old(memSlots)
      ensures ok && !AnyMeets(old(banks), guestPhys, size) ==>
                && (exists slot :: Inserted(old(banks), banks, Bank(guestPhys, size, host, kind, slot)))
                && memSlots == old(memSlots) + 1
      ensures !ok ==>
                && (banks == old(banks) <==> !MergesFirst(old(banks), guestPhys, size, kind))
                && (Valid() <==> banks == old(banks))
    {
      hide ScanOk, MergesFirst, AnyMeets, NoClash, Disjoint, Sorted, NonEmpty, SlotScan, Absorbed, Inserted;
      ghost var was := banks;
      var i: nat, slot: nat, prev: nat := 0, 0, 0;
      var low: nat, len: nat, merged: Option<nat> := guestPhys, size, None;
      ScanStarts(was, guestPhys, size, kind);
      while i < |banks|
        invariant ScanOk(was, guestPhys, size, kind, Scan(banks, i, merged, low, len))
        invariant merged.None? ==> SlotScan(was, i, slot) && prev == slot
        invariant memSlots == old(memSlots)
        decreases |banks| - i
      {
        var bank := banks[i];
        ghost var s := Scan(banks, i, merged, low, len);
        ScanHolds(was, guestPhys, size, kind, s);
        if !Meets(bank, low, len) {
          SkipKeeps(was, guestPhys, size, kind, s);
          if merged.None? { SlotScanKeeps(was, i, slot); }
          if bank.slot == slot {
            slot := slot + 1;
            prev := i + 1;
          }
          i := i + 1;
        } else if bank.kind == RESERVED && kind == RESERVED {
          MergeKeeps(was, guestPhys, size, kind, s);
          bank := Grown(bank, low, len);
          banks := banks[i := bank];
          if merged.Some? {
            banks := Remove(banks, merged.value);
            i := i - 1;
          }
          low, len, merged := bank.low, bank.size, Some(i);
          i := i + 1;
        } else {
          ScanFails(was, guestPhys, size, kind, s);
          return false;
        }
      }
      ScanEnds(was, guestPhys, size, kind, Scan(banks, i, merged, low, len));
      if merged.Some? { return true; }
      var bank := Bank(guestPhys, size, host, kind, slot);
      if kind != RESERVED && !hostOk { return false; }
      InsertKeeps(was, memSlots, bank);
      banks := banks[..prev] + [bank] + banks[prev..];
      memSlots := memSlots + 1;
      return true;
    }

    /** Removes the one bank with exactly this range and host address, unless it is
        reserved or the host refuses. */
    method DestroyMem(guestPhys: nat, size: nat, host: nat, hostOk: bool) returns (ok: bool)
      requires Valid()
      modifies this
      ensures Valid()
      ensures ok <==> hostOk && exists b <- old(banks) :: Names(b, guestPhys, size, host) && b.kind != RESERVED
      ensures if ok then
                && memSlots == old(memSlots) - 1
                && exists m :: 0 <= m < |old(banks)| && Names(old(banks)[m], guestPhys, size, host)
                     && banks == Remove(old(banks), m)
              else banks == old(banks) && memSlots == old(memSlots)
    {
      var i := 0;
      while i < |banks| && !Names(banks[i], guestPhys, size, host)
        invariant 0 <= i <= |banks|
        invariant forall j :: 0 <= j < i ==> !Names(banks[j], guestPhys, size, host)
      {
        i := i + 1;
      }
      if i == |banks| { return false; }
      OnlyOneNamed(banks, i, guestPhys, size, host);
      if banks[i].kind == RESERVED || !hostOk { return false; }
      RemoveKeeps(banks, memSlots, i);
      banks := Remove(banks, i);
      memSlots := memSlots - 1;
      return true;
    }

    /** The bank an address falls in, by guest address. */
    method GuestFlatToHost(offset: nat) returns (r: Option<nat>)
      ensures r == ToHost(banks, offset)
    {
      for i := 0 to |banks|
        invariant ToHost(banks, offset) == ToHost(banks[i..], offset)
      {
        assert banks[i..][1..] == banks[i + 1..];
        if banks[i].low <= offset < banks[i].low + banks[i].size {
          return Some(banks[i].host + (offset - banks[i].low));
        }
      }
      return None;
    }

    /** The same by host address; the program returns 0 where this returns None. */
    method HostToGuestFlat(ptr: nat) returns (r: Option<nat>)
      ensures r == ToGuest(banks, ptr)
    {
      for i := 0 to |banks|
        invariant ToGuest(banks, ptr) == ToGuest(banks[i..], ptr)
      {
        assert banks[i..][1..] == banks[i + 1..];
        if banks[i].host <= ptr < banks[i].host + banks[i].size {
          return Some(banks[i].low + (ptr - banks[i].host));
        }
      }
      return None;
    }
  }

  predicate Names(b: Bank, low: nat, size: nat, host: nat) {
    b.low == low && b.size == size && b.host == host
  }

  lemma OnlyOneNamed(banks: seq<Bank>, i: nat, low: nat, size: nat, host: nat)
    requires NonEmpty(banks) && Disjoint(banks) && i < |banks| && Names(banks[i], low, size, host)
    ensures forall b <- banks :: Names(b, low, size, host) ==> b == banks[i]
  {
    assert banks[i] in banks;
    forall b <- banks | Names(b, low, size, host) ensures b == banks[i] {
      var j :| 0 <= j < |banks| && banks[j] == b;
      if j != i { PairApart(banks, j, i); }
    }
  }

  lemma PairApart(banks: seq<Bank>, i: nat, j: nat)
    requires Disjoint(banks) && i < |banks| && j < |banks| && i != j
    ensures !Meets(banks[i], banks[j].low, banks[j].size)
  { }

  lemma RemoveKeeps(banks: seq<Bank>, memSlots: int, m: nat)
    requires Inv(banks, memSlots) && m < |banks|
    ensures Inv(Remove(banks, m), memSlots - 1)
  { }

  function ToHost(banks: seq<Bank>, offset: nat): Option<nat> {
    if banks == [] then None
    else if Within(offset, banks[0].low, banks[0].size) then Some(banks[0].host + (offset - banks[0].low))
    else ToHost(banks[1..], offset)
  }

  function ToGuest(banks: seq<Bank>, ptr: nat): Option<nat> {
    if banks == [] then None
    else if Within(ptr, banks[0].host, banks[0].size) then Some(banks[0].low + (ptr - banks[0].host))
    else ToGuest(banks[1..], ptr)
  }

  /** Host mappings of different banks do not overlap. */
  ghost predicate HostDisjoint(banks: seq<Bank>) {
    forall i, j :: 0 <= i < j < |banks| ==>
      banks[i].host + banks[i].size <= banks[j].host || banks[j].host + banks[j].size <= banks[i].host
  }

  lemma {:induction false} ToHostFinds(banks: seq<Bank>, offset: nat)
    ensures ToHost(banks, offset).Some? <==> exists b <- banks :: Within(offset, b.low, b.size)
    ensures ToHost(banks, offset).Some? ==>
              exists i :: 0 <= i < |banks| && Within(offset, banks[i].low, banks[i].size)
                       && ToHost(banks, offset) == Some(banks[i].host + (offset - banks[i].low))
  {
    if banks != [] {
      ToHostFinds(banks[1..], offset);
      assert forall b :: b in banks <==> b == banks[0] || b in banks[1..];
      if ToHost(banks, offset).Some? && !Within(offset, banks[0].low, banks[0].size) {
        var i :| 0 <= i < |banks[1..]| && Within(offset, banks[1..][i].low, banks[1..][i].size)
              && ToHost(banks[1..], offset) == Some(banks[1..][i].host + (offset - banks[1..][i].low));
        assert banks[i + 1] == banks[1..][i];
      }
    }
  }

  lemma {:induction false} ToGuestIs(banks: seq<Bank>, ptr: nat, i: nat)
    requires HostDisjoint(banks) && i < |banks| && Within(ptr, banks[i].host, banks[i].size)
    ensures ToGuest(banks, ptr) == Some(banks[i].low + (ptr - banks[i].host))
  {
    if i > 0 {
      ToGuestIs(banks[1..], ptr, i - 1);
    }
  }

  /** A guest address that can be translated comes back from its host address. */
  lemma RoundTrip(banks: seq<Bank>, offset: nat)
    requires HostDisjoint(banks) && ToHost(banks, offset).Some?
    ensures ToGuest(banks, ToHost(banks, offset).value) == Some(offset)
  {
    ToHostFinds(banks, offset);
    var i :| 0 <= i < |banks| && Within(offset, banks[i].low, banks[i].size)
          && ToHost(banks, offset) == Some(banks[i].host + (offset - banks[i].low));
    ToGuestIs(banks, ToHost(banks, offset).value, i);
  }

  /** The merge that goes wrong: reserving [0, 12) over reserved [0, 4) and RAM [8, 16)
      fails, having grown the reserved bank over the RAM. */
  lemma FailedReserveOverlaps()
    ensures var banks := [Bank(0, 4, 0, RESERVED, 0), Bank(8, 8, 0, 1, 1)];
            Inv(banks, 2) && MergesFirst(banks, 0, 12, RESERVED) && Clash(banks[1], 0, 12, RESERVED)
  {
    var banks := [Bank(0, 4, 0, RESERVED, 0), Bank(8, 8, 0, 1, 1)];
    assert Meets(banks[0], 0, 12) && !Clash(banks[0], 0, 12, RESERVED);
  }

  /** Ranges meet exactly when they share an address. */
  lemma MeetsIs(b: Bank, low: nat, size: nat)
    requires b.size > 0 && size > 0
    ensures Meets(b, low, size) <==> exists p: nat :: Within(p, b.low, b.size) && Within(p, low, size)
  {
    if Meets(b, low, size) {
      var p := if b.low < low then low else b.low;
      assert Within(p, b.low, b.size) && Within(p, low, size);
    }
  }
}
