/** The cluster allocator of disk/qcow.c in place: searching for a run of free clusters,
    counting it, and growing the refcount table on the way, which itself allocates. */
module QcowAlloc {
  import opened QcowRefs
  import opened Wrappers

  class Allocator {
    const perBlock: nat
    var table: seq<nat>
    var blocks: map<nat, seq<U16>>
    var free: nat

    function View(): Refs
      reads this
    {
      Refs(perBlock, table, blocks, free)
    }

    /** The image as opened: the search starts at cluster 0, which holds the header. */
    constructor (entries: nat, rfTable: seq<nat>, rfBlocks: map<nat, seq<U16>>)
      requires Sound(Refs(entries, rfTable, rfBlocks, 0))
      ensures View() == Refs(entries, rfTable, rfBlocks, 0)
    {
      perBlock, table, blocks, free := entries, rfTable, rfBlocks, 0;
    }

    /** A missing block counts nothing; this never fails in the model, since reading does
        not. */
    method GetRefcount(clustIdx: nat) returns (refcount: U16)
      requires Valid(View())
      ensures refcount == Ref(View(), clustIdx)
    {
      var rftIdx := clustIdx / perBlock;
      if rftIdx >= |table| || table[rftIdx] == 0 { return 0; }
      assert BlockOk(View(), table[rftIdx]);
      return blocks[table[rftIdx]][clustIdx % perBlock];
    }

    /** Give the block of `clustIdx` a cluster of its own.  Fails, changing no count and no
        table entry, when the table is too short or a search gives up. */
    method GrowRefcountBlock(clustIdx: nat) returns (ok: bool)
      requires Valid(View()) && clustIdx < free
      requires clustIdx / perBlock < |table| ==> table[clustIdx / perBlock] == 0
      modifies this
      ensures if ok then
                && Change(old(View()), View(), {})
                && clustIdx / perBlock < |table| && table[clustIdx / perBlock] != 0
              else Searched(old(View()), View())
      decreases Zeros(table), 1
    {
      hide Valid, Ref, Change, Searched, FirstFit, Kept, Zeros, IsBlock;
      ghost var s := View();
      HasEntries(s);
      var rftIdx := clustIdx / perBlock;
      if rftIdx >= |table| {
        MoveOn(s, s.free);
        return false;
      }
      var k := AllocClusters(1, false);
      if k.None? { return false; }
      ghost var s1 := View();
      var at := k.value * (2 * perBlock);
      blocks := blocks[at := seq<U16>(perBlock, _ => 0)];
      table := table[rftIdx := at];
      ghost var u := View();
      PutBlock(s, s1, u, rftIdx, k.value);
      ok := UpdateClusterRefcount(k.value);
      if ok {
        GrowChange(s, u, View(), k.value);
        BlockStays(u, View(), k.value, rftIdx);
      } else {
        ghost var v := View();
        table := table[rftIdx := 0];
        TakeBlock(s, s1, u, v, View(), rftIdx);
      }
    }

    /** One more user of a cluster that has been searched. */
    method UpdateClusterRefcount(clustIdx: nat) returns (ok: bool)
      requires Valid(View()) && clustIdx < free && Ref(View(), clustIdx) < 0xffff
      modifies this
      ensures if ok then Change(old(View()), View(), {clustIdx}) else Searched(old(View()), View())
      decreases Zeros(table), 2
    {
      ghost var s := View();
      var rftIdx := clustIdx / perBlock;
      if rftIdx >= |table| || table[rftIdx] == 0 {
        var grown := GrowRefcountBlock(clustIdx);
        if !grown { return false; }
      } else {
        NoChange(s);
      }
      ghost var u := View();
      var at := table[rftIdx];
      assert BlockOk(u, at);
      var refcount := blocks[at][clustIdx % perBlock] + 1;
      blocks := blocks[at := Put(blocks[at], clustIdx % perBlock, refcount)];
      Bump(u, View(), clustIdx);
      ChangeTwice(s, u, View(), {}, {clustIdx});
      assert {} + {clustIdx} == {clustIdx};
      return true;
    }

    /** Look for `clustNum` adjacent unused clusters from `free` on; a cluster with the
        largest count ends the search.  With `updateRef` the run found is counted. */
    method AllocClusters(clustNum: nat, updateRef: bool) returns (start: Option<nat>)
      requires Valid(View()) && clustNum > 0
      modifies this
      ensures start.Some? && updateRef ==> Allocated(old(View()), View(), start.value, clustNum)
      ensures start.Some? && !updateRef ==>
                && FirstFit(old(View()), start.value, clustNum)
                && View() == old(View()).(free := start.value + clustNum)
                && Searched(old(View()), View())
      ensures start.None? ==> Failed(old(View()), View(), clustNum)
      ensures start.None? && !updateRef ==> Searched(old(View()), View())
      decreases Zeros(table), if updateRef then 4 else 0
    {
      ghost var s := View();
      start := FindRun(clustNum);
      if start.Some? && updateRef {
        hide Valid, Ref, Change, FirstFit, Searched, Kept;
        var ok := CountRun(start.value, clustNum, s);
        if !ok { return None; }
      }
    }

    /** The counting loop of the allocator; `s` is the state before the search. */
    method CountRun(first: nat, clustNum: nat, ghost s: Refs) returns (ok: bool)
      requires Valid(s) && FirstFit(s, first, clustNum)
      requires View() == s.(free := first + clustNum) && Searched(s, View())
      modifies this
      ensures if ok then Allocated(s, View(), first, clustNum) else Failed(s, View(), clustNum)
      decreases Zeros(table), 3
    {
      hide Counted, Allocated, Failed, Change, Valid, Ref, Searched, Zeros, FirstFit;
      NothingCounted(s, first, clustNum);
      for i := 0 to clustNum
        invariant Counted(s, View(), first, clustNum, i)
      {
        ghost var u := View();
        NextOfRun(s, u, first, clustNum, i);
        var updated := UpdateClusterRefcount(first + i);
        if !updated {
          RunStops(s, u, View(), first, clustNum, i);
          return false;
        }
        RunGrows(s, u, View(), first, clustNum, i);
      }
      RunCounted(s, View(), first, clustNum);
      return true;
    }

    /** The search loop of the allocator. */
    method FindRun(clustNum: nat) returns (start: Option<nat>)
      requires Valid(View()) && clustNum > 0
      modifies `free
      ensures Searched(old(View()), View()) && View() == old(View()).(free := free)
      ensures start.Some? ==>
                FirstFit(old(View()), start.value, clustNum) && free == start.value + clustNum
    {
      ghost var s, reach := View(), |table| * perBlock;
      var i := 0;
      MoveOn(s, free);
      hide Valid, Shape, Ref, Distinct;
      while i < clustNum
        invariant View() == s.(free := free) && Searched(s, View())
        invariant i <= clustNum && s.free <= free - i
        invariant forall j: nat :: free - i <= j < free ==> Ref(s, j) == 0
        invariant forall p: nat :: s.free <= p < free - i ==> Blocked(s, p, clustNum)
        decreases if free < reach then reach - free else 0, clustNum - i
      {
        var clustIdx := free;
        free := free + 1;
        MoveOn(s, free);
        var refcount := GetRefcount(clustIdx);
        if refcount == 0xffff { return None; }
        if clustIdx >= reach { BeyondTable(s, clustIdx); }
        if refcount > 0 {
          i := 0;
        } else {
          i := i + 1;
        }
      }
      return Some(free - clustNum);
    }
  }
}
