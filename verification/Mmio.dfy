/** The lifetime of trapped I/O ranges (init/mmio.c) as a protocol.  Every function of the
    file holds mmio_lock from its first to its last access, so each is one step; handlers
    run between the get and the put of their thread, with the lock free.  The search trees
    are RbInterval's; here a tree is the set of mappings that are in it. */
module Mmio {
  import opened Wrappers

  const TWO_64 := 0x1_0000_0000_0000_0000

  datatype Bus = Memory | Port

  /** A mapping that was ever inserted.  `frees` counts how often it was freed. */
  datatype Mapping = Mapping(bus: Bus, low: nat, high: nat, refcount: int, remove: bool, inTree: bool, frees: nat)

  datatype Thread = Outside | Using(m: nat)

  datatype State = State(maps: seq<Mapping>, threads: seq<Thread>)

  datatype Step =
    | Register(bus: Bus, low: nat, len: nat)
    | Deregister(bus: Bus, addr: nat)
    | Get(t: nat, bus: Bus, addr: nat, len: nat)
    | Put(t: nat)

  predicate Overlap(m: Mapping, bus: Bus, low: nat, high: nat) {
    m.inTree && m.bus == bus && !(high <= m.low) && !(m.high <= low)
  }

  predicate Holds(m: Mapping, bus: Bus, addr: nat) {
    m.inTree && m.bus == bus && m.low <= addr < m.high
  }

  /** The mapping in the tree of `bus` that contains `addr`. */
  function Lookup(maps: seq<Mapping>, bus: Bus, addr: nat): (r: Option<nat>)
    ensures r.Some? ==> r.value < |maps| && Holds(maps[r.value], bus, addr)
    ensures r.None? ==> forall m :: 0 <= m < |maps| ==> !Holds(maps[m], bus, addr)
  {
    if maps == [] then None
    else if Holds(maps[|maps| - 1], bus, addr) then Some(|maps| - 1)
    else Lookup(maps[..|maps| - 1], bus, addr)
  }

  /** A search fails on an empty or wrapping range and on one that leaves the mapping. */
  function Search(maps: seq<Mapping>, bus: Bus, addr: nat, len: nat): (r: Option<nat>)
    ensures r.Some? ==> r.value < |maps| && Holds(maps[r.value], bus, addr)
  {
    if len == 0 || addr + len >= TWO_64 then None else
    var r := Lookup(maps, bus, addr);
    if r.Some? && maps[r.value].high < addr + len then None else r
  }

  function Freed(m: Mapping): Mapping {
    m.(inTree := false, frees := m.frees + 1)
  }

  ghost predicate Enabled(s: State, step: Step) {
    match step
    case Register(_, low, len) => low + len < TWO_64
    case Deregister(_, addr) => addr < TWO_64
    case Get(t, _, addr, len) => t < |s.threads| && s.threads[t].Outside? && addr < TWO_64 && len < 0x1_0000_0000
    case Put(t) => t < |s.threads| && s.threads[t].Using? && s.threads[t].m < |s.maps|
  }

  function Registered(s: State, bus: Bus, low: nat, len: nat): State {
    if exists m :: 0 <= m < |s.maps| && Overlap(s.maps[m], bus, low, low + len) then s
    else s.(maps := s.maps + [Mapping(bus, low, low + len, 0, false, true, 0)])
  }

  function Deregistered(s: State, bus: Bus, addr: nat): State {
    var r := Lookup(s.maps, bus, addr);
    if r.None? then s else
    var m := s.maps[r.value];
    s.(maps := s.maps[r.value := if m.refcount == 0 then Freed(m) else m.(remove := true)])
  }

  function Got(s: State, t: nat, bus: Bus, addr: nat, len: nat): State
    requires t < |s.threads|
  {
    var r := Search(s.maps, bus, addr, len);
    if r.None? then s else
    var m := s.maps[r.value];
    State(s.maps[r.value := m.(refcount := m.refcount + 1)], s.threads[t := Using(r.value)])
  }

  function PutBack(s: State, t: nat): State
    requires t < |s.threads| && s.threads[t].Using? && s.threads[t].m < |s.maps|
  {
    var m := s.maps[s.threads[t].m];
    var less := m.(refcount := m.refcount - 1);
    State(s.maps[s.threads[t].m := if less.remove && less.refcount == 0 then Freed(less) else less],
          s.threads[t := Outside])
  }

  function Next(s: State, step: Step): State
    requires Enabled(s, step)
  {
    match step
    case Register(bus, low, len) => Registered(s, bus, low, len)
    case Deregister(bus, addr) => Deregistered(s, bus, addr)
    case Get(t, bus, addr, len) => Got(s, t, bus, addr, len)
    case Put(t) => PutBack(s, t)
  }

  // --------------------------------------------------------------------- invariant

  /** How many threads are between get and put of mapping m. */
  function Users(threads: seq<Thread>, m: nat): (n: nat)
    ensures n == 0 <==> forall t :: 0 <= t < |threads| ==> threads[t] != Using(m)
  {
    if threads == [] then 0
    else Users(threads[..|threads| - 1], m) + if threads[|threads| - 1] == Using(m) then 1 else 0
  }

  /** In the tree until freed, freed at most once, never with a user, and marked for
      removal only while it has one. */
  ghost predicate MappingOk(s: State, m: nat)
    requires m < |s.maps|
  {
    var x := s.maps[m];
    && x.refcount == Users(s.threads, m)
    && (x.remove && x.inTree ==> x.refcount > 0)
    && x.frees == (if x.inTree then 0 else 1)
    && (x.refcount > 0 ==> x.inTree)
    && x.low <= x.high
  }

  /** Ranges in one tree do not overlap. */
  ghost predicate Disjoint(maps: seq<Mapping>) {
    forall m, n :: 0 <= m < n < |maps| && maps[n].inTree ==> !Overlap(maps[m], maps[n].bus, maps[n].low, maps[n].high)
  }

  ghost predicate Inv(s: State) {
    && (forall m :: 0 <= m < |s.maps| ==> MappingOk(s, m))
    && (forall t :: 0 <= t < |s.threads| && s.threads[t].Using? ==> s.threads[t].m < |s.maps|)
    && Disjoint(s.maps)
  }

  lemma InitInv(threads: nat)
    ensures Inv(State([], seq(threads, _ => Outside)))
  { }

  lemma {:induction false} UsersSet(threads: seq<Thread>, t: nat, th: Thread, m: nat)
    requires t < |threads|
    ensures Users(threads[t := th], m)
         == Users(threads, m) - (if threads[t] == Using(m) then 1 else 0) + (if th == Using(m) then 1 else 0)
  {
    var n := |threads| - 1;
    if t < n {
      assert threads[t := th][..n] == threads[..n][t := th];
      UsersSet(threads[..n], t, th, m);
    } else {
      assert threads[t := th][..n] == threads[..n];
    }
  }

  /** A mapping that is in the tree and holds an address is the one a search finds. */
  lemma LookupIs(s: State, bus: Bus, addr: nat, m: nat)
    requires Inv(s) && m < |s.maps| && Holds(s.maps[m], bus, addr)
    ensures Lookup(s.maps, bus, addr) == Some(m)
  {
    var r := Lookup(s.maps, bus, addr).value;
    assert r < m ==> !Overlap(s.maps[r], s.maps[m].bus, s.maps[m].low, s.maps[m].high);
    assert m < r ==> !Overlap(s.maps[m], s.maps[r].bus, s.maps[r].low, s.maps[r].high);
  }

  /** Changing one mapping, other than its range, keeps the ranges apart. */
  lemma DisjointSet(maps: seq<Mapping>, m: nat, x: Mapping)
    requires Disjoint(maps) && m < |maps|
    requires x.bus == maps[m].bus && x.low == maps[m].low && x.high == maps[m].high && (x.inTree ==> maps[m].inTree)
    ensures Disjoint(maps[m := x])
  {
    var now := maps[m := x];
    forall a, b | 0 <= a < b < |now| && now[b].inTree
      ensures !Overlap(now[a], now[b].bus, now[b].low, now[b].high)
    {
      assert !Overlap(maps[a], maps[b].bus, maps[b].low, maps[b].high);
    }
  }

  lemma StepKeeps(s: State, step: Step)
    requires Inv(s) && Enabled(s, step)
    ensures Inv(Next(s, step))
  {
    match step
    case Register(bus, low, len) => RegisterKeeps(s, bus, low, len);
    case Deregister(bus, addr) => DeregisterKeeps(s, bus, addr);
    case Get(t, bus, addr, len) => GetKeeps(s, t, bus, addr, len);
    case Put(t) => PutKeeps(s, t);
  }

  lemma RegisterKeeps(s: State, bus: Bus, low: nat, len: nat)
    requires Inv(s)
    ensures Inv(Registered(s, bus, low, len))
  {
    var q := Registered(s, bus, low, len);
    if q != s {
      forall m | 0 <= m < |q.maps| ensures MappingOk(q, m) {
        if m < |s.maps| { assert MappingOk(s, m); }
      }
    }
  }

  lemma DeregisterKeeps(s: State, bus: Bus, addr: nat)
    requires Inv(s)
    ensures Inv(Deregistered(s, bus, addr))
  {
    var r, q := Lookup(s.maps, bus, addr), Deregistered(s, bus, addr);
    if r.Some? {
      DisjointSet(s.maps, r.value, q.maps[r.value]);
      forall m | 0 <= m < |q.maps| ensures MappingOk(q, m) {
        assert MappingOk(s, m);
      }
    }
  }

  lemma GetKeeps(s: State, t: nat, bus: Bus, addr: nat, len: nat)
    requires Inv(s) && t < |s.threads| && s.threads[t].Outside?
    ensures Inv(Got(s, t, bus, addr, len))
  {
    var r, q := Search(s.maps, bus, addr, len), Got(s, t, bus, addr, len);
    if r.Some? {
      DisjointSet(s.maps, r.value, q.maps[r.value]);
      forall m | 0 <= m < |q.maps| ensures MappingOk(q, m) {
        assert MappingOk(s, m);
        UsersSet(s.threads, t, Using(r.value), m);
      }
    }
  }

  lemma PutKeeps(s: State, t: nat)
    requires Inv(s) && t < |s.threads| && s.threads[t].Using?
    ensures s.threads[t].m < |s.maps| && Inv(PutBack(s, t))
  {
    var q := PutBack(s, t);
    DisjointSet(s.maps, s.threads[t].m, q.maps[s.threads[t].m]);
    forall m | 0 <= m < |q.maps| ensures MappingOk(q, m) {
      assert MappingOk(s, m);
      UsersSet(s.threads, t, Outside, m);
    }
  }

  // ---------------------------------------------------------------------- all runs

  ghost predicate IsRun(states: seq<State>, steps: seq<Step>) {
    && |states| == |steps| + 1 && states[0].maps == []
    && (forall t :: 0 <= t < |states[0].threads| ==> states[0].threads[t].Outside?)
    && forall k :: 0 <= k < |steps| ==>
         Enabled(states[k], steps[k]) && states[k + 1] == Next(states[k], steps[k])
  }

  lemma {:induction false} RunKeeps(states: seq<State>, steps: seq<Step>, k: nat)
    requires IsRun(states, steps) && k <= |steps|
    ensures Inv(states[k])
  {
    if k > 0 {
      RunKeeps(states, steps, k - 1);
      StepKeeps(states[k - 1], steps[k - 1]);
    }
  }

  /** A handler never runs on a freed mapping, and nothing is ever freed twice. */
  lemma NoUseAfterFree(states: seq<State>, steps: seq<Step>, k: nat, t: nat, m: nat)
    requires IsRun(states, steps) && k <= |steps| && m < |states[k].maps|
    ensures states[k].maps[m].frees <= 1
    ensures t < |states[k].threads| && states[k].threads[t] == Using(m) ==>
              states[k].maps[m].frees == 0 && states[k].maps[m].inTree
  {
    RunKeeps(states, steps, k);
    assert MappingOk(states[k], m);
  }

  /** When no handler runs, every mapping whose removal was asked for has been freed. */
  lemma NothingLingers(states: seq<State>, steps: seq<Step>, k: nat, m: nat)
    requires IsRun(states, steps) && k <= |steps| && m < |states[k].maps|
    requires forall t :: 0 <= t < |states[k].threads| ==> states[k].threads[t].Outside?
    requires states[k].maps[m].remove
    ensures states[k].maps[m].frees == 1 && !states[k].maps[m].inTree
  {
    RunKeeps(states, steps, k);
    assert MappingOk(states[k], m);
  }

  /** Asking for the removal of an address takes effect at once if nobody uses the mapping
      there, and otherwise marks exactly that mapping. */
  lemma DeregisterActs(s: State, bus: Bus, addr: nat, m: nat)
    requires Inv(s) && m < |s.maps| && Holds(s.maps[m], bus, addr)
    ensures var x := Deregistered(s, bus, addr).maps[m];
            if Users(s.threads, m) == 0 then !x.inTree && x.frees == 1 else x.inTree && x.remove
    ensures forall n :: 0 <= n < |s.maps| && n != m ==> Deregistered(s, bus, addr).maps[n] == s.maps[n]
  {
    LookupIs(s, bus, addr, m);
    assert MappingOk(s, m);
  }

  /** An access reaches a handler exactly when one mapping holds all of it. */
  lemma GetFinds(s: State, t: nat, bus: Bus, addr: nat, len: nat)
    requires Inv(s) && t < |s.threads| && s.threads[t].Outside? && len > 0 && addr + len < TWO_64
    ensures Got(s, t, bus, addr, len).threads[t].Using? <==>
            exists m :: 0 <= m < |s.maps| && Holds(s.maps[m], bus, addr) && addr + len <= s.maps[m].high
  {
    if m :| 0 <= m < |s.maps| && Holds(s.maps[m], bus, addr) && addr + len <= s.maps[m].high {
      LookupIs(s, bus, addr, m);
    }
  }
}
