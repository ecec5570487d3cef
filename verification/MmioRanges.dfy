/** Which accesses reach which handler (init/mmio.c): what each operation does to the set of
    trapped addresses, and what holds between a registration and its removal. */
module MmioRanges {
  import opened Mmio
  import opened Wrappers

  /** An access to this address is trapped. */
  ghost predicate Trapped(s: State, bus: Bus, addr: nat) {
    exists m :: 0 <= m < |s.maps| && s.maps[m].inTree && s.maps[m].bus == bus && s.maps[m].low <= addr < s.maps[m].high
  }

  /** The mapping in the tree shares an address with [low, high), or encloses its place. */
  predicate Meets(m: Mapping, bus: Bus, low: nat, high: nat) {
    m.inTree && m.bus == bus && m.low < high && low < m.high
  }

  ghost predicate Clear(s: State, bus: Bus, low: nat, high: nat) {
    forall m :: 0 <= m < |s.maps| ==> !Meets(s.maps[m], bus, low, high)
  }

  /** A new mapping for exactly this range, in the tree, with no users and not marked. */
  predicate IsNew(x: Mapping, bus: Bus, low: nat, len: nat) {
    && x.bus == bus && x.low == low && x.high == low + len && x.inTree
    && x.refcount == 0 && !x.remove && x.frees == 0
  }

  /** Registering a free range adds one mapping and changes no other; a range that meets
      another is refused and changes nothing. */
  lemma RegisterAdds(s: State, bus: Bus, low: nat, len: nat)
    requires Enabled(s, Register(bus, low, len))
    ensures var t := Next(s, Register(bus, low, len));
            && t.threads == s.threads
            && (Clear(s, bus, low, low + len) ==>
                  |t.maps| == |s.maps| + 1 && t.maps[..|s.maps|] == s.maps && IsNew(t.maps[|s.maps|], bus, low, len))
            && (!Clear(s, bus, low, low + len) ==> t == s)
  {
    forall m | 0 <= m < |s.maps|
      ensures Overlap(s.maps[m], bus, low, low + len) <==> Meets(s.maps[m], bus, low, low + len)
    { }
  }

  /** In terms of addresses: exactly those of the range are trapped in addition. */
  lemma RegisterTraps(s: State, bus: Bus, low: nat, len: nat, b: Bus, addr: nat)
    requires Enabled(s, Register(bus, low, len)) && Clear(s, bus, low, low + len)
    ensures Trapped(Next(s, Register(bus, low, len)), b, addr) <==>
            Trapped(s, b, addr) || (b == bus && low <= addr < low + len)
  {
    RegisterAdds(s, bus, low, len);
    var t := Next(s, Register(bus, low, len));
    assert forall m :: 0 <= m < |s.maps| ==> t.maps[m] == t.maps[..|s.maps|][m] == s.maps[m];
    if Trapped(s, b, addr) {
      var m :| 0 <= m < |s.maps| && s.maps[m].inTree && s.maps[m].bus == b && s.maps[m].low <= addr < s.maps[m].high;
      assert t.maps[m].inTree;
    }
    if b == bus && low <= addr < low + len { assert t.maps[|s.maps|].inTree; }
  }

  // ------------------------------------------------------------------ the other steps

  /** Everything about a mapping but its users and its mark is the same. */
  predicate SameRange(x: Mapping, y: Mapping) {
    x.bus == y.bus && x.low == y.low && x.high == y.high && x.inTree == y.inTree && x.frees == y.frees
  }

  /** A get that finds a mapping adds one user to it and puts the thread into it; one that
      finds none changes nothing. */
  lemma GetActs(s: State, t: nat, bus: Bus, addr: nat, len: nat)
    requires Enabled(s, Get(t, bus, addr, len))
    ensures var u := Next(s, Get(t, bus, addr, len));
            if u.threads[t].Outside? then u == s
            else
              var m := u.threads[t].m;
              && u.threads == s.threads[t := Using(m)] && m < |s.maps| && |u.maps| == |s.maps|
              && s.maps[m].inTree && s.maps[m].bus == bus && s.maps[m].low <= addr && addr + len <= s.maps[m].high
              && SameRange(u.maps[m], s.maps[m]) && u.maps[m].remove == s.maps[m].remove
              && u.maps[m].refcount == s.maps[m].refcount + 1
              && forall n :: 0 <= n < |s.maps| && n != m ==> u.maps[n] == s.maps[n]
  { }

  /** A put takes one user off, and the last one off a marked mapping frees it. */
  lemma PutActs(s: State, t: nat)
    requires Enabled(s, Put(t))
    ensures var u, m := Next(s, Put(t)), s.threads[t].m;
            && u.threads == s.threads[t := Outside] && |u.maps| == |s.maps|
            && u.maps[m].refcount == s.maps[m].refcount - 1 && u.maps[m].remove == s.maps[m].remove
            && u.maps[m].bus == s.maps[m].bus && u.maps[m].low == s.maps[m].low && u.maps[m].high == s.maps[m].high
            && (s.maps[m].remove && s.maps[m].refcount == 1 ==>
                  !u.maps[m].inTree && u.maps[m].frees == s.maps[m].frees + 1)
            && (!s.maps[m].remove || s.maps[m].refcount != 1 ==> SameRange(u.maps[m], s.maps[m]))
            && forall n :: 0 <= n < |s.maps| && n != m ==> u.maps[n] == s.maps[n]
  { }

  /** Asking for the removal of an address that no mapping holds changes nothing. */
  lemma DeregisterMisses(s: State, bus: Bus, addr: nat)
    requires Enabled(s, Deregister(bus, addr)) && !Trapped(s, bus, addr)
    ensures Next(s, Deregister(bus, addr)) == s
  { }

  // ------------------------------------------------------------------------ over runs

  /** The mapping is there for this range and nobody has asked for its removal. */
  predicate Stands(s: State, m: nat, bus: Bus, low: nat, high: nat) {
    m < |s.maps| && s.maps[m].inTree && !s.maps[m].remove && s.maps[m].bus == bus &&
    s.maps[m].low == low && s.maps[m].high == high
  }

  /** The step asks for the removal of an address in the range. */
  predicate Removes(step: Step, bus: Bus, low: nat, high: nat) {
    step.Deregister? && step.bus == bus && low <= step.addr < high
  }

  lemma StandsOn(s: State, step: Step, m: nat, bus: Bus, low: nat, high: nat)
    requires Inv(s) && Enabled(s, step) && Stands(s, m, bus, low, high) && !Removes(step, bus, low, high)
    ensures Stands(Next(s, step), m, bus, low, high)
  {
    assert MappingOk(s, m);
  }

  lemma {:induction false} StandsUntil(states: seq<State>, steps: seq<Step>, k: nat, n: nat, bus: Bus, low: nat, len: nat)
    requires IsRun(states, steps) && k < n <= |steps| && steps[k] == Register(bus, low, len)
    requires Clear(states[k], bus, low, low + len)
    requires forall j :: k < j < n ==> !Removes(steps[j], bus, low, low + len)
    ensures Stands(states[n], |states[k].maps|, bus, low, low + len)
    decreases n
  {
    hide Next, Clear, Stands;
    RunKeeps(states, steps, n - 1);
    if k == n - 1 {
      RegisterAdds(states[k], bus, low, len);
      NewStands(states[n], |states[k].maps|, bus, low, len);
    } else {
      StandsUntil(states, steps, k, n - 1, bus, low, len);
      StandsOn(states[n - 1], steps[n - 1], |states[k].maps|, bus, low, low + len);
    }
  }

  lemma NewStands(s: State, m: nat, bus: Bus, low: nat, len: nat)
    requires m < |s.maps| && IsNew(s.maps[m], bus, low, len)
    ensures Stands(s, m, bus, low, low + len)
  { }

  /** An access inside a range that was registered, and whose removal was not asked for
      since, reaches the handler of that very registration. */
  lemma AccessReaches(states: seq<State>, steps: seq<Step>, k: nat, n: nat, bus: Bus, low: nat, len: nat,
                      t: nat, addr: nat, size: nat)
    requires IsRun(states, steps) && k < n < |steps| && steps[k] == Register(bus, low, len)
    requires Clear(states[k], bus, low, low + len)
    requires forall j :: k < j < n ==> !Removes(steps[j], bus, low, low + len)
    requires steps[n] == Get(t, bus, addr, size) && 0 < size && low <= addr && addr + size <= low + len
    ensures t < |states[n + 1].threads| && states[n + 1].threads[t] == Using(|states[k].maps|)
  {
    StandsUntil(states, steps, k, n, bus, low, len);
    RunKeeps(states, steps, n);
    var m := |states[k].maps|;
    assert Holds(states[n].maps[m], bus, addr);
    LookupIs(states[n], bus, addr, m);
  }

  /** An access that no single mapping holds whole, or an empty one, reaches nobody. */
  lemma AccessMisses(s: State, t: nat, bus: Bus, addr: nat, len: nat)
    requires Inv(s) && Enabled(s, Get(t, bus, addr, len))
    requires len == 0 || forall m :: 0 <= m < |s.maps| && s.maps[m].inTree && s.maps[m].bus == bus ==>
                                !(s.maps[m].low <= addr && addr + len <= s.maps[m].high)
    ensures Next(s, Get(t, bus, addr, len)) == s
  { }

  /** Threads are free to call: any that is outside may access any address, and any that is
      in a handler may leave it. */
  lemma ThreadsMayCall(s: State, t: nat, bus: Bus, addr: nat, len: nat)
    requires Inv(s) && t < |s.threads| && addr < TWO_64 && len < 0x1_0000_0000
    ensures if s.threads[t].Outside? then Enabled(s, Get(t, bus, addr, len)) else Enabled(s, Put(t))
  { }
}
