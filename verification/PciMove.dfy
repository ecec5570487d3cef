/** Moving a base address register while its space is on (init/pci.c): exactly when the
    device answers at the new address, and exactly when switched-off spaces stay silent. */
module PciMove {
  import opened Arith
  import opened PciSpec
  import opened PciSafety

  // ------------------------------------------------ what the 32-bit comparison finds

  predicate Meet(a: nat, m: nat, b: nat, n: nat) {
    a < b + n && b < a + m
  }

  /** For ranges within 32 bits, a BAR is found over a range exactly when the two meet and
      neither ends at 4 GB, where the sum wraps to zero. */
  lemma TouchesExactly(b: Bar, start: nat, size: nat)
    requires b.size > 0 && Address(b) + b.size <= TWO_32 && start + size <= TWO_32
    ensures Touches(b, start, size) <==>
            Meet(Address(b), b.size, start, size) && Address(b) + b.size != TWO_32 && start + size != TWO_32
  {
    hide Address;
    if Address(b) + b.size < TWO_32 { SmallMod(Address(b) + b.size); }
    if start + size < TWO_32 { SmallMod(start + size); }
  }

  lemma SmallMod(n: nat)
    requires n < TWO_32
    ensures n % TWO_32 == n
  { }

  // ------------------------------------------------------------- where a BAR lands

  /** The range the BAR is to stand for after the write. */
  function Target(s: State, d: nat, i: nat, value: nat): Region
    requires WellFormed(s) && IsBar(s, d, i)
  {
    var b := Get(s, d, i);
    Range(b.(value := Merged(b, value)), d, i)
  }

  /** The write finds this BAR over the new range, and so switches it off first. */
  predicate MadeWay(s: State, d: nat, i: nat, value: nat, e: nat, j: nat)
    requires WellFormed(s) && IsBar(s, d, i) && IsBar(s, e, j)
  {
    Touches(Get(s, e, j), NewAddress(Get(s, d, i), value), Get(s, d, i).size)
  }

  /** The region is still there when the BAR is to be registered again. */
  predicate Stays(s: State, d: nat, i: nat, value: nat, r: Region)
    requires WellFormed(s) && IsBar(s, d, i)
  {
    match r.owner
    case Other => true
    case OfBar(e, j) => (e != d || j != i) && (IsBar(s, e, j) ==> !MadeWay(s, d, i, value, e, j))
  }

  predicate NoneInWayRefuse(s: State, d: nat, i: nat, value: nat)
    requires WellFormed(s) && IsBar(s, d, i)
  {
    forall e, j :: 0 <= e < |s.devs| && 0 <= j < 6 && (e != d || j != i) && MadeWay(s, d, i, value, e, j) ==>
      !Refuses(Get(s, e, j))
  }

  /** Nobody refuses to be switched off, and whatever is registered over the target is the
      BAR itself or is found and switched off. */
  ghost predicate CanLand(s: State, d: nat, i: nat, value: nat)
    requires WellFormed(s) && IsBar(s, d, i)
  {
    && !Refuses(Get(s, d, i))
    && NoneInWayRefuse(s, d, i, value)
    && (forall r <- Tree(s, Get(s, d, i)) :: Stays(s, d, i, value, r) ==> !Overlap(r, Target(s, d, i, value)))
  }

  /** Regions that belong to no BAR are the same. */
  ghost predicate OthersSame(s: State, t: State) {
    forall r: Region :: r.owner.Other? ==> (r in s.mem <==> r in t.mem) && (r in s.io <==> r in t.io)
  }

  lemma DeactivateOthers(s: State, d: nat, i: nat)
    requires Inv(s) && WellFormed(s) && IsBar(s, d, i)
    ensures OthersSame(s, Deactivate(s, d, i).state)
  {
    var b := Get(s, d, i);
    if b.active { DeactivateTakesOwn(s, d, i); }
  }

  /** From BAR k on, exactly the BARs over the range are off, all else is as before. */
  ghost predicate Hushed(s: State, t: State, start: nat, size: nat, k: nat) {
    && Same(s, t) && OthersSame(s, t)
    && forall d, i :: 0 <= d < |s.devs| && 0 <= i < 6 ==>
         (Get(t, d, i).active <==>
            Get(s, d, i).active && !(k <= 6 * d + i && Touches(Get(s, d, i), start, size)))
  }

  ghost predicate NoneRefuse(s: State, start: nat, size: nat, k: nat)
    requires WellFormed(s)
  {
    forall d, i :: 0 <= d < |s.devs| && 0 <= i < 6 && k <= 6 * d + i && Touches(Get(s, d, i), start, size) ==>
      !Refuses(Get(s, d, i))
  }

  /** Switching off a range succeeds exactly when no BAR over it refuses. */
  lemma {:induction false} ToggleHushes(s: State, start: nat, size: nat, k: nat)
    requires Inv(s) && WellFormed(s)
    ensures var r := Toggle(s, false, start, size, k);
            (r.ok <==> NoneRefuse(s, start, size, k)) && (r.ok ==> Hushed(s, r.state, start, size, k))
    decreases 6 * |s.devs| - k
  {
    hide Inv, Deactivate, Touches, Hushed, NoneRefuse;
    if k >= 6 * |s.devs| {
      HushedNone(s, s, start, size, k);
    } else {
      var d, i := k / 6, k % 6;
      assert IsBar(s, d, i) && 6 * d + i == k;
      if Touches(Get(s, d, i), start, size) {
        DeactivateKeeps(s, d, i);
        DeactivateOthers(s, d, i);
        var r := Deactivate(s, d, i);
        RefuseFirst(s, r.state, start, size, d, i);
        if r.ok {
          ToggleHushes(r.state, start, size, k + 1);
          var t := Toggle(s, false, start, size, k);
          if t.ok { HushedOne(s, r.state, t.state, start, size, d, i); }
        }
      } else {
        ToggleHushes(s, start, size, k + 1);
        HushedNone(s, Toggle(s, false, start, size, k).state, start, size, k);
      }
    }
  }

  lemma RefuseFirst(s: State, u: State, start: nat, size: nat, d: nat, i: nat)
    requires Same(s, u) && IsBar(s, d, i) && Touches(Get(s, d, i), start, size)
    requires forall e, j :: 0 <= e < |s.devs| && 0 <= j < 6 && (e != d || j != i) ==> Get(u, e, j) == Get(s, e, j)
    ensures NoneRefuse(s, start, size, 6 * d + i) <==>
            !Refuses(Get(s, d, i)) && NoneRefuse(u, start, size, 6 * d + i + 1)
  {
    hide Touches, Refuses;
    forall e, j | 0 <= e < |s.devs| && 0 <= j < 6 && 6 * d + i + 1 <= 6 * e + j
      ensures Get(u, e, j) == Get(s, e, j)
    { }
    if !Refuses(Get(s, d, i)) && NoneRefuse(u, start, size, 6 * d + i + 1) {
      forall e, j | 0 <= e < |s.devs| && 0 <= j < 6 && 6 * d + i <= 6 * e + j && Touches(Get(s, e, j), start, size)
        ensures !Refuses(Get(s, e, j))
      {
        if 6 * d + i == 6 * e + j { assert e == d && j == i; } else { assert Get(u, e, j) == Get(s, e, j); }
      }
    }
    if NoneRefuse(s, start, size, 6 * d + i) {
      assert !Refuses(Get(s, d, i));
      forall e, j | 0 <= e < |u.devs| && 0 <= j < 6 && 6 * d + i + 1 <= 6 * e + j && Touches(Get(u, e, j), start, size)
        ensures !Refuses(Get(u, e, j))
      {
        assert Get(u, e, j) == Get(s, e, j);
      }
    }
  }

  lemma HushedNone(s: State, t: State, start: nat, size: nat, k: nat)
    requires WellFormed(s)
    requires k < 6 * |s.devs| ==> !Touches(Get(s, k / 6, k % 6), start, size)
    ensures k >= 6 * |s.devs| ==> NoneRefuse(s, start, size, k) && (t == s ==> Hushed(s, t, start, size, k))
    ensures k < 6 * |s.devs| ==> (NoneRefuse(s, start, size, k) <==> NoneRefuse(s, start, size, k + 1))
    ensures k < 6 * |s.devs| && Hushed(s, t, start, size, k + 1) ==> Hushed(s, t, start, size, k)
  {
    forall d, i | 0 <= d < |s.devs| && 0 <= i < 6
      ensures 6 * d + i == k ==> Get(s, d, i) == Get(s, k / 6, k % 6)
    { }
  }

  lemma HushedOne(s: State, u: State, t: State, start: nat, size: nat, d: nat, i: nat)
    requires Same(s, u) && OthersSame(s, u) && IsBar(s, d, i)
    requires Touches(Get(s, d, i), start, size) && !Get(u, d, i).active
    requires forall e, j :: 0 <= e < |s.devs| && 0 <= j < 6 && (e != d || j != i) ==> Get(u, e, j) == Get(s, e, j)
    requires Hushed(u, t, start, size, 6 * d + i + 1)
    ensures Hushed(s, t, start, size, 6 * d + i)
  {
    forall e, j | 0 <= e < |s.devs| && 0 <= j < 6
      ensures Get(t, e, j).active <==>
                Get(s, e, j).active && !(6 * d + i <= 6 * e + j && Touches(Get(s, e, j), start, size))
    {
      assert 6 * d + i == 6 * e + j ==> e == d && j == i;
    }
  }

  /** Which regions of BARs a tree holds. */
  lemma TreeHolds(s: State, b: Bar, r: Region)
    requires Inv(s) && WellFormed(s) && r.owner.OfBar?
    ensures r in Tree(s, b) <==>
            var e, j := r.owner.d, r.owner.i;
            IsBar(s, e, j) && Get(s, e, j).active && IsIo(Get(s, e, j)) == IsIo(b) && r == Range(Get(s, e, j), e, j)
  {
    hide Range;
    var e, j := r.owner.d, r.owner.i;
    if r in Tree(s, b) { assert RegionOk(s, r, IsIo(b)); }
    if IsBar(s, e, j) { assert BarOk(s, e, j); }
  }

  /** Making room fails exactly when a BAR refuses, and takes away exactly what does not
      stay. */
  lemma RoomMade(s: State, d: nat, i: nat, value: nat)
    requires Inv(s) && WellFormed(s) && IsBar(s, d, i) && !Refuses(Get(s, d, i))
    ensures var r := MadeRoom(s, d, i, value);
            r.ok <==> NoneInWayRefuse(s, d, i, value)
    ensures var r, b := MadeRoom(s, d, i, value), Get(s, d, i);
            r.ok ==> forall q :: q in Tree(r.state, b) <==> q in Tree(s, b) && Stays(s, d, i, value, q)
  {
    hide Inv, Deactivate, Toggle, Touches, NewAddress, Range, NoneRefuse;
    var b, start := Get(s, d, i), NewAddress(Get(s, d, i), value);
    DeactivateKeeps(s, d, i);
    DeactivateOthers(s, d, i);
    var s1 := Deactivate(s, d, i).state;
    ToggleHushes(s1, start, b.size, 0);
    ToggleKeeps(s1, false, start, b.size, 0);
    RefuseOthers(s, s1, d, i, value);
    var r := MadeRoom(s, d, i, value);
    if r.ok {
      forall q ensures q in Tree(r.state, b) <==> q in Tree(s, b) && Stays(s, d, i, value, q) {
        if q.owner.OfBar? {
          TreeHolds(s, b, q);
          TreeHolds(r.state, b, q);
          var e, j := q.owner.d, q.owner.i;
          if IsBar(s, e, j) { SameKind(s, s1, r.state, e, j, start, b.size); }
        }
      }
    }
  }

  lemma SameKind(s: State, u: State, t: State, e: nat, j: nat, start: nat, size: nat)
    requires Same(s, u) && Same(u, t) && IsBar(s, e, j)
    ensures var b, m, c := Get(s, e, j), Get(u, e, j), Get(t, e, j);
            && IsIo(c) == IsIo(b) && Range(c, e, j) == Range(b, e, j)
            && (Touches(m, start, size) <==> Touches(b, start, size))
  { }

  lemma RefuseOthers(s: State, u: State, d: nat, i: nat, value: nat)
    requires Same(s, u) && IsBar(s, d, i) && !Get(u, d, i).active
    requires forall e, j :: 0 <= e < |s.devs| && 0 <= j < 6 && (e != d || j != i) ==> Get(u, e, j) == Get(s, e, j)
    ensures NoneRefuse(u, NewAddress(Get(s, d, i), value), Get(s, d, i).size, 0) <==>
            NoneInWayRefuse(s, d, i, value)
  {
    hide Touches, NewAddress;
    if NoneRefuse(u, NewAddress(Get(s, d, i), value), Get(s, d, i).size, 0) {
      forall e, j | 0 <= e < |s.devs| && 0 <= j < 6 && (e != d || j != i) && MadeWay(s, d, i, value, e, j)
        ensures !Refuses(Get(s, e, j))
      {
        assert Get(u, e, j) == Get(s, e, j);
      }
    }
  }

  /** A move gets through if and only if it can land, for every BAR of either space. */
  lemma LandsExactly(s: State, d: nat, i: nat, value: nat)
    requires Inv(s) && WellFormed(s) && IsBar(s, d, i) && 0 < Get(s, d, i).size && !Direct(s, d, i, value)
    ensures Moves(s, d, i, value) && Landed(s, d, i, value).ok <==> CanLand(s, d, i, value)
  {
    hide Inv, Activate, Deactivate, Toggle, MadeRoom, Touches, NewAddress, Range, Overlap, Stays, MadeWay;
    DeactivateKeeps(s, d, i);
    if !Refuses(Get(s, d, i)) {
      RoomMade(s, d, i, value);
      MadeRoomKeeps(s, d, i, value);
      var b, s2 := Get(s, d, i), MadeRoom(s, d, i, value).state;
      StoredRange(s, s2, d, i, value);
      var u := Stores(s2, d, i, Merged(b, value));
      ActivateExactly(u, d, i);
    }
  }

  lemma StoredRange(s: State, s2: State, d: nat, i: nat, value: nat)
    requires Same(s, s2) && IsBar(s, d, i) && !Get(s2, d, i).active
    ensures var b := Get(s, d, i);
            var u := Stores(s2, d, i, Merged(b, value));
            && Range(Get(u, d, i), d, i) == Target(s, d, i, value) && !Get(u, d, i).active
            && Tree(u, Get(u, d, i)) == Tree(s2, b)
  {
    var b := Get(s, d, i);
    MergedFlags(b, value);
  }

  lemma ActivateExactly(u: State, d: nat, i: nat)
    requires WellFormed(u) && IsBar(u, d, i) && !Get(u, d, i).active
    ensures Activate(u, d, i).ok <==>
            forall r <- Tree(u, Get(u, d, i)) :: !Overlap(r, Range(Get(u, d, i), d, i))
  { }

  // --------------------------------------------------------------- what the guest sees

  /** Accesses at this address reach the BAR. */
  predicate Answers(s: State, d: nat, i: nat, at: nat)
    requires WellFormed(s) && IsBar(s, d, i)
  {
    Get(s, d, i).active && Address(Get(s, d, i)) == at
  }

  /** Trees only grow while BARs are activated. */
  lemma {:induction false} ToggleGrows(s: State, start: nat, size: nat, k: nat)
    requires WellFormed(s)
    ensures var t := Toggle(s, true, start, size, k).state;
            s.mem <= t.mem && s.io <= t.io
    decreases 6 * |s.devs| - k
  {
    hide Activate, Touches;
    if k < 6 * |s.devs| {
      if Touches(Get(s, k / 6, k % 6), start, size) {
        ActivateGrows(s, k / 6, k % 6);
        if Activate(s, k / 6, k % 6).ok { ToggleGrows(Activate(s, k / 6, k % 6).state, start, size, k + 1); }
      } else {
        ToggleGrows(s, start, size, k + 1);
      }
    }
  }

  lemma ActivateGrows(s: State, d: nat, i: nat)
    requires WellFormed(s) && IsBar(s, d, i)
    ensures s.mem <= Activate(s, d, i).state.mem && s.io <= Activate(s, d, i).state.io
  { }

  /** A BAR with something over its range stays off, whatever else is activated. */
  lemma BlockedStays(s: State, start: nat, size: nat, d: nat, i: nat)
    requires Inv(s) && WellFormed(s) && IsBar(s, d, i) && Get(s, d, i).size > 0
    requires !Get(s, d, i).active && !Activate(s, d, i).ok
    ensures var t := Toggle(s, true, start, size, 0).state;
            Same(s, t) && !Get(t, d, i).active
  {
    hide Inv, Toggle, Touches;
    ToggleKeeps(s, true, start, size, 0);
    ToggleGrows(s, start, size, 0);
    var t := Toggle(s, true, start, size, 0).state;
    if Get(t, d, i).active {
      ActivateExactly(s, d, i);
      var own := Range(Get(s, d, i), d, i);
      var r :| r in Tree(s, Get(s, d, i)) && Overlap(r, own);
      ActiveIsRegistered(s, d, i);
      ActiveIsRegistered(t, d, i);
      SameKind(s, s, t, d, i, 0, 0);
      TreeApart(t, Get(t, d, i), r, own);
    }
  }

  lemma TreeApart(t: State, b: Bar, r: Region, q: Region)
    requires Inv(t) && WellFormed(t) && r in Tree(t, b) && q in Tree(t, b) && r != q
    ensures !Overlap(r, q)
  { }

  /** The result: a write that moves a BAR takes effect if and only if nobody refuses and
      nothing that stays registered is in the way.  No BAR, of either space, is left out. */
  lemma MoveTakesEffectExactly(s: State, d: nat, i: nat, value: nat)
    requires Inv(s) && WellFormed(s) && IsBar(s, d, i) && 0 < Get(s, d, i).size <= TWO_32
    requires !Direct(s, d, i, value) && NewAddress(Get(s, d, i), value) != Address(Get(s, d, i))
    ensures var t := BarWrite(s, d, i, value);
            && |t.devs| == |s.devs|
            && (Answers(t, d, i, NewAddress(Get(s, d, i), value)) <==> CanLand(s, d, i, value))
            && (CanLand(s, d, i, value) ==> Target(s, d, i, value) in Tree(t, Get(s, d, i)))
  {
    hide Inv, Activate, Deactivate, Toggle, Touches, CanLand, Range, Target, Landed, MadeRoom, Moves, Merged, Vacated;
    var b := Get(s, d, i);
    LandsExactly(s, d, i, value);
    DeactivateKeeps(s, d, i);
    if Moves(s, d, i, value) {
      MoveEnds(s, d, i, value);
    } else {
      StuckMove(s, d, i, value);
    }
  }

  /** A write that does not move the BAR leaves its address alone. */
  lemma StuckMove(s: State, d: nat, i: nat, value: nat)
    requires Inv(s) && WellFormed(s) && IsBar(s, d, i) && 0 < Get(s, d, i).size <= TWO_32
    requires !Direct(s, d, i, value) && !Moves(s, d, i, value)
    ensures |BarWrite(s, d, i, value).devs| == |s.devs|
    ensures Address(Get(BarWrite(s, d, i, value), d, i)) == Address(Get(s, d, i))
  {
    hide Inv, Activate, Deactivate, Toggle, Touches, Cleared;
    DeactivateKeeps(s, d, i);
    if Deactivate(s, d, i).ok {
      MadeRoomKeeps(s, d, i, value);
      var s2 := MadeRoom(s, d, i, value).state;
      SameBar(s, s2, d, i);
      ActivateKeeps(s2, d, i);
      SameBar(s2, Activate(s2, d, i).state, d, i);
    }
  }

  lemma MoveEnds(s: State, d: nat, i: nat, value: nat)
    requires Inv(s) && WellFormed(s) && IsBar(s, d, i) && 0 < Get(s, d, i).size <= TWO_32
    requires Moves(s, d, i, value)
    ensures var t, ok := BarWrite(s, d, i, value), Landed(s, d, i, value).ok;
            && |t.devs| == |s.devs|
            && (Answers(t, d, i, NewAddress(Get(s, d, i), value)) <==> ok)
            && (ok ==> Target(s, d, i, value) in Tree(t, Get(s, d, i)))
  {
    hide Inv, Activate, Deactivate, Toggle, Touches, Cleared, Range, MadeRoom, Merged, Vacated, IsIo, Address;
    var b := Get(s, d, i);
    BarWriteMoves(s, d, i, value);
    LandedKeeps(s, d, i, value);
    MadeRoomKeeps(s, d, i, value);
    var s2 := MadeRoom(s, d, i, value).state;
    SameBar(s, s2, d, i);
    StoresKeeps(s2, d, i, value);
    StoredRange(s, s2, d, i, value);
    var u := Stores(s2, d, i, Merged(b, value));
    ActivateKeeps(u, d, i);
    var s3, t := Landed(s, d, i, value).state, BarWrite(s, d, i, value);
    ToggleKeeps(s3, true, Vacated(s, d, i, value), b.size, 0);
    if !Landed(s, d, i, value).ok {
      assert s3 == u;
      BlockedStays(u, Vacated(s, d, i, value), b.size, d, i);
    } else {
      ActiveIsRegistered(t, d, i);
      SameKind(u, s3, t, d, i, 0, 0);
      SameTree(b, Get(t, d, i), t);
      NewValue(b, Get(t, d, i), value);
    }
  }

  lemma SameTree(b: Bar, c: Bar, t: State)
    requires IsIo(b) == IsIo(c)
    ensures Tree(t, b) == Tree(t, c)
  { }

  lemma NewValue(b: Bar, c: Bar, value: nat)
    requires c.value == Merged(b, value)
    ensures Address(c) == NewAddress(b, value)
  { }

  /** For a move that can land, with nothing in the way of the BARs it uncovers, no BAR is
      active afterwards in a space that is off if and only if the guest had the space of
      every BAR over the old range on. */
  lemma MoveEnabledExactly(s: State, d: nat, i: nat, value: nat)
    requires Inv(s) && WellFormed(s) && OnlyEnabled(s) && IsBar(s, d, i) && 0 < Get(s, d, i).size <= TWO_32
    requires !Direct(s, d, i, value) && CanLand(s, d, i, value)
    requires Unblocked(Landed(s, d, i, value).state, Address(Get(s, d, i)), Get(s, d, i).size, 0)
    ensures OnlyEnabled(BarWrite(s, d, i, value)) <==>
            TouchedOn(s, Address(Get(s, d, i)), Get(s, d, i).size, 6 * |s.devs|)
  {
    hide Inv, Activate, Deactivate, Toggle, Touches, Landed, MadeRoom, Unblocked, Reach, Moves, CanLand;
    LandsExactly(s, d, i, value);
    BarWriteEnabledExactly(s, d, i, value);
    UnblockedReach(Landed(s, d, i, value).state, Address(Get(s, d, i)), Get(s, d, i).size, 0);
  }

  // ------------------------------------------------------------ in terms of addresses

  /** Another BAR, active in the same space as BAR i of device d. */
  predicate Rival(s: State, d: nat, i: nat, e: nat, j: nat)
    requires WellFormed(s) && IsBar(s, d, i) && IsBar(s, e, j)
  {
    (e != d || j != i) && Get(s, e, j).active && IsIo(Get(s, e, j)) == IsIo(Get(s, d, i))
  }

  /** Its registered range overlaps the one the BAR is to have. */
  predicate InWay(s: State, d: nat, i: nat, value: nat, e: nat, j: nat)
    requires WellFormed(s) && IsBar(s, d, i) && IsBar(s, e, j)
  {
    Rival(s, d, i, e, j) && Overlap(Range(Get(s, e, j), e, j), Target(s, d, i, value))
  }

  /** The write finds it: the addresses as written meet, and neither range ends at 4 GB. */
  predicate Found(s: State, d: nat, i: nat, value: nat, e: nat, j: nat)
    requires WellFormed(s) && IsBar(s, d, i) && IsBar(s, e, j)
  {
    var b, c := Get(s, d, i), Get(s, e, j);
    Meet(Address(c), c.size, NewAddress(b, value), b.size)
    && Address(c) + c.size != TWO_32 && NewAddress(b, value) + b.size != TWO_32
  }

  /** No region of another user overlaps the target. */
  ghost predicate FreeOfOthers(s: State, d: nat, i: nat, value: nat)
    requires WellFormed(s) && IsBar(s, d, i)
  {
    forall r <- Tree(s, Get(s, d, i)) :: r.owner.Other? ==> !Overlap(r, Target(s, d, i, value))
  }

  /** Ranges lie within 32 bits. */
  ghost predicate Within32(s: State, d: nat, i: nat, value: nat)
    requires WellFormed(s) && IsBar(s, d, i)
  {
    && NewAddress(Get(s, d, i), value) + Get(s, d, i).size <= TWO_32
    && forall e, j :: 0 <= e < |s.devs| && 0 <= j < 6 && Rival(s, d, i, e, j) ==>
         Address(Get(s, e, j)) + Get(s, e, j).size <= TWO_32
  }

  /** A BAR can land if and only if nobody refuses, no other user is in the way, and every
      active BAR in the way is found. */
  lemma CanLandMeans(s: State, d: nat, i: nat, value: nat)
    requires Inv(s) && WellFormed(s) && IsBar(s, d, i) && 0 < Get(s, d, i).size && Within32(s, d, i, value)
    ensures CanLand(s, d, i, value) <==>
            && !Refuses(Get(s, d, i)) && NoneInWayRefuse(s, d, i, value) && FreeOfOthers(s, d, i, value)
            && forall e, j :: 0 <= e < |s.devs| && 0 <= j < 6 && InWay(s, d, i, value, e, j) ==> Found(s, d, i, value, e, j)
  {
    hide Inv, Touches, Range, Overlap, Target, NoneInWayRefuse, NewAddress, Address;
    var b := Get(s, d, i);
    forall e, j | 0 <= e < |s.devs| && 0 <= j < 6 && Rival(s, d, i, e, j)
      ensures Range(Get(s, e, j), e, j).owner == OfBar(e, j) && Range(Get(s, e, j), e, j) in Tree(s, b)
      ensures MadeWay(s, d, i, value, e, j) <==> Found(s, d, i, value, e, j)
    {
      RivalRange(s, d, i, e, j);
      TouchesExactly(Get(s, e, j), NewAddress(b, value), b.size);
    }
    if CanLand(s, d, i, value) {
      forall e, j | 0 <= e < |s.devs| && 0 <= j < 6 && InWay(s, d, i, value, e, j) ensures Found(s, d, i, value, e, j) {
        assert Range(Get(s, e, j), e, j) in Tree(s, b);
      }
    }
    if forall e, j :: 0 <= e < |s.devs| && 0 <= j < 6 && InWay(s, d, i, value, e, j) ==> Found(s, d, i, value, e, j) {
      forall r | r in Tree(s, b) && r.owner.OfBar? && Stays(s, d, i, value, r) ensures !Overlap(r, Target(s, d, i, value)) {
        TreeHolds(s, b, r);
        assert Rival(s, d, i, r.owner.d, r.owner.i);
      }
    }
  }

  lemma RivalRange(s: State, d: nat, i: nat, e: nat, j: nat)
    requires Inv(s) && WellFormed(s) && IsBar(s, d, i) && IsBar(s, e, j) && Rival(s, d, i, e, j)
    ensures var c := Get(s, e, j);
            c.size > 0 && Range(c, e, j).owner == OfBar(e, j) && Range(c, e, j) in Tree(s, Get(s, d, i))
  {
    assert BarOk(s, e, j);
  }

  /** Where nothing ends at the top of its space, a BAR moved while its space is on takes
      effect whatever BARs were there, unless one refuses or another user is in the way. */
  lemma MoveTakesEffect(s: State, d: nat, i: nat, value: nat)
    requires Inv(s) && WellFormed(s) && IsBar(s, d, i) && 0 < Get(s, d, i).size <= TWO_32
    requires !Direct(s, d, i, value) && NewAddress(Get(s, d, i), value) != Address(Get(s, d, i))
    requires Below(Get(s, d, i), NewAddress(Get(s, d, i), value))
    requires forall e, j :: 0 <= e < |s.devs| && 0 <= j < 6 && Rival(s, d, i, e, j) ==>
               Below(Get(s, e, j), Address(Get(s, e, j)))
    ensures var t := BarWrite(s, d, i, value);
            && |t.devs| == |s.devs|
            && (Answers(t, d, i, NewAddress(Get(s, d, i), value)) <==>
                  !Refuses(Get(s, d, i)) && NoneInWayRefuse(s, d, i, value) && FreeOfOthers(s, d, i, value))
  {
    hide Inv, Touches, NoneInWayRefuse, NewAddress, Address, FreeOfOthers, CanLand, Range, Target, Overlap, BarWrite, Refuses;
    MoveTakesEffectExactly(s, d, i, value);
    var b := Get(s, d, i);
    assert Within32(s, d, i, value);
    CanLandMeans(s, d, i, value);
    forall e, j | 0 <= e < |s.devs| && 0 <= j < 6 && InWay(s, d, i, value, e, j) ensures Found(s, d, i, value, e, j) {
      BelowMeet(s, d, i, value, e, j);
    }
  }

  /** The range at this address ends below the top of the BAR's space. */
  predicate Below(b: Bar, at: nat) {
    at + b.size < if IsIo(b) then TWO_16 else TWO_32
  }

  lemma BelowMeet(s: State, d: nat, i: nat, value: nat, e: nat, j: nat)
    requires WellFormed(s) && IsBar(s, d, i) && IsBar(s, e, j) && InWay(s, d, i, value, e, j)
    requires Below(Get(s, d, i), NewAddress(Get(s, d, i), value)) && Below(Get(s, e, j), Address(Get(s, e, j)))
    ensures Found(s, d, i, value, e, j)
  {
    var b, c := Get(s, d, i), Get(s, e, j);
    var now := b.(value := Merged(b, value));
    MergedFlags(b, value);
    PlainRange(now, d, i);
    PlainRange(c, e, j);
  }

  lemma PlainRange(b: Bar, d: nat, i: nat)
    requires Below(b, Address(b))
    ensures Range(b, d, i) == Region(Address(b), Address(b) + b.size, OfBar(d, i))
  {
    hide Address;
    if IsIo(b) { PortMod(Address(b)); PortMod(b.size); }
  }

  lemma PortMod(n: nat)
    requires n < TWO_16
    ensures n % TWO_16 == n
  { }

  // --------------------------------------------------------------- moves that fail

  function None(): Bar { Bar(0, 0, false, false) }

  function Single(b: Bar): Device { Device([b] + seq(5, _ => None()), true, true) }

  /** Two devices of one BAR each, all spaces on; only the second BAR is active. */
  function Pair(a: Bar, b: Bar): State {
    var t := {Range(b, 1, 0)};
    if IsIo(b) then State([Single(a), Single(b)], {}, t) else State([Single(a), Single(b)], t, {})
  }

  lemma PairBars(a: Bar, b: Bar, e: nat, j: nat)
    requires e < 2 && j < 6
    ensures WellFormed(Pair(a, b)) && |Pair(a, b).devs| == 2
    ensures Get(Pair(a, b), e, j) == if j > 0 then None() else if e == 0 then a else b
  { }

  lemma PairInv(a: Bar, b: Bar)
    requires SizeOk(a) && SizeOk(b) && !a.active && b.active && b.size > 0
    ensures Inv(Pair(a, b)) && WellFormed(Pair(a, b)) && OnlyEnabled(Pair(a, b))
  {
    hide Range;
    var s := Pair(a, b);
    RangeNonEmpty(b, 1, 0);
    PairBars(a, b, 0, 0);
    forall e, j | 0 <= e < 2 && 0 <= j < 6 ensures BarOk(s, e, j) && (Get(s, e, j).active ==> SpaceOn(s.devs[e], Get(s, e, j))) {
      PairBars(a, b, e, j);
    }
    forall r <- s.mem ensures RegionOk(s, r, false) { PairBars(a, b, 1, 0); }
    forall r <- s.io ensures RegionOk(s, r, true) { PairBars(a, b, 1, 0); }
  }

  /** A BAR of the same space over the target that the write does not find stops the move. */
  lemma PairFails(a: Bar, b: Bar, value: nat)
    requires SizeOk(a) && SizeOk(b) && !a.active && b.active && 0 < a.size && 0 < b.size && IsIo(a) == IsIo(b)
    requires value != PROBE && NewAddress(a, value) != Address(a)
    requires !Touches(b, NewAddress(a, value), a.size)
    requires Overlap(Range(b, 1, 0), Range(a.(value := Merged(a, value)), 0, 0))
    ensures var s := Pair(a, b);
            && Inv(s) && WellFormed(s) && OnlyEnabled(s) && IsBar(s, 0, 0)
            && |BarWrite(s, 0, 0, value).devs| == 2 && !Answers(BarWrite(s, 0, 0, value), 0, 0, NewAddress(a, value))
  {
    hide Inv, Range, Touches, Overlap, BarWrite, NewAddress, Address, Merged, NoneInWayRefuse;
    var s := Pair(a, b);
    PairInv(a, b);
    PairBars(a, b, 0, 0);
    PairBars(a, b, 1, 0);
    MoveTakesEffectExactly(s, 0, 0, value);
    RangeNonEmpty(b, 1, 0);
    assert Stays(s, 0, 0, value, Range(b, 1, 0));
  }

  /** A memory BAR with no flags set. */
  lemma MemoryAt(b: Bar, q: nat, p: nat)
    requires b.value == 16 * q
    ensures !IsIo(b) && Address(b) == 16 * q && NewAddress(b, 16 * p) == 16 * p && Merged(b, 16 * p) == 16 * p
  {
    DivUnique(16 * q, 16, q, 0);
    DivUnique(16 * p, 16, p, 0);
    DivUnique(16 * q, 2, 8 * q, 0);
    DivUnique(16 * p, 2, 8 * p, 0);
  }

  /** A port BAR, of which the lowest bit is the only flag set. */
  lemma PortsAt(b: Bar, q: nat, p: nat)
    requires b.value == 4 * q + 1
    ensures IsIo(b) && Address(b) == 4 * q && NewAddress(b, 4 * p) == 4 * p && Merged(b, 4 * p) == 4 * p + 1
  {
    DivUnique(4 * q + 1, 4, q, 1);
    DivUnique(4 * p, 4, p, 0);
    DivUnique(4 * p + 1, 4, p, 1);
    DivUnique(4 * q + 1, 2, 2 * q, 1);
    DivUnique(4 * p + 1, 2, 2 * p, 1);
  }

  /** A move that fails: the BAR in the way ends at 4 GB. */
  lemma BarAtTopFails()
    ensures var s := Pair(Bar(0x1000, 16, false, false), Bar(0xffff_f000, 0x1000, true, false));
            && Inv(s) && WellFormed(s) && IsBar(s, 0, 0) && |BarWrite(s, 0, 0, 0xffff_f000).devs| == 2
            && !Answers(BarWrite(s, 0, 0, 0xffff_f000), 0, 0, 0xffff_f000)
  {
    hide Inv, BarWrite, Pair, Answers, Merged, Address, NewAddress, IsIo;
    var a, b := Bar(0x1000, 16, false, false), Bar(0xffff_f000, 0x1000, true, false);
    MemoryAt(a, 0x100, 0xfff_ff00);
    MemoryAt(a.(value := 0xffff_f000), 0xfff_ff00, 0);
    MemoryAt(b, 0xfff_ff00, 0);
    TouchesExactly(b, 0xffff_f000, 16);
    PairFails(a, b, 0xffff_f000);
  }

  /** Another: the new range itself ends at 4 GB. */
  lemma RangeAtTopFails()
    ensures var s := Pair(Bar(0x1000, 0x1000, false, false), Bar(0xffff_f000, 16, true, false));
            && Inv(s) && WellFormed(s) && IsBar(s, 0, 0) && |BarWrite(s, 0, 0, 0xffff_f000).devs| == 2
            && !Answers(BarWrite(s, 0, 0, 0xffff_f000), 0, 0, 0xffff_f000)
  {
    hide Inv, BarWrite, Pair, Answers, Merged, Address, NewAddress, IsIo;
    var a, b := Bar(0x1000, 0x1000, false, false), Bar(0xffff_f000, 16, true, false);
    MemoryAt(a, 0x100, 0xfff_ff00);
    MemoryAt(a.(value := 0xffff_f000), 0xfff_ff00, 0);
    MemoryAt(b, 0xfff_ff00, 0);
    TouchesExactly(b, 0xffff_f000, 0x1000);
    PairFails(a, b, 0xffff_f000);
  }

  /** Another: ports that are the same only once cut to 16 bits. */
  lemma PortAboveFails()
    ensures var s := Pair(Bar(0x2001, 16, false, false), Bar(0x1001, 16, true, false));
            && Inv(s) && WellFormed(s) && IsBar(s, 0, 0) && |BarWrite(s, 0, 0, 0x1_1000).devs| == 2
            && !Answers(BarWrite(s, 0, 0, 0x1_1000), 0, 0, 0x1_1000)
  {
    hide Inv, BarWrite, Pair, Answers, Merged, Address, NewAddress, IsIo;
    var a, b := Bar(0x2001, 16, false, false), Bar(0x1001, 16, true, false);
    PortsAt(a, 0x800, 0x4400);
    PortsAt(a.(value := 0x1_1001), 0x4400, 0);
    PortsAt(b, 0x400, 0);
    TouchesExactly(b, 0x1_1000, 16);
    DivUnique(0x1_1000, TWO_16, 1, 0x1000);
    PairFails(a, b, 0x1_1000);
  }
}
