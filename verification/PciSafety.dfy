/** What every write keeps: a BAR is active exactly when its current range is in its trap
    tree, so active BARs of one space never overlap. */
module PciSafety {
  import opened Arith
  import opened PciSpec

  ghost predicate Apart(tree: set<Region>) {
    && (forall r <- tree :: r.low < r.high)
    && (forall r <- tree, q <- tree :: r != q ==> !Overlap(r, q))
  }

  ghost predicate SizeOk(b: Bar) {
    b.size <= (if IsIo(b) then TWO_16 - 1 else TWO_32)
  }

  ghost predicate BarOk(s: State, d: nat, i: nat)
    requires WellFormed(s) && IsBar(s, d, i)
  {
    var b := Get(s, d, i);
    && SizeOk(b)
    && (b.active ==> b.size > 0 && Range(b, d, i) in Tree(s, b))
  }

  /** A registered region of a BAR is the range of that BAR, now, and it is active. */
  ghost predicate RegionOk(s: State, r: Region, io: bool)
    requires WellFormed(s)
  {
    r.owner.OfBar? ==>
      && IsBar(s, r.owner.d, r.owner.i)
      && Get(s, r.owner.d, r.owner.i).active && IsIo(Get(s, r.owner.d, r.owner.i)) == io
      && r == Range(Get(s, r.owner.d, r.owner.i), r.owner.d, r.owner.i)
  }

  ghost predicate Inv(s: State) {
    && WellFormed(s) && Apart(s.mem) && Apart(s.io)
    && (forall d, i :: 0 <= d < |s.devs| && 0 <= i < 6 ==> BarOk(s, d, i))
    && (forall r <- s.mem :: RegionOk(s, r, false))
    && (forall r <- s.io :: RegionOk(s, r, true))
  }

  /** No BAR is active in a space that is switched off. */
  ghost predicate OnlyEnabled(s: State)
    requires WellFormed(s)
  {
    forall d, i :: 0 <= d < |s.devs| && 0 <= i < 6 && Get(s, d, i).active ==> SpaceOn(s.devs[d], Get(s, d, i))
  }

  /** Nothing but activity and the trees changed. */
  ghost predicate Same(s: State, t: State) {
    && WellFormed(s) && WellFormed(t) && |t.devs| == |s.devs|
    && (forall d :: 0 <= d < |s.devs| ==> t.devs[d].ioOn == s.devs[d].ioOn && t.devs[d].memOn == s.devs[d].memOn)
    && (forall d, i :: 0 <= d < |s.devs| && 0 <= i < 6 ==>
          && Get(t, d, i).value == Get(s, d, i).value && Get(t, d, i).size == Get(s, d, i).size
          && Get(t, d, i).stuck == Get(s, d, i).stuck)
  }

  lemma ActiveIsRegistered(s: State, d: nat, i: nat)
    requires Inv(s) && IsBar(s, d, i)
    ensures Get(s, d, i).active <==> Range(Get(s, d, i), d, i) in Tree(s, Get(s, d, i))
  {
    assert BarOk(s, d, i);
  }

  /** Active BARs of one space never overlap. */
  lemma ActiveApart(s: State, d: nat, i: nat, e: nat, j: nat)
    requires Inv(s) && IsBar(s, d, i) && IsBar(s, e, j) && (d != e || i != j)
    requires Get(s, d, i).active && Get(s, e, j).active && IsIo(Get(s, d, i)) == IsIo(Get(s, e, j))
    ensures !Overlap(Range(Get(s, d, i), d, i), Range(Get(s, e, j), e, j))
  {
    ActiveIsRegistered(s, d, i);
    ActiveIsRegistered(s, e, j);
  }

  lemma PutGet(s: State, d: nat, i: nat, b: Bar, e: nat, j: nat)
    requires WellFormed(s) && IsBar(s, d, i) && IsBar(s, e, j)
    ensures Get(Put(s, d, i, b), e, j) == if d == e && i == j then b else Get(s, e, j)
  { }

  lemma RangeNonEmpty(b: Bar, d: nat, i: nat)
    requires b.size > 0 && SizeOk(b)
    ensures Range(b, d, i).low < Range(b, d, i).high && Range(b, d, i).owner == OfBar(d, i)
    ensures Range(b.(active := true), d, i) == Range(b, d, i)
  { }

  lemma ApartPlus(tree: set<Region>, r: Region)
    requires Apart(tree) && r.low < r.high && !(exists q <- tree :: Overlap(q, r))
    ensures Apart(tree + {r})
  { }

  lemma ActivateKeeps(s: State, d: nat, i: nat)
    requires Inv(s) && IsBar(s, d, i) && Get(s, d, i).size > 0
    ensures var r := Activate(s, d, i);
            && Inv(r.state) && Same(s, r.state)
            && (r.ok <==> Get(r.state, d, i).active) && (!r.ok ==> r.state == s)
            && forall e, j :: 0 <= e < |s.devs| && 0 <= j < 6 && (e != d || j != i) ==> Get(r.state, e, j) == Get(s, e, j)
  {
    hide Range, Apart, Overlap;
    var r, b := Activate(s, d, i), Get(s, d, i);
    if r.state != s {
      var t, own := r.state, Range(b, d, i);
      assert BarOk(s, d, i);
      RangeNonEmpty(b, d, i);
      ApartPlus(Tree(s, b), own);
      forall e, j | 0 <= e < |s.devs| && 0 <= j < 6 ensures BarOk(t, e, j) {
        PutGet(s, d, i, b.(active := true), e, j);
        assert BarOk(s, e, j);
      }
      forall q <- t.mem ensures RegionOk(t, q, false) {
        if q in s.mem { RegionStays(s, t, q, false, d, i); }
      }
      forall q <- t.io ensures RegionOk(t, q, true) {
        if q in s.io { RegionStays(s, t, q, true, d, i); }
      }
    }
  }

  /** A region stays right when only the activity of another BAR changes. */
  lemma RegionStays(s: State, t: State, q: Region, io: bool, d: nat, i: nat)
    requires WellFormed(s) && WellFormed(t) && IsBar(s, d, i) && |t.devs| == |s.devs|
    requires forall e, j :: 0 <= e < |s.devs| && 0 <= j < 6 && (e != d || j != i) ==> Get(t, e, j) == Get(s, e, j)
    requires RegionOk(s, q, io) && (q.owner == OfBar(d, i) ==> Get(t, d, i) == Get(s, d, i) || !Get(s, d, i).active)
    ensures RegionOk(t, q, io)
  { }

  /** Deregistering by address takes out the BAR's own range and nothing else. */
  lemma DeactivateTakesOwn(s: State, d: nat, i: nat)
    requires Inv(s) && IsBar(s, d, i) && Get(s, d, i).active
    ensures var b := Get(s, d, i);
            var first := Range(b, d, i).low;
            && Range(b, d, i) in Tree(s, b)
            && (set r <- Tree(s, b) | !(r.low <= first < r.high)) == Tree(s, b) - {Range(b, d, i)}
  {
    var b := Get(s, d, i);
    assert BarOk(s, d, i);
    var own, first := Range(b, d, i), Range(b, d, i).low;
    assert own in Tree(s, b) && Apart(Tree(s, b));
    forall r <- Tree(s, b) ensures r.low <= first < r.high <==> r == own { }
  }

  lemma DeactivateKeeps(s: State, d: nat, i: nat)
    requires Inv(s) && IsBar(s, d, i)
    ensures var r := Deactivate(s, d, i);
            && Inv(r.state) && Same(s, r.state)
            && (r.ok <==> !Get(r.state, d, i).active) && (!r.ok ==> r.state == s)
            && (r.ok <==> !(Get(s, d, i).active && Get(s, d, i).stuck))
            && forall e, j :: 0 <= e < |s.devs| && 0 <= j < 6 && (e != d || j != i) ==> Get(r.state, e, j) == Get(s, e, j)
  {
    var r, b := Deactivate(s, d, i), Get(s, d, i);
    assert BarOk(s, d, i);
    if b.active {
      DeactivateTakesOwn(s, d, i);
      if !b.stuck {
        var t := r.state;
        var own := Range(b, d, i);
        assert Tree(s, b) - {own} != Tree(s, b);
        forall e, j | 0 <= e < |s.devs| && 0 <= j < 6 ensures BarOk(t, e, j) {
          PutGet(s, d, i, b.(active := false), e, j);
          assert BarOk(s, e, j);
        }
        assert Apart(Tree(t, b));
        forall q <- t.mem ensures RegionOk(t, q, false) { assert RegionOk(s, q, false); }
        forall q <- t.io ensures RegionOk(t, q, true) { assert RegionOk(s, q, true); }
      }
    }
  }

  // ------------------------------------------------------------------------ toggling

  /** Activity only grew, and only where the range touches, or only shrank. */
  ghost predicate Moved(s: State, t: State, activate: bool, start: nat, size: nat) {
    && Same(s, t)
    && forall d, i :: 0 <= d < |s.devs| && 0 <= i < 6 ==>
         if activate
         then && (Get(s, d, i).active ==> Get(t, d, i).active)
              && (Get(t, d, i).active && !Get(s, d, i).active ==> Touches(Get(s, d, i), start, size))
         else Get(t, d, i).active ==> Get(s, d, i).active
  }

  /** From BAR k on, nothing that touches the range is active. */
  ghost predicate Cleared(s: State, start: nat, size: nat, k: nat)
    requires WellFormed(s)
  {
    forall d, i :: 0 <= d < |s.devs| && 0 <= i < 6 && k <= 6 * d + i && Touches(Get(s, d, i), start, size) ==>
      !Get(s, d, i).active
  }

  lemma MovedTwice(s: State, u: State, t: State, activate: bool, start: nat, size: nat)
    requires Moved(s, u, activate, start, size) && Moved(u, t, activate, start, size)
    ensures Moved(s, t, activate, start, size)
  {
    forall d, i | 0 <= d < |s.devs| && 0 <= i < 6
      ensures Touches(Get(u, d, i), start, size) <==> Touches(Get(s, d, i), start, size)
    { }
  }

  lemma MovedOne(s: State, t: State, activate: bool, start: nat, size: nat, d: nat, i: nat)
    requires Same(s, t) && IsBar(s, d, i) && Touches(Get(s, d, i), start, size)
    requires forall e, j :: 0 <= e < |s.devs| && 0 <= j < 6 && (e != d || j != i) ==> Get(t, e, j) == Get(s, e, j)
    requires if activate then Get(t, d, i).active || t == s else !Get(t, d, i).active || t == s
    ensures Moved(s, t, activate, start, size)
  { }

  lemma ClearedNext(s: State, t: State, start: nat, size: nat, d: nat, i: nat)
    requires WellFormed(s) && Moved(s, t, false, start, size) && IsBar(s, d, i)
    requires Touches(Get(s, d, i), start, size) ==> !Get(s, d, i).active
    requires Cleared(t, start, size, 6 * d + i + 1)
    ensures Cleared(t, start, size, 6 * d + i)
  {
    forall e, j | 0 <= e < |t.devs| && 0 <= j < 6 && 6 * d + i <= 6 * e + j && Touches(Get(t, e, j), start, size)
      ensures !Get(t, e, j).active
    {
      assert 6 * d + i == 6 * e + j ==> d == e && i == j;
    }
  }

  lemma {:induction false} ToggleKeeps(s: State, activate: bool, start: nat, size: nat, k: nat)
    requires Inv(s) && WellFormed(s)
    ensures var r := Toggle(s, activate, start, size, k);
            && Inv(r.state) && Moved(s, r.state, activate, start, size)
            && (r.ok && !activate ==> Cleared(r.state, start, size, k))
    decreases 6 * |s.devs| - k
  {
    hide Inv, Activate, Deactivate, Touches, Moved, Cleared, Same;
    if k >= 6 * |s.devs| {
      MovedNone(s, activate, start, size, k);
    } else {
      var d, i := k / 6, k % 6;
      assert IsBar(s, d, i);
      if Touches(Get(s, d, i), start, size) {
        TouchedHasSize(Get(s, d, i), start, size);
        var r := if activate then Activate(s, d, i) else Deactivate(s, d, i);
        SwitchMoves(s, activate, start, size, d, i);
        if r.ok {
          ToggleKeeps(r.state, activate, start, size, k + 1);
          var t := Toggle(r.state, activate, start, size, k + 1);
          MovedTwice(s, r.state, t.state, activate, start, size);
          if t.ok && !activate { ClearedNext(r.state, t.state, start, size, d, i); }
        }
      } else {
        ToggleKeeps(s, activate, start, size, k + 1);
        var t := Toggle(s, activate, start, size, k + 1);
        if t.ok && !activate { ClearedNext(s, t.state, start, size, d, i); }
      }
    }
  }

  lemma MovedNone(s: State, activate: bool, start: nat, size: nat, k: nat)
    requires Inv(s) && k >= 6 * |s.devs|
    ensures Moved(s, s, activate, start, size) && Cleared(s, start, size, k)
  { }

  lemma TouchedHasSize(b: Bar, start: nat, size: nat)
    requires Touches(b, start, size)
    ensures b.size > 0
  { }

  lemma SwitchMoves(s: State, activate: bool, start: nat, size: nat, d: nat, i: nat)
    requires Inv(s) && WellFormed(s) && IsBar(s, d, i) && Touches(Get(s, d, i), start, size)
    ensures var r := if activate then Activate(s, d, i) else Deactivate(s, d, i);
            && Inv(r.state) && Moved(s, r.state, activate, start, size)
            && IsBar(r.state, d, i) && (r.ok && !activate ==> !Get(r.state, d, i).active)
  {
    hide Inv, Touches;
    TouchedHasSize(Get(s, d, i), start, size);
    if activate { ActivateKeeps(s, d, i); } else { DeactivateKeeps(s, d, i); }
    var r := if activate then Activate(s, d, i) else Deactivate(s, d, i);
    MovedOne(s, r.state, activate, start, size, d, i);
  }

  // ---------------------------------------------------------------------- BAR writes

  lemma MergedFlags(b: Bar, value: nat)
    ensures Merged(b, value) % Flags(b) == b.value % Flags(b)
    ensures IsIo(b.(value := Merged(b, value))) == IsIo(b)
  {
    var f := Flags(b);
    DivUnique(Merged(b, value), f, value / f, b.value % f);
    if IsIo(b) { Parity(Merged(b, value), 2); Parity(b.value, 2); } else { Parity(Merged(b, value), 8); Parity(b.value, 8); }
  }

  lemma Parity(n: nat, h: nat)
    requires h > 0
    ensures n % (2 * h) % 2 == n % 2
  {
    var q, r := n / (2 * h), n % (2 * h);
    assert n == q * (2 * h) + r;
    assert q * (2 * h) == 2 * (q * h);
    assert n - r == 2 * (q * h);
  }

  /** Only storing a new value keeps the trees right exactly when the BAR is inactive, or
      stands for the same range as before. */
  lemma StoreKeepsExactly(s: State, d: nat, i: nat, value: nat)
    requires Inv(s) && IsBar(s, d, i)
    requires IsIo(Get(s, d, i).(value := value)) == IsIo(Get(s, d, i))
    ensures var b := Get(s, d, i);
            var now := b.(value := value);
            Inv(Put(s, d, i, now)) <==> !b.active || Range(now, d, i) == Range(b, d, i)
  {
    hide Range, Overlap;
    var b := Get(s, d, i);
    var now, t := b.(value := value), Put(s, d, i, b.(value := value));
    PutGet(s, d, i, now, d, i);
    assert BarOk(s, d, i);
    if !b.active || Range(now, d, i) == Range(b, d, i) {
      forall e, j | 0 <= e < |s.devs| && 0 <= j < 6 ensures BarOk(t, e, j) {
        PutGet(s, d, i, now, e, j);
        assert BarOk(s, e, j);
      }
      forall q <- t.mem ensures RegionOk(t, q, false) { StoreRegion(s, t, q, false, d, i, now); }
      forall q <- t.io ensures RegionOk(t, q, true) { StoreRegion(s, t, q, true, d, i, now); }
    } else {
      var own := Range(b, d, i);
      RangeNonEmpty(b, d, i);
      assert own in Tree(s, b) && !RegionOk(t, own, IsIo(b));
    }
  }

  lemma StoreRegion(s: State, t: State, q: Region, io: bool, d: nat, i: nat, now: Bar)
    requires WellFormed(s) && IsBar(s, d, i) && t == Put(s, d, i, now) && RegionOk(s, q, io)
    requires var b := Get(s, d, i);
             now.active == b.active && IsIo(now) == IsIo(b) && (!b.active || Range(now, d, i) == Range(b, d, i))
    ensures RegionOk(t, q, io)
  {
    if q.owner.OfBar? { PutGet(s, d, i, now, q.owner.d, q.owner.i); }
  }

  /** A write while the space is on moves the BAR and keeps the trees right, whatever other
      BARs are in the way and whichever step fails. */
  lemma MoveInv(s: State, d: nat, i: nat, value: nat)
    requires Inv(s) && WellFormed(s) && IsBar(s, d, i) && 0 < Get(s, d, i).size <= TWO_32
    requires !Direct(s, d, i, value)
    ensures Inv(BarWrite(s, d, i, value))
  {
    hide Inv, Activate, Deactivate, Toggle, Range;
    var b := Get(s, d, i);
    DeactivateKeeps(s, d, i);
    var s1 := Deactivate(s, d, i);
    if s1.ok {
      var start := Address(b.(value := Merged(b, value)));
      ToggleKeeps(s1.state, false, start, b.size, 0);
      var s2 := Toggle(s1.state, false, start, b.size, 0);
      assert Moved(s1.state, s2.state, false, start, b.size);
      if !s2.ok {
        ActivateKeeps(s2.state, d, i);
      } else {
        MergedFlags(Get(s2.state, d, i), value);
        MergedFlags(b, value);
        StoreKeepsExactly(s2.state, d, i, Merged(b, value));
        var u := Put(s2.state, d, i, Get(s2.state, d, i).(value := Merged(b, value)));
        PutGet(s2.state, d, i, Get(s2.state, d, i).(value := Merged(b, value)), d, i);
        ActivateKeeps(u, d, i);
        var s3 := Activate(u, d, i);
        ToggleKeeps(s3.state, true, if s3.ok then Address(b) else start, b.size, 0);
      }
    }
  }

  /** Any BAR write keeps the trees right exactly when it is not a plain store to an active
      BAR that changes its range. */
  lemma BarWriteInvExactly(s: State, d: nat, i: nat, value: nat)
    requires Inv(s) && WellFormed(s) && IsBar(s, d, i) && 0 < Get(s, d, i).size <= TWO_32
    ensures var b := Get(s, d, i);
            Inv(BarWrite(s, d, i, value)) <==>
            !(Direct(s, d, i, value) && b.active && Range(Stored(b, value), d, i) != Range(b, d, i))
  {
    hide Inv, Range;
    var b := Get(s, d, i);
    if Direct(s, d, i, value) {
      var v := if value == PROBE then (TWO_32 - b.size) % TWO_32 else value;
      MergedFlags(b, v);
      StoreKeepsExactly(s, d, i, Merged(b, v));
    } else {
      MoveInv(s, d, i, value);
    }
  }

  function NewAddress(b: Bar, value: nat): nat {
    Address(b.(value := Merged(b, value)))
  }

  // The stages of a move: the BAR off and its new range cleared; the BAR on again with
  // its new value; the BARs over the range it left, or could not take, on again.

  function MadeRoom(s: State, d: nat, i: nat, value: nat): (r: Outcome)
    requires WellFormed(s) && IsBar(s, d, i)
    ensures WellFormed(r.state) && |r.state.devs| == |s.devs|
  {
    Toggle(Deactivate(s, d, i).state, false, NewAddress(Get(s, d, i), value), Get(s, d, i).size, 0)
  }

  function Landed(s: State, d: nat, i: nat, value: nat): (r: Outcome)
    requires WellFormed(s) && IsBar(s, d, i)
    ensures WellFormed(r.state) && |r.state.devs| == |s.devs|
  {
    Activate(Stores(MadeRoom(s, d, i, value).state, d, i, Merged(Get(s, d, i), value)), d, i)
  }

  function Vacated(s: State, d: nat, i: nat, value: nat): nat
    requires WellFormed(s) && IsBar(s, d, i)
  {
    if Landed(s, d, i, value).ok then Address(Get(s, d, i)) else NewAddress(Get(s, d, i), value)
  }

  /** The write gets as far as storing the new value and activating BARs. */
  predicate Moves(s: State, d: nat, i: nat, value: nat)
    requires WellFormed(s) && IsBar(s, d, i)
  {
    !Direct(s, d, i, value) && Deactivate(s, d, i).ok && MadeRoom(s, d, i, value).ok
  }

  lemma BarWriteMoves(s: State, d: nat, i: nat, value: nat)
    requires WellFormed(s) && IsBar(s, d, i) && Get(s, d, i).size <= TWO_32 && Moves(s, d, i, value)
    ensures BarWrite(s, d, i, value)
         == Toggle(Landed(s, d, i, value).state, true, Vacated(s, d, i, value), Get(s, d, i).size, 0).state
  {
    hide Toggle, Activate, Deactivate;
  }

  /** The BAR with another value, all else as it was. */
  function Stores(s: State, d: nat, i: nat, value: nat): (t: State)
    requires WellFormed(s) && IsBar(s, d, i)
    ensures WellFormed(t) && |t.devs| == |s.devs|
  {
    Put(s, d, i, Get(s, d, i).(value := value))
  }

  lemma StoresKeeps(s: State, d: nat, i: nat, value: nat)
    requires Inv(s) && WellFormed(s) && IsBar(s, d, i) && !Get(s, d, i).active
    ensures var t := Stores(s, d, i, Merged(Get(s, d, i), value));
            && Inv(t) && SameButOne(s, t, d, i) && (OnlyEnabled(s) ==> OnlyEnabled(t))
            && Get(t, d, i) == Get(s, d, i).(value := Merged(Get(s, d, i), value))
            && t.mem == s.mem && t.io == s.io
  {
    hide Inv, Range;
    var b := Get(s, d, i);
    MergedFlags(b, value);
    StoreKeepsExactly(s, d, i, Merged(b, value));
    forall e, j | 0 <= e < |s.devs| && 0 <= j < 6
      ensures Get(Stores(s, d, i, Merged(b, value)), e, j)
           == if d == e && i == j then b.(value := Merged(b, value)) else Get(s, e, j)
    {
      PutGet(s, d, i, b.(value := Merged(b, value)), e, j);
    }
  }

  /** Apart from activity, and from the value of one BAR, which stays in its space. */
  ghost predicate SameButOne(s: State, t: State, d: nat, i: nat) {
    && WellFormed(s) && WellFormed(t) && |t.devs| == |s.devs| && IsBar(s, d, i)
    && (forall e :: 0 <= e < |s.devs| ==> t.devs[e].ioOn == s.devs[e].ioOn && t.devs[e].memOn == s.devs[e].memOn)
    && (forall e, j :: 0 <= e < |s.devs| && 0 <= j < 6 && (e != d || j != i) ==>
          Get(t, e, j).value == Get(s, e, j).value && Get(t, e, j).size == Get(s, e, j).size)
    && Get(t, d, i).size == Get(s, d, i).size && IsIo(Get(t, d, i)) == IsIo(Get(s, d, i))
  }

  lemma SameBar(s: State, t: State, d: nat, i: nat)
    requires Same(s, t) && IsBar(s, d, i)
    ensures var b, c := Get(s, d, i), Get(t, d, i);
            && c.value == b.value && c.size == b.size && SpaceOn(t.devs[d], c) == SpaceOn(s.devs[d], b)
            && Address(c) == Address(b)
            && (forall v: nat :: Merged(c, v) == Merged(b, v))
  { }

  lemma MadeRoomKeeps(s: State, d: nat, i: nat, value: nat)
    requires Inv(s) && WellFormed(s) && IsBar(s, d, i) && Deactivate(s, d, i).ok
    ensures var b, r := Get(s, d, i), MadeRoom(s, d, i, value);
            && Inv(r.state) && Moved(s, r.state, false, NewAddress(b, value), b.size)
            && (OnlyEnabled(s) ==> OnlyEnabled(r.state)) && !Get(r.state, d, i).active
            && (r.ok ==> Cleared(r.state, NewAddress(b, value), b.size, 0))
  {
    hide Inv, Toggle, Touches;
    var b := Get(s, d, i);
    DeactivateKeeps(s, d, i);
    var s1 := Deactivate(s, d, i).state;
    assert Moved(s, s1, false, NewAddress(b, value), b.size);
    ToggleKeeps(s1, false, NewAddress(b, value), b.size, 0);
    MovedTwice(s, s1, MadeRoom(s, d, i, value).state, false, NewAddress(b, value), b.size);
  }

  lemma LandedKeeps(s: State, d: nat, i: nat, value: nat)
    requires Inv(s) && WellFormed(s) && IsBar(s, d, i) && 0 < Get(s, d, i).size && Deactivate(s, d, i).ok
    ensures var t := Landed(s, d, i, value).state;
            Inv(t) && SameButOne(s, t, d, i)
    ensures OnlyEnabled(s) && SpaceOn(s.devs[d], Get(s, d, i)) ==> OnlyEnabled(Landed(s, d, i, value).state)
  {
    hide Inv, Activate, Deactivate, Toggle, Touches, Cleared, Flags;
    MadeRoomKeeps(s, d, i, value);
    var s2 := MadeRoom(s, d, i, value).state;
    SameBar(s, s2, d, i);
    StoresKeeps(s2, d, i, value);
    ActivateKeeps(Stores(s2, d, i, Merged(Get(s, d, i), value)), d, i);
  }

  // ------------------------------------------------- spaces that are off stay inactive

  /** Among the first n BARs of the machine, those over the range are in spaces that are on. */
  ghost predicate TouchedOn(s: State, start: nat, size: nat, n: nat)
    requires WellFormed(s)
  {
    forall d, i :: 0 <= d < |s.devs| && 0 <= i < 6 && 6 * d + i < n && Touches(Get(s, d, i), start, size) ==>
      SpaceOn(s.devs[d], Get(s, d, i))
  }

  /** The first BAR over the range that cannot be activated, or the number of BARs. */
  function Reach(s: State, start: nat, size: nat, k: nat): (n: nat)
    requires WellFormed(s)
    ensures k <= n && (k < 6 * |s.devs| ==> n <= 6 * |s.devs|)
    decreases 6 * |s.devs| - k
  {
    if k >= 6 * |s.devs| then k
    else if !Touches(Get(s, k / 6, k % 6), start, size) then Reach(s, start, size, k + 1)
    else
      var r := Activate(s, k / 6, k % 6);
      if r.ok then Reach(r.state, start, size, k + 1) else k
  }

  /** Which BARs a reactivation activates: those over the range, up to the first failure. */
  ghost predicate Woken(s: State, t: State, start: nat, size: nat, k: nat, n: nat) {
    && Same(s, t)
    && forall d, i :: 0 <= d < |s.devs| && 0 <= i < 6 ==>
         (Get(t, d, i).active <==>
            Get(s, d, i).active || (k <= 6 * d + i < n && Touches(Get(s, d, i), start, size)))
  }

  lemma {:induction false} ToggleWakes(s: State, start: nat, size: nat, k: nat)
    requires Inv(s) && WellFormed(s)
    ensures var r := Toggle(s, true, start, size, k);
            Woken(s, r.state, start, size, k, Reach(s, start, size, k)) &&
            (r.ok <==> Reach(s, start, size, k) >= 6 * |s.devs|)
    decreases 6 * |s.devs| - k
  {
    hide Inv, Activate, Touches, Woken;
    if k >= 6 * |s.devs| {
      WokenNone(s, s, start, size, k, k);
    } else {
      var d, i := k / 6, k % 6;
      assert IsBar(s, d, i);
      if Touches(Get(s, d, i), start, size) {
        TouchedHasSize(Get(s, d, i), start, size);
        var r := Activate(s, d, i);
        ActivateKeeps(s, d, i);
        if r.ok {
          ToggleWakes(r.state, start, size, k + 1);
          WokenOne(s, r.state, Toggle(s, true, start, size, k).state, start, size, d, i, Reach(s, start, size, k));
        } else {
          WokenNone(s, s, start, size, k, k);
        }
      } else {
        ToggleWakes(s, start, size, k + 1);
        WokenNone(s, Toggle(s, true, start, size, k).state, start, size, k, Reach(s, start, size, k));
      }
    }
  }

  lemma WokenNone(s: State, t: State, start: nat, size: nat, k: nat, n: nat)
    requires WellFormed(s)
    requires (n == k && t == s) || (k < n <= 6 * |s.devs| && Woken(s, t, start, size, k + 1, n))
    requires k < n ==> !Touches(Get(s, k / 6, k % 6), start, size)
    ensures Woken(s, t, start, size, k, n)
  {
    forall d, i | 0 <= d < |s.devs| && 0 <= i < 6
      ensures 6 * d + i == k ==> Get(s, d, i) == Get(s, k / 6, k % 6)
    { }
  }

  lemma WokenOne(s: State, u: State, t: State, start: nat, size: nat, d: nat, i: nat, n: nat)
    requires Same(s, u) && IsBar(s, d, i) && Get(u, d, i).active && Touches(Get(s, d, i), start, size)
    requires forall e, j :: 0 <= e < |s.devs| && 0 <= j < 6 && (e != d || j != i) ==> Get(u, e, j) == Get(s, e, j)
    requires 6 * d + i < n && Woken(u, t, start, size, 6 * d + i + 1, n)
    ensures Woken(s, t, start, size, 6 * d + i, n)
  {
    forall e, j | 0 <= e < |s.devs| && 0 <= j < 6
      ensures Get(t, e, j).active <==>
                Get(s, e, j).active || (6 * d + i <= 6 * e + j < n && Touches(Get(s, e, j), start, size))
    {
      assert 6 * d + i == 6 * e + j ==> d == e && i == j;
      assert Touches(Get(u, e, j), start, size) <==> Touches(Get(s, e, j), start, size);
    }
  }

  lemma WokenEnabled(s: State, t: State, start: nat, size: nat, n: nat)
    requires Woken(s, t, start, size, 0, n) && OnlyEnabled(s)
    ensures OnlyEnabled(t) <==> TouchedOn(s, start, size, n)
  {
    hide Touches;
    forall d, i | 0 <= d < |s.devs| && 0 <= i < 6 ensures SpaceOn(t.devs[d], Get(t, d, i)) == SpaceOn(s.devs[d], Get(s, d, i)) {
      SameBar(s, t, d, i);
    }
    if OnlyEnabled(t) {
      forall d, i | 0 <= d < |s.devs| && 0 <= i < 6 && 6 * d + i < n && Touches(Get(s, d, i), start, size)
        ensures SpaceOn(s.devs[d], Get(s, d, i))
      {
        assert Get(t, d, i).active;
      }
    }
  }

  /** The BAR written does not matter to TouchedOn: its own space is on. */
  lemma StillOn(s: State, t: State, d: nat, i: nat, start: nat, size: nat, n: nat)
    requires SameButOne(s, t, d, i) && SpaceOn(s.devs[d], Get(s, d, i))
    ensures TouchedOn(t, start, size, n) <==> TouchedOn(s, start, size, n)
  {
    forall e, j | 0 <= e < |t.devs| && 0 <= j < 6
      ensures SpaceOn(t.devs[e], Get(t, e, j)) == SpaceOn(s.devs[e], Get(s, e, j))
      ensures e != d || j != i ==> (Touches(Get(t, e, j), start, size) <==> Touches(Get(s, e, j), start, size))
    { }
    if TouchedOn(t, start, size, n) {
      forall e, j | 0 <= e < |s.devs| && 0 <= j < 6 && 6 * e + j < n && Touches(Get(s, e, j), start, size)
        ensures SpaceOn(s.devs[e], Get(s, e, j))
      {
        if e != d || j != i { assert Touches(Get(t, e, j), start, size); }
      }
    }
    if TouchedOn(s, start, size, n) {
      forall e, j | 0 <= e < |t.devs| && 0 <= j < 6 && 6 * e + j < n && Touches(Get(t, e, j), start, size)
        ensures SpaceOn(t.devs[e], Get(t, e, j))
      {
        if e != d || j != i { assert Touches(Get(s, e, j), start, size); }
      }
    }
  }

  /** A BAR write, of any guest and through every failure path, leaves no BAR active in a
      space that is off exactly when it is no move, or when of the BARs over the range the
      moved one left (or could not take), up to the first that cannot be activated, none
      has its own space off. */
  lemma BarWriteEnabledExactly(s: State, d: nat, i: nat, value: nat)
    requires Inv(s) && WellFormed(s) && OnlyEnabled(s) && IsBar(s, d, i) && 0 < Get(s, d, i).size <= TWO_32
    ensures OnlyEnabled(BarWrite(s, d, i, value)) <==>
            (Moves(s, d, i, value) ==>
               var start, size := Vacated(s, d, i, value), Get(s, d, i).size;
               TouchedOn(s, start, size, Reach(Landed(s, d, i, value).state, start, size, 0)))
  {
    hide Inv, Activate, Deactivate, Toggle, Touches, TouchedOn, Landed, MadeRoom, Reach;
    var b := Get(s, d, i);
    if Moves(s, d, i, value) {
      BarWriteMoves(s, d, i, value);
      LandedKeeps(s, d, i, value);
      var u, start := Landed(s, d, i, value).state, Vacated(s, d, i, value);
      ToggleWakes(u, start, b.size, 0);
      var n := Reach(u, start, b.size, 0);
      WokenEnabled(u, BarWrite(s, d, i, value), start, b.size, n);
      StillOn(s, u, d, i, start, b.size, n);
    } else {
      StayEnabled(s, d, i, value);
    }
  }

  lemma StayEnabled(s: State, d: nat, i: nat, value: nat)
    requires Inv(s) && WellFormed(s) && OnlyEnabled(s) && IsBar(s, d, i) && 0 < Get(s, d, i).size <= TWO_32
    requires !Moves(s, d, i, value)
    ensures OnlyEnabled(BarWrite(s, d, i, value))
  {
    hide Inv, Activate, Deactivate, Toggle, Touches, Cleared;
    var b := Get(s, d, i);
    DeactivateKeeps(s, d, i);
    if Direct(s, d, i, value) {
      DirectEnabled(s, d, i, value);
    } else if Deactivate(s, d, i).ok {
      MadeRoomKeeps(s, d, i, value);
      var s2 := MadeRoom(s, d, i, value).state;
      SameBar(s, s2, d, i);
      ActivateKeeps(s2, d, i);
      ActivateEnabled(s2, d, i);
    }
  }

  lemma DirectEnabled(s: State, d: nat, i: nat, value: nat)
    requires WellFormed(s) && OnlyEnabled(s) && IsBar(s, d, i) && Get(s, d, i).size <= TWO_32
    ensures OnlyEnabled(Put(s, d, i, Stored(Get(s, d, i), value)))
  {
    var b := Get(s, d, i);
    MergedFlags(b, if value == PROBE then (TWO_32 - b.size) % TWO_32 else value);
    forall e, j | 0 <= e < |s.devs| && 0 <= j < 6
      ensures Get(Put(s, d, i, Stored(b, value)), e, j) == if d == e && i == j then Stored(b, value) else Get(s, e, j)
    {
      PutGet(s, d, i, Stored(b, value), e, j);
    }
  }

  lemma ActivateEnabled(s: State, d: nat, i: nat)
    requires Inv(s) && WellFormed(s) && OnlyEnabled(s) && IsBar(s, d, i)
    requires Get(s, d, i).size > 0 && SpaceOn(s.devs[d], Get(s, d, i))
    ensures OnlyEnabled(Activate(s, d, i).state)
  {
    hide Inv, Activate;
    ActivateKeeps(s, d, i);
  }

  predicate Waits(s: State, d: nat, i: nat, start: nat, size: nat)
    requires WellFormed(s) && IsBar(s, d, i)
  {
    Touches(Get(s, d, i), start, size) && !Get(s, d, i).active
  }

  predicate Clash(s: State, d: nat, i: nat, e: nat, j: nat)
    requires WellFormed(s) && IsBar(s, d, i) && IsBar(s, e, j)
  {
    IsIo(Get(s, d, i)) == IsIo(Get(s, e, j)) && Overlap(Range(Get(s, d, i), d, i), Range(Get(s, e, j), e, j))
  }

  /** From BAR k on, the inactive BARs over the range overlap neither each other nor
      anything registered. */
  ghost predicate Unblocked(s: State, start: nat, size: nat, k: nat)
    requires WellFormed(s)
  {
    forall d, i :: 0 <= d < |s.devs| && 0 <= i < 6 && k <= 6 * d + i && Waits(s, d, i, start, size) ==>
      && (forall r <- Tree(s, Get(s, d, i)) :: !Overlap(r, Range(Get(s, d, i), d, i)))
      && (forall e, j :: 0 <= e < |s.devs| && 0 <= j < 6 && 6 * d + i < 6 * e + j && Waits(s, e, j, start, size) ==>
            !Clash(s, d, i, e, j))
  }

  lemma UnblockedNext(s: State, start: nat, size: nat, d: nat, i: nat)
    requires WellFormed(s) && IsBar(s, d, i) && Unblocked(s, start, size, 6 * d + i)
    requires Touches(Get(s, d, i), start, size)
    ensures var r := Activate(s, d, i);
            r.ok && Unblocked(r.state, start, size, 6 * d + i + 1)
  {
    hide Range, Overlap, Touches;
    var b, r := Get(s, d, i), Activate(s, d, i);
    if !b.active {
      assert Waits(s, d, i, start, size);
      var t := r.state;
      forall e, j | 0 <= e < |s.devs| && 0 <= j < 6
        ensures Get(t, e, j) == if e == d && j == i then b.(active := true) else Get(s, e, j)
      {
        PutGet(s, d, i, b.(active := true), e, j);
      }
      forall e, j | 0 <= e < |s.devs| && 0 <= j < 6 && 6 * d + i < 6 * e + j && Waits(t, e, j, start, size)
        ensures forall q <- Tree(t, Get(t, e, j)) :: !Overlap(q, Range(Get(t, e, j), e, j))
        ensures forall f, l :: 0 <= f < |t.devs| && 0 <= l < 6 && 6 * e + j < 6 * f + l && Waits(t, f, l, start, size) ==>
                  !Clash(t, e, j, f, l)
      {
        assert Waits(s, e, j, start, size) && !Clash(s, d, i, e, j);
        forall f, l | 0 <= f < |t.devs| && 0 <= l < 6 && 6 * e + j < 6 * f + l && Waits(t, f, l, start, size)
          ensures !Clash(t, e, j, f, l)
        {
          assert Waits(s, f, l, start, size) && !Clash(s, e, j, f, l);
        }
      }
    }
  }

  lemma {:induction false} UnblockedReach(s: State, start: nat, size: nat, k: nat)
    requires WellFormed(s) && Unblocked(s, start, size, k)
    ensures Reach(s, start, size, k) >= 6 * |s.devs|
    decreases 6 * |s.devs| - k
  {
    hide Activate, Touches, Unblocked;
    if k < 6 * |s.devs| {
      var d, i := k / 6, k % 6;
      if Touches(Get(s, d, i), start, size) {
        UnblockedNext(s, start, size, d, i);
        UnblockedReach(Activate(s, d, i).state, start, size, k + 1);
      } else {
        UnblockedLater(s, start, size, k);
        UnblockedReach(s, start, size, k + 1);
      }
    }
  }

  lemma UnblockedLater(s: State, start: nat, size: nat, k: nat)
    requires WellFormed(s) && Unblocked(s, start, size, k)
    ensures Unblocked(s, start, size, k + 1)
  { }

  /** What a well-behaved guest does: it probes sizes with the space off, and moves a BAR
      only when no BAR over its old or new range has its own space off. */
  ghost predicate Polite(s: State, d: nat, i: nat, value: nat)
    requires WellFormed(s) && IsBar(s, d, i)
  {
    var b := Get(s, d, i);
    if value == PROBE then !SpaceOn(s.devs[d], b)
    else SpaceOn(s.devs[d], b) ==>
           TouchedOn(s, Address(b), b.size, 6 * |s.devs|) && TouchedOn(s, NewAddress(b, value), b.size, 6 * |s.devs|)
  }

  /** A write to a BAR by a polite guest keeps the trees right and no BAR active in a space
      that is off, through every failure path. */
  lemma BarWriteKeeps(s: State, d: nat, i: nat, value: nat)
    requires Inv(s) && WellFormed(s) && OnlyEnabled(s) && IsBar(s, d, i)
    requires 0 < Get(s, d, i).size <= TWO_32 && Polite(s, d, i, value)
    ensures Inv(BarWrite(s, d, i, value)) && OnlyEnabled(BarWrite(s, d, i, value))
  {
    hide Inv, Activate, Deactivate, Toggle, Touches, Landed, MadeRoom, Reach, BarWrite;
    BarWriteInvExactly(s, d, i, value);
    BarWriteEnabledExactly(s, d, i, value);
  }

  // ------------------------------------------------------------------ command writes

  function On(b: Bar, ioOn: bool, memOn: bool): bool {
    if IsIo(b) then ioOn else memOn
  }

  /** The command changes the state of the space this implemented BAR is in. */
  predicate Switched(s: State, d: nat, i: nat, ioOn: bool, memOn: bool)
    requires WellFormed(s) && IsBar(s, d, i)
  {
    Get(s, d, i).size > 0 && On(Get(s, d, i), ioOn, memOn) != SpaceOn(s.devs[d], Get(s, d, i))
  }

  /** The callback will refuse to deactivate this BAR. */
  predicate Refuses(b: Bar) {
    b.active && b.stuck
  }

  /** What became of BAR i of device d, which had been `was`, under the new command:
      switched off unless it refused, or active, or blocked by an overlap. */
  ghost predicate Obeys(was: Bar, s: State, d: nat, i: nat, ioOn: bool, memOn: bool)
    requires WellFormed(s) && IsBar(s, d, i)
  {
    var b := Get(s, d, i);
    if !On(b, ioOn, memOn) then b.active <==> Refuses(was)
    else b.active || exists r <- Tree(s, b) :: Overlap(r, Range(b, d, i))
  }

  /** After n turns: other devices untouched, the first n BARs as the new command wants. */
  ghost predicate Turned(s: State, t: State, d: nat, n: nat, ioOn: bool, memOn: bool)
    requires WellFormed(s) && d < |s.devs|
  {
    && Inv(t) && Same(s, t)
    && (forall e, j :: 0 <= e < |s.devs| && 0 <= j < 6 && (e != d || j >= n) ==> Get(t, e, j) == Get(s, e, j))
    && (forall j :: 0 <= j < n && j < 6 ==>
          if Switched(s, d, j, ioOn, memOn) then Obeys(Get(s, d, j), t, d, j, ioOn, memOn) else Get(t, d, j) == Get(s, d, j))
  }

  lemma TurnStep(s: State, u: State, d: nat, n: nat, ioOn: bool, memOn: bool)
    requires Inv(s) && WellFormed(s) && d < |s.devs| && n < 6
    requires Turned(s, u, d, n, ioOn, memOn)
    ensures Turned(s, CommandTurn(u, d, n, ioOn, memOn), d, n + 1, ioOn, memOn)
  {
    hide Inv, Activate, Deactivate, Range, Overlap, Obeys;
    var b, t := Get(u, d, n), CommandTurn(u, d, n, ioOn, memOn);
    assert b == Get(s, d, n);
    if Switched(s, d, n, ioOn, memOn) {
      if On(b, ioOn, memOn) { ActivateKeeps(u, d, n); } else { DeactivateKeeps(u, d, n); }
      SwitchObeys(u, d, n, ioOn, memOn);
      forall j | 0 <= j < n && Switched(s, d, j, ioOn, memOn) ensures Obeys(Get(s, d, j), t, d, j, ioOn, memOn) {
        assert Get(t, d, j) == Get(u, d, j);
        StillObeys(Get(s, d, j), u, t, d, j, n, ioOn, memOn);
      }
    }
  }

  lemma SwitchObeys(s: State, d: nat, i: nat, ioOn: bool, memOn: bool)
    requires Inv(s) && WellFormed(s) && IsBar(s, d, i) && Switched(s, d, i, ioOn, memOn)
    ensures Obeys(Get(s, d, i), CommandTurn(s, d, i, ioOn, memOn), d, i, ioOn, memOn)
  {
    if !On(Get(s, d, i), ioOn, memOn) { DeactivateKeeps(s, d, i); }
  }

  /** A turn on another BAR of a space being switched the same way does no harm. */
  lemma StillObeys(was: Bar, u: State, t: State, d: nat, j: nat, n: nat, ioOn: bool, memOn: bool)
    requires WellFormed(u) && IsBar(u, d, j) && IsBar(u, d, n) && j != n && t == CommandTurn(u, d, n, ioOn, memOn)
    requires Get(t, d, j) == Get(u, d, j) && Obeys(was, u, d, j, ioOn, memOn)
    requires On(Get(u, d, j), ioOn, memOn) != SpaceOn(u.devs[d], Get(u, d, j))
    ensures Obeys(was, t, d, j, ioOn, memOn)
  {
    var b := Get(u, d, j);
    if On(b, ioOn, memOn) && !b.active {
      var r :| r in Tree(u, b) && Overlap(r, Range(b, d, j));
      assert r in Tree(t, b);
    }
  }

  lemma {:induction false} TurnsKeep(s: State, d: nat, n: nat, ioOn: bool, memOn: bool)
    requires Inv(s) && WellFormed(s) && d < |s.devs| && n <= 6
    ensures Turned(s, CommandTurns(s, d, n, ioOn, memOn), d, n, ioOn, memOn)
  {
    if n > 0 {
      TurnsKeep(s, d, n - 1, ioOn, memOn);
      TurnStep(s, CommandTurns(s, d, n - 1, ioOn, memOn), d, n - 1, ioOn, memOn);
    }
  }

  /** A command write keeps the trees right, also when callbacks refuse, whose answers the
      program ignores; each implemented BAR whose space it switches off is inactive
      afterwards unless it refused, each whose space it switches on is active unless
      something registered overlaps it; all other BARs are untouched. */
  lemma CommandKeeps(s: State, d: nat, ioOn: bool, memOn: bool)
    requires Inv(s) && WellFormed(s) && d < |s.devs|
    ensures var t := CommandWrite(s, d, ioOn, memOn);
            && Inv(t) && |t.devs| == |s.devs|
            && (forall i :: 0 <= i < 6 && Switched(s, d, i, ioOn, memOn) ==> Obeys(Get(s, d, i), t, d, i, ioOn, memOn))
            && forall e, i :: 0 <= e < |s.devs| && 0 <= i < 6 && (e != d || !Switched(s, d, i, ioOn, memOn)) ==>
                 Get(t, e, i) == Get(s, e, i)
  {
    hide Overlap, Range, CommandTurns, Inv;
    TurnsKeep(s, d, 6, ioOn, memOn);
    var u, t := CommandTurns(s, d, 6, ioOn, memOn), CommandWrite(s, d, ioOn, memOn);
    SwitchesKeep(u, t);
    forall e, i | 0 <= e < |s.devs| && 0 <= i < 6 ensures Get(t, e, i) == Get(u, e, i) { }
  }

  /** No BAR is left active in a space that is off exactly when none refused. */
  lemma CommandEnabledExactly(s: State, d: nat, ioOn: bool, memOn: bool)
    requires Inv(s) && WellFormed(s) && OnlyEnabled(s) && d < |s.devs|
    ensures OnlyEnabled(CommandWrite(s, d, ioOn, memOn)) <==>
            (forall i :: 0 <= i < 6 && Switched(s, d, i, ioOn, memOn) && !On(Get(s, d, i), ioOn, memOn) ==>
               !Refuses(Get(s, d, i)))
  {
    hide Overlap, Range, CommandTurns, CommandTurn;
    CommandKeeps(s, d, ioOn, memOn);
    CommandBits(s, d, ioOn, memOn);
    var t := CommandWrite(s, d, ioOn, memOn);
    forall i | 0 <= i < 6 ensures Get(s, d, i).active ==> Get(s, d, i).size > 0 { assert BarOk(s, d, i); }
    if OnlyEnabled(t) {
      forall i | 0 <= i < 6 && Switched(s, d, i, ioOn, memOn) && !On(Get(s, d, i), ioOn, memOn)
        ensures !Refuses(Get(s, d, i))
      {
        assert Obeys(Get(s, d, i), t, d, i, ioOn, memOn) && (Get(t, d, i).active ==> SpaceOn(t.devs[d], Get(t, d, i)));
      }
    }
  }

  lemma CommandBits(s: State, d: nat, ioOn: bool, memOn: bool)
    requires Inv(s) && WellFormed(s) && d < |s.devs|
    ensures var t := CommandWrite(s, d, ioOn, memOn);
            && |t.devs| == |s.devs| && t.devs[d].ioOn == ioOn && t.devs[d].memOn == memOn
            && (forall e :: 0 <= e < |s.devs| && e != d ==>
                  t.devs[e].ioOn == s.devs[e].ioOn && t.devs[e].memOn == s.devs[e].memOn)
            && forall i :: 0 <= i < 6 ==> IsIo(Get(t, d, i)) == IsIo(Get(s, d, i))
  {
    hide Overlap, Range, CommandTurns, Inv, Obeys;
    TurnsKeep(s, d, 6, ioOn, memOn);
    var u, t := CommandTurns(s, d, 6, ioOn, memOn), CommandWrite(s, d, ioOn, memOn);
    forall i | 0 <= i < 6 ensures Get(t, d, i) == Get(u, d, i) { }
  }

  /** Command bits alone do not matter to the trees. */
  lemma SwitchesKeep(u: State, t: State)
    requires Inv(u) && WellFormed(u) && WellFormed(t) && t.mem == u.mem && t.io == u.io && |t.devs| == |u.devs|
    requires forall e :: 0 <= e < |u.devs| ==> t.devs[e].bars == u.devs[e].bars
    ensures Inv(t)
  {
    forall e, i | 0 <= e < |t.devs| && 0 <= i < 6 ensures BarOk(t, e, i) {
      assert BarOk(u, e, i);
    }
    forall q <- t.mem ensures RegionOk(t, q, false) { assert RegionOk(u, q, false); }
    forall q <- t.io ensures RegionOk(t, q, true) { assert RegionOk(u, q, true); }
  }

  // ------------------------------------------------- a move that wakes a disabled BAR

  lemma {:induction false} ToggleSkips(s: State, activate: bool, start: nat, size: nat, k: nat, m: nat)
    requires WellFormed(s) && k <= m <= 6 * |s.devs|
    requires forall x :: k <= x < m ==> !Touches(Get(s, x / 6, x % 6), start, size)
    ensures Toggle(s, activate, start, size, k) == Toggle(s, activate, start, size, m)
    decreases m - k
  {
    if k < m { ToggleSkips(s, activate, start, size, k + 1, m); }
  }

  /** A device whose first BAR is 16 bytes of memory and has no other. */
  function OneBar(value: nat, active: bool, memOn: bool): Device {
    Device([Bar(value, 16, active, false)] + seq(5, _ => Bar(0, 0, false, false)), false, memOn)
  }

  /** Device 0 with memory on, device 1 with memory off and its BAR at 0x1000. */
  function Two(a: nat, aActive: bool, bActive: bool, mem: set<Region>): State {
    State([OneBar(a, aActive, true), OneBar(0x1000, bActive, false)], mem, {})
  }

  lemma TwoPut(a: nat, aActive: bool, bActive: bool, mem: set<Region>, v: nat, active: bool)
    ensures Put(Two(a, aActive, bActive, mem), 0, 0, Bar(v, 16, active, false)) == Two(v, active, bActive, mem)
    ensures Put(Two(a, aActive, bActive, mem), 1, 0, Bar(0x1000, 16, active, false)) == Two(a, aActive, active, mem)
  {
    assert OneBar(a, aActive, true).bars[0 := Bar(v, 16, active, false)] == OneBar(v, active, true).bars;
    assert OneBar(0x1000, bActive, false).bars[0 := Bar(0x1000, 16, active, false)] == OneBar(0x1000, active, false).bars;
  }

  /** Only the two implemented BARs can touch anything. */
  lemma TwoTouch(a: nat, aActive: bool, bActive: bool, mem: set<Region>, x: nat, start: nat, size: nat)
    requires x < 12
    ensures var s := Two(a, aActive, bActive, mem);
            && Get(s, 0, 0) == Bar(a, 16, aActive, false) && Get(s, 1, 0) == Bar(0x1000, 16, bActive, false)
            && (x != 0 && x != 6 ==> !Touches(Get(s, x / 6, x % 6), start, size))
  { }

  lemma TwoInv()
    ensures var s := Two(0x1000, true, false, {Region(0x1000, 0x1010, OfBar(0, 0))});
            Inv(s) && WellFormed(s) && OnlyEnabled(s)
  {
    var s := Two(0x1000, true, false, {Region(0x1000, 0x1010, OfBar(0, 0))});
    forall d, i | 0 <= d < |s.devs| && 0 <= i < 6
      ensures BarOk(s, d, i) && (Get(s, d, i).active ==> SpaceOn(s.devs[d], Get(s, d, i)))
    {
      assert i > 0 ==> Get(s, d, i) == Bar(0, 0, false, false);
    }
  }

  const OLD0 := Region(0x1000, 0x1010, OfBar(0, 0))
  const NEW0 := Region(0x2000, 0x2010, OfBar(0, 0))
  const OWN1 := Region(0x1000, 0x1010, OfBar(1, 0))

  lemma StepOff()
    ensures Deactivate(Two(0x1000, true, false, {OLD0}), 0, 0) == Outcome(Two(0x1000, false, false, {}), true)
  {
    TwoPut(0x1000, true, false, {OLD0}, 0x1000, false);
    assert (set r <- {OLD0} | !(r.low <= 0x1000 < r.high)) == {};
  }

  lemma StepClear()
    ensures Toggle(Two(0x1000, false, false, {}), false, 0x2000, 16, 0) == Outcome(Two(0x1000, false, false, {}), true)
  {
    var s1 := Two(0x1000, false, false, {});
    forall x: nat | x < 12 ensures !Touches(Get(s1, x / 6, x % 6), 0x2000, 16) {
      TwoTouch(0x1000, false, false, {}, x, 0x2000, 16);
    }
    ToggleSkips(s1, false, 0x2000, 16, 0, 12);
  }

  lemma StepOn()
    ensures Activate(Two(0x2000, false, false, {}), 0, 0) == Outcome(Two(0x2000, true, false, {NEW0}), true)
  {
    TwoPut(0x2000, false, false, {}, 0x2000, true);
  }

  lemma StepWake()
    ensures Toggle(Two(0x2000, true, false, {NEW0}), true, 0x1000, 16, 0)
         == Outcome(Two(0x2000, true, true, {NEW0, OWN1}), true)
  {
    hide Activate, Two, Touches;
    var s3, t := Two(0x2000, true, false, {NEW0}), Two(0x2000, true, true, {NEW0, OWN1});
    TwoShape(0x2000, true, false, {NEW0});
    TwoShape(0x2000, true, true, {NEW0, OWN1});
    forall x: nat | x < 6 ensures !Touches(Get(s3, x / 6, x % 6), 0x1000, 16) {
      if x > 0 { TwoTouch(0x2000, true, false, {NEW0}, x, 0x1000, 16); } else { WakeTouch(); }
    }
    ToggleSkips(s3, true, 0x1000, 16, 0, 6);
    WakeTouch();
    WakeActivate();
    forall x: nat | 7 <= x < 12 ensures !Touches(Get(t, x / 6, x % 6), 0x1000, 16) {
      TwoTouch(0x2000, true, true, {NEW0, OWN1}, x, 0x1000, 16);
    }
    ToggleSkips(t, true, 0x1000, 16, 7, 12);
  }

  lemma TwoShape(a: nat, aActive: bool, bActive: bool, mem: set<Region>)
    ensures WellFormed(Two(a, aActive, bActive, mem)) && |Two(a, aActive, bActive, mem).devs| == 2
  { }

  lemma WakeTouch()
    ensures var s := Two(0x2000, true, false, {NEW0});
            !Touches(Get(s, 0, 0), 0x1000, 16) && Touches(Get(s, 1, 0), 0x1000, 16)
  { }

  lemma WakeActivate()
    ensures Activate(Two(0x2000, true, false, {NEW0}), 1, 0) == Outcome(Two(0x2000, true, true, {NEW0, OWN1}), true)
  {
    TwoPut(0x2000, true, false, {NEW0}, 0, true);
    assert {NEW0} + {OWN1} == {NEW0, OWN1};
  }

  lemma WholeMove()
    ensures BarWrite(Two(0x1000, true, false, {OLD0}), 0, 0, 0x2000) == Two(0x2000, true, true, {NEW0, OWN1})
  {
    hide Toggle, Activate, Deactivate, Two;
    TwoTouch(0x1000, true, false, {OLD0}, 0, 0, 0);
    TwoTouch(0x1000, false, false, {}, 0, 0, 0);
    TwoOn(0x1000, true, false, {OLD0});
    StepOff();
    StepClear();
    TwoPut(0x1000, false, false, {}, 0x2000, false);
    StepOn();
    StepWake();
  }

  lemma TwoOn(a: nat, aActive: bool, bActive: bool, mem: set<Region>)
    ensures var s := Two(a, aActive, bActive, mem);
            WellFormed(s) && |s.devs| == 2 && s.devs[0].memOn && !s.devs[1].memOn
  { }

  lemma AfterInv()
    ensures Inv(Two(0x2000, true, true, {NEW0, OWN1}))
  {
    hide Toggle, Activate, Deactivate, Two, Inv;
    TwoInv();
    TwoTouch(0x1000, true, false, {OLD0}, 0, 0, 0);
    TwoTouch(0x1000, false, false, {}, 0, 0, 0);
    TwoTouch(0x2000, false, false, {}, 0, 0, 0);
    TwoOn(0x1000, true, false, {OLD0});
    TwoOn(0x1000, false, false, {});
    TwoOn(0x2000, false, false, {});
    TwoOn(0x2000, true, false, {NEW0});
    DeactivateKeeps(Two(0x1000, true, false, {OLD0}), 0, 0);
    StepOff();
    NothingOn();
    StoresKeeps(Two(0x1000, false, false, {}), 0, 0, 0x2000);
    TwoPut(0x1000, false, false, {}, 0x2000, false);
    ActivateKeeps(Two(0x2000, false, false, {}), 0, 0);
    StepOn();
    ToggleKeeps(Two(0x2000, true, false, {NEW0}), true, 0x1000, 16, 0);
    StepWake();
  }

  lemma NothingOn()
    ensures var s := Two(0x1000, false, false, {});
            WellFormed(s) && OnlyEnabled(s)
  {
    var s := Two(0x1000, false, false, {});
    forall d, i | 0 <= d < |s.devs| && 0 <= i < 6 ensures !Get(s, d, i).active {
      assert i > 0 ==> Get(s, d, i) == Bar(0, 0, false, false);
    }
  }

  /** Device 1 has its memory space off and its BAR where device 0 answers.  When device 0
      moves away, the BAR of device 1 is switched on all the same; a later write to it
      goes straight to the register and leaves a range registered that no BAR has. */
  lemma MoveWakesDisabled()
    ensures var s := Two(0x1000, true, false, {OLD0});
            && Inv(s) && WellFormed(s) && OnlyEnabled(s)
            && var t := BarWrite(s, 0, 0, 0x2000);
            && |t.devs| == 2 && Get(t, 1, 0) == Bar(0x1000, 16, true, false) && !t.devs[1].memOn
            && Inv(t) && !Inv(BarWrite(t, 1, 0, 0x3000))
  {
    hide Toggle, Activate, Deactivate, Two, Inv;
    TwoInv();
    WholeMove();
    AfterInv();
    var t := Two(0x2000, true, true, {NEW0, OWN1});
    TwoTouch(0x2000, true, true, {NEW0, OWN1}, 0, 0, 0);
    TwoOn(0x2000, true, true, {NEW0, OWN1});
    StoreKeepsExactly(t, 1, 0, 0x3000);
  }
}
