/** What a guest that writes a base address register reads back (init/pci.c; section 6.2.5.1
    of PCI Local Bus Specification 3.0), by the bits of the register. */
module PciRegisters {
  import opened Arith
  import opened PciSpec
  import opened PciSafety
  import opened PciMove

  /** How many of the lowest bits are flags: 0x3 for ports, 0xf for memory, as a modulus. */
  function FlagModulus(b: Bar): nat {
    if b.value % 2 == 1 then 4 else 16
  }

  /** `at` is `n` with the bits below the modulus cleared. */
  predicate RoundedDown(at: nat, n: nat, modulus: nat)
    requires modulus > 0
  {
    at <= n < at + modulus && at % modulus == 0
  }

  lemma RoundedOnce(at: nat, bt: nat, n: nat, modulus: nat)
    requires modulus > 0 && RoundedDown(at, n, modulus) && RoundedDown(bt, n, modulus)
    ensures at == bt
  {
    DivUnique(n, modulus, at / modulus, n - at);
    DivUnique(n, modulus, bt / modulus, n - bt);
  }

  /** A register is its address bits and its flag bits. */
  lemma RegisterSplits(b: Bar)
    ensures RoundedDown(Address(b), b.value, FlagModulus(b)) && b.value == Address(b) + b.value % FlagModulus(b)
  {
    Down(b.value, FlagModulus(b));
  }

  lemma Down(n: nat, m: nat)
    requires m > 0
    ensures RoundedDown(n - n % m, n, m)
  {
    var q := n / m;
    assert n == q * m + n % m;
    DivUnique(q * m, m, q, 0);
  }

  /** Nothing but the value of one BAR differs. */
  ghost predicate OnlyValue(s: State, t: State, d: nat, i: nat)
    requires WellFormed(s) && IsBar(s, d, i)
  {
    && WellFormed(t) && |t.devs| == |s.devs| && t.mem == s.mem && t.io == s.io
    && (forall e :: 0 <= e < |s.devs| ==> t.devs[e].ioOn == s.devs[e].ioOn && t.devs[e].memOn == s.devs[e].memOn)
    && (forall e, j :: 0 <= e < |s.devs| && 0 <= j < 6 && (e != d || j != i) ==> Get(t, e, j) == Get(s, e, j))
    && Get(t, d, i).active == Get(s, d, i).active && Get(t, d, i).size == Get(s, d, i).size
    && Get(t, d, i).stuck == Get(s, d, i).stuck
  }

  /** The new register has these address bits and the old flag bits. */
  predicate Holds(c: Bar, b: Bar, n: nat) {
    && RoundedDown(Address(c), n, FlagModulus(b)) && FlagModulus(c) == FlagModulus(b)
    && c.value % FlagModulus(b) == b.value % FlagModulus(b)
  }

  lemma MergedHolds(b: Bar, c: Bar, value: nat)
    requires c.value == Merged(b, value)
    ensures Holds(c, b, value)
  {
    MergedFlags(b, value);
    RegisterSplits(c);
    var m := FlagModulus(b);
    Down(value, m);
    assert c.value == (value - value % m) + b.value % m;
    DivUnique(c.value, m, (value - value % m) / m, b.value % m);
  }

  /** A size probe: whatever space is on, the address bits become those of 2^32 less the
      size, so that a size above the flag bits is what the guest computes from them, and
      nothing else changes. */
  lemma ProbeReads(s: State, d: nat, i: nat)
    requires WellFormed(s) && IsBar(s, d, i) && 0 < Get(s, d, i).size <= TWO_32
    ensures var b, t := Get(s, d, i), BarWrite(s, d, i, 0xffff_ffff);
            && OnlyValue(s, t, d, i) && Holds(Get(t, d, i), b, if b.size == TWO_32 then 0 else TWO_32 - b.size)
            && (b.size % FlagModulus(b) == 0 && b.size < TWO_32 ==> TWO_32 - Address(Get(t, d, i)) == b.size)
  {
    var b := Get(s, d, i);
    var n := (TWO_32 - b.size) % TWO_32;
    var c := Get(BarWrite(s, d, i, 0xffff_ffff), d, i);
    assert c.value == Merged(b, n);
    MergedHolds(b, c, n);
    if b.size % FlagModulus(b) == 0 && b.size < TWO_32 {
      assert (TWO_32 - b.size) % FlagModulus(b) == 0 by { SizeBits(b.size, FlagModulus(b)); }
      RoundedOnce(Address(c), n, n, FlagModulus(b));
    }
  }

  lemma SizeBits(size: nat, m: nat)
    requires (m == 4 || m == 16) && size % m == 0 && size < TWO_32
    ensures (TWO_32 - size) % m == 0
  { }

  /** Any other write while the space is off: the address is the value without its flag
      bits, and nothing else changes. */
  lemma OffWriteReads(s: State, d: nat, i: nat, value: nat)
    requires WellFormed(s) && IsBar(s, d, i) && Get(s, d, i).size <= TWO_32 && value != 0xffff_ffff
    requires if Get(s, d, i).value % 2 == 1 then !s.devs[d].ioOn else !s.devs[d].memOn
    ensures var t := BarWrite(s, d, i, value);
            OnlyValue(s, t, d, i) && Holds(Get(t, d, i), Get(s, d, i), value)
  {
    var b, c := Get(s, d, i), Get(BarWrite(s, d, i, value), d, i);
    assert c.value == Merged(b, value);
    MergedHolds(b, c, value);
  }

  /** The address a write asks for, which the theorems on moves speak of. */
  lemma NewAddressIs(b: Bar, value: nat)
    ensures RoundedDown(NewAddress(b, value), value, FlagModulus(b))
  {
    MergedHolds(b, b.(value := Merged(b, value)), value);
  }

  // -------------------------------------------------------------- moves that give up

  /** If another BAR refuses to make way, the BAR answers at its old address as before. */
  lemma GivesUpRestored(s: State, d: nat, i: nat, value: nat)
    requires Inv(s) && WellFormed(s) && IsBar(s, d, i) && 0 < Get(s, d, i).size <= TWO_32
    requires !Direct(s, d, i, value) && Get(s, d, i).active
    requires Refuses(Get(s, d, i)) || !NoneInWayRefuse(s, d, i, value)
    ensures var t := BarWrite(s, d, i, value);
            |t.devs| == |s.devs| && Get(t, d, i) == Get(s, d, i)
  {
    hide Inv, Activate, Deactivate, Toggle, Touches, Cleared, NoneInWayRefuse, Range, Overlap;
    DeactivateKeeps(s, d, i);
    if Deactivate(s, d, i).ok {
      RoomMade(s, d, i, value);
      MadeRoomKeeps(s, d, i, value);
      RoomShrinks(s, d, i, value);
      var b, s2 := Get(s, d, i), MadeRoom(s, d, i, value).state;
      SameBar(s, s2, d, i);
      StillFree(s, s2, d, i);
      ActivateKeeps(s2, d, i);
      SameBar(s2, Activate(s2, d, i).state, d, i);
    }
  }

  /** Making room only takes regions away, the BAR's own among them. */
  lemma RoomShrinks(s: State, d: nat, i: nat, value: nat)
    requires Inv(s) && WellFormed(s) && IsBar(s, d, i) && Deactivate(s, d, i).ok && Get(s, d, i).active
    ensures var b, s2 := Get(s, d, i), MadeRoom(s, d, i, value).state;
            Tree(s2, b) <= Tree(s, b) - {Range(b, d, i)}
  {
    hide Inv, Deactivate, Toggle, Touches;
    var b := Get(s, d, i);
    ToggleShrinks(Deactivate(s, d, i).state, NewAddress(b, value), b.size, 0);
    DeactivateOwn(s, d, i);
  }

  lemma DeactivateOwn(s: State, d: nat, i: nat)
    requires Inv(s) && WellFormed(s) && IsBar(s, d, i) && Deactivate(s, d, i).ok && Get(s, d, i).active
    ensures var b, t := Get(s, d, i), Deactivate(s, d, i).state;
            Tree(t, b) == Tree(s, b) - {Range(b, d, i)}
  {
    DeactivateTakesOwn(s, d, i);
  }

  lemma DeactivateShrinks(s: State, d: nat, i: nat)
    requires WellFormed(s) && IsBar(s, d, i)
    ensures Deactivate(s, d, i).state.mem <= s.mem && Deactivate(s, d, i).state.io <= s.io
  { }

  lemma {:induction false} ToggleShrinks(s: State, start: nat, size: nat, k: nat)
    requires WellFormed(s)
    ensures Toggle(s, false, start, size, k).state.mem <= s.mem && Toggle(s, false, start, size, k).state.io <= s.io
    decreases 6 * |s.devs| - k
  {
    hide Deactivate, Touches;
    if k < 6 * |s.devs| {
      if Touches(Get(s, k / 6, k % 6), start, size) {
        DeactivateShrinks(s, k / 6, k % 6);
        if Deactivate(s, k / 6, k % 6).ok { ToggleShrinks(Deactivate(s, k / 6, k % 6).state, start, size, k + 1); }
      } else {
        ToggleShrinks(s, start, size, k + 1);
      }
    }
  }

  lemma StillFree(s: State, s2: State, d: nat, i: nat)
    requires Inv(s) && Same(s, s2) && IsBar(s, d, i) && Get(s, d, i).active && !Get(s2, d, i).active
    requires Tree(s2, Get(s, d, i)) <= Tree(s, Get(s, d, i)) - {Range(Get(s, d, i), d, i)}
    ensures Activate(s2, d, i).ok
  {
    hide Range, Overlap;
    var b, c := Get(s, d, i), Get(s2, d, i);
    ActiveIsRegistered(s, d, i);
    SameKind(s, s, s2, d, i, 0, 0);
    assert Tree(s2, c) == Tree(s2, b);
    forall r <- Tree(s2, c) ensures !Overlap(r, Range(c, d, i)) {
      TreeApart(s, b, r, Range(b, d, i));
    }
    ActivateExactly(s2, d, i);
  }

  // --------------------------------------------------------------- the command register

  /** A command write stores both enable bits, and no value, size or other device's bits
      change. */
  lemma CommandReads(s: State, d: nat, ioOn: bool, memOn: bool)
    requires Inv(s) && WellFormed(s) && d < |s.devs|
    ensures var t := CommandWrite(s, d, ioOn, memOn);
            && |t.devs| == |s.devs| && t.devs[d].ioOn == ioOn && t.devs[d].memOn == memOn
            && (forall e :: 0 <= e < |s.devs| && e != d ==>
                  t.devs[e].ioOn == s.devs[e].ioOn && t.devs[e].memOn == s.devs[e].memOn)
            && (forall e, j :: 0 <= e < |s.devs| && 0 <= j < 6 ==>
                  Get(t, e, j).value == Get(s, e, j).value && Get(t, e, j).size == Get(s, e, j).size)
  {
    hide Overlap, Range, CommandTurns, Inv, Obeys;
    CommandBits(s, d, ioOn, memOn);
    TurnsKeep(s, d, 6, ioOn, memOn);
    var u, t := CommandTurns(s, d, 6, ioOn, memOn), CommandWrite(s, d, ioOn, memOn);
    forall e, j | 0 <= e < |s.devs| && 0 <= j < 6 ensures Get(t, e, j) == Get(u, e, j) { }
  }
}
