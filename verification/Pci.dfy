/** Configuration writes of init/pci.c in place: loops over devices and BARs that register
    and deregister ranges one at a time, each method proved equal to the function of the
    same name in PciSpec. */
module Pci {
  import opened PciSpec
  import opened PciSafety

  ghost predicate Unregistered(b: Bar) {
    !b.active && SizeOk(b)
  }

  class Machine {
    var devs: seq<Device>
    var mem: set<Region>
    var io: set<Region>

    ghost function View(): State
      reads this
    {
      State(devs, mem, io)
    }

    ghost predicate Valid()
      reads this
    {
      WellFormed(View()) && Inv(View())
    }

    /** Devices before their BARs are registered. */
    constructor (devices: seq<Device>)
      requires forall d :: 0 <= d < |devices| ==>
        |devices[d].bars| == 6 && forall i :: 0 <= i < 6 ==> Unregistered(devices[d].bars[i])
      ensures Valid() && OnlyEnabled(View()) && devs == devices
    {
      devs, mem, io := devices, {}, {};
      new;
      forall d, i | 0 <= d < |devs| && 0 <= i < 6 ensures BarOk(View(), d, i) && !Get(View(), d, i).active {
        assert Unregistered(devices[d].bars[i]);
      }
    }

    /** Activates the BARs of a new device whose space is on. */
    method PciRegisterBarRegions(d: nat) returns (ok: bool)
      requires Valid() && OnlyEnabled(View()) && d < |devs|
      modifies this
      ensures Valid() && OnlyEnabled(View()) && Same(old(View()), View())
      ensures ok ==> forall i :: 0 <= i < 6 && Get(View(), d, i).size > 0 && SpaceOn(devs[d], Get(View(), d, i)) ==>
                Get(View(), d, i).active
    {
      hide Inv, Activate;
      ghost var s := View();
      for i := 0 to 6
        invariant Valid() && OnlyEnabled(View()) && Same(s, View())
        invariant forall j :: 0 <= j < i && Get(View(), d, j).size > 0 && SpaceOn(devs[d], Get(View(), d, j)) ==>
                    Get(View(), d, j).active
      {
        var b := devs[d].bars[i];
        if b.size > 0 && SpaceOn(devs[d], b) {
          ActivateKeeps(View(), d, i);
          ActivateEnabled(View(), d, i);
          ok := PciActivateBar(d, i);
          if !ok { return; }
        }
      }
      return true;
    }

    method SetBar(d: nat, i: nat, b: Bar)
      requires WellFormed(View()) && IsBar(View(), d, i)
      modifies `devs
      ensures View() == Put(old(View()), d, i, b)
    {
      devs := devs[d := devs[d].(bars := devs[d].bars[i := b])];
    }

    method PciActivateBar(d: nat, i: nat) returns (ok: bool)
      requires Valid() && IsBar(View(), d, i) && Get(View(), d, i).size > 0
      modifies this
      ensures Valid() && Outcome(View(), ok) == Activate(old(View()), d, i)
    {
      ActivateKeeps(View(), d, i);
      var b := devs[d].bars[i];
      if b.active { return true; }
      ok := Register(IsIo(b), Range(b, d, i));
      if !ok { return; }
      SetBar(d, i, b.(active := true));
    }

    /** The tree refuses a range that overlaps any in it. */
    method Register(isIo: bool, r: Region) returns (ok: bool)
      modifies `mem, `io
      ensures ok <==> !exists q <- (if isIo then old(io) else old(mem)) :: Overlap(q, r)
      ensures mem == if ok && !isIo then old(mem) + {r} else old(mem)
      ensures io == if ok && isIo then old(io) + {r} else old(io)
    {
      ok := !exists q <- (if isIo then io else mem) :: Overlap(q, r);
      if ok && isIo { io := io + {r}; }
      if ok && !isIo { mem := mem + {r}; }
    }

    /** Takes out the range that holds `addr`, if there is one. */
    method Deregister(isIo: bool, addr: nat) returns (found: bool)
      requires Apart(mem) && Apart(io)
      modifies `mem, `io
      ensures mem == if isIo then old(mem) else set q <- old(mem) | !(q.low <= addr < q.high)
      ensures io == if isIo then set q <- old(io) | !(q.low <= addr < q.high) else old(io)
      ensures found <==> exists q <- (if isIo then old(io) else old(mem)) :: q.low <= addr < q.high
    {
      var tree := if isIo then io else mem;
      found := exists q <- tree :: q.low <= addr < q.high;
      if found {
        var r :| r in tree && r.low <= addr < r.high;
        assert forall q <- tree :: q.low <= addr < q.high ==> q == r;
        tree := tree - {r};
      }
      if isIo { io := tree; } else { mem := tree; }
    }

    method PciDeactivateBar(d: nat, i: nat) returns (ok: bool)
      requires Valid() && IsBar(View(), d, i)
      modifies this
      ensures Valid() && Outcome(View(), ok) == Deactivate(old(View()), d, i)
    {
      DeactivateKeeps(View(), d, i);
      var b := devs[d].bars[i];
      if !b.active { return true; }
      if b.stuck { return false; }
      DeactivateTakesOwn(View(), d, i);
      var found := Deregister(IsIo(b), Range(b, d, i).low);
      // A port range that is not found is not reported as an error.
      if !found && !IsIo(b) { return false; }
      SetBar(d, i, b.(active := false));
      return true;
    }

    method PciToggleBarRegions(activate: bool, start: nat, size: nat) returns (ok: bool)
      requires Valid()
      modifies this
      ensures Valid() && Outcome(View(), ok) == Toggle(old(View()), activate, start, size, 0)
    {
      hide Inv, Activate, Deactivate, Touches;
      ghost var s := View();
      for d := 0 to |devs|
        invariant Valid() && |devs| == |s.devs|
        invariant Toggle(s, activate, start, size, 0) == Toggle(View(), activate, start, size, 6 * d)
      {
        for i := 0 to 6
          invariant Valid() && |devs| == |s.devs|
          invariant Toggle(s, activate, start, size, 0) == Toggle(View(), activate, start, size, 6 * d + i)
        {
          assert (6 * d + i) / 6 == d && (6 * d + i) % 6 == i;
          if Touches(devs[d].bars[i], start, size) {
            TouchedHasSize(devs[d].bars[i], start, size);
            if activate {
              ok := PciActivateBar(d, i);
            } else {
              ok := PciDeactivateBar(d, i);
            }
            if !ok { return; }
          }
        }
      }
      return true;
    }

    /** The guest writes a BAR, polite or not. */
    method PciConfigBarWr(d: nat, i: nat, value: nat)
      requires Valid() && IsBar(View(), d, i) && 0 < Get(View(), d, i).size <= TWO_32
      modifies this
      ensures View() == BarWrite(old(View()), d, i, value)
      ensures Valid() <==> var b := Get(old(View()), d, i);
              !(Direct(old(View()), d, i, value) && b.active && Range(Stored(b, value), d, i) != Range(b, d, i))
      ensures old(OnlyEnabled(View()) && Polite(View(), d, i, value)) ==> Valid() && OnlyEnabled(View())
    {
      hide Inv, Activate, Deactivate, Toggle, Range, Polite, OnlyEnabled, Cleared;
      ghost var s := View();
      BarWriteInvExactly(s, d, i, value);
      if OnlyEnabled(s) && Polite(s, d, i, value) { BarWriteKeeps(s, d, i, value); }
      var b := devs[d].bars[i];
      if value == PROBE || !SpaceOn(devs[d], b) {
        SetBar(d, i, Stored(b, value));
        return;
      }
      var newAddr := Address(b.(value := Merged(b, value)));
      var ok := PciDeactivateBar(d, i);
      if !ok { return; }
      MadeRoomKeeps(s, d, i, value);
      ok := PciToggleBarRegions(false, newAddr, b.size);
      assert Same(s, View());
      SameBar(s, View(), d, i);
      if !ok {
        var _ := PciActivateBar(d, i);
        return;
      }
      StoresKeeps(View(), d, i, value);
      SetBar(d, i, devs[d].bars[i].(value := Merged(b, value)));
      ok := PciActivateBar(d, i);
      var _ := PciToggleBarRegions(true, if ok then Address(b) else newAddr, b.size);
    }

    /** The guest writes the command register.  Whether the callbacks did as they were told
        is not looked at. */
    method PciConfigCommandWr(d: nat, ioOn: bool, memOn: bool)
      requires Valid() && d < |devs|
      modifies this
      ensures Valid() && View() == CommandWrite(old(View()), d, ioOn, memOn)
    {
      hide Inv, Activate, Deactivate;
      ghost var s := View();
      CommandKeeps(s, d, ioOn, memOn);
      var toggleIo, toggleMem := devs[d].ioOn != ioOn, devs[d].memOn != memOn;
      for i := 0 to 6
        invariant Valid() && |devs| == |s.devs| && View() == CommandTurns(s, d, i, ioOn, memOn)
        invariant devs[d].ioOn == s.devs[d].ioOn && devs[d].memOn == s.devs[d].memOn
      {
        TurnsKeep(s, d, i, ioOn, memOn);
        TurnsKeep(s, d, i + 1, ioOn, memOn);
        var b := devs[d].bars[i];
        if b.size > 0 {
          if toggleIo && IsIo(b) {
            if ioOn { var _ := PciActivateBar(d, i); } else { var _ := PciDeactivateBar(d, i); }
          }
          if toggleMem && !IsIo(b) {
            if memOn { var _ := PciActivateBar(d, i); } else { var _ := PciDeactivateBar(d, i); }
          }
        }
      }
      devs := devs[d := devs[d].(ioOn := ioOn, memOn := memOn)];
    }
  }
}
