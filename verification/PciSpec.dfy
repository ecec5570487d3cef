/** PCI base address registers on values (init/pci.c, with the activation callbacks of
    virtio/pci.c): registers, activity flags, command bits, and the two trees of trapped
    ranges.  Pci.dfy holds the in-place code proved equal to these functions. */
module PciSpec {
  const TWO_32 := 0x1_0000_0000
  const TWO_16 := 0x1_0000
  const PROBE := 0xffff_ffff

  /** A size of zero means not implemented.  `stuck`: the callback cannot deactivate it. */
  datatype Bar = Bar(value: nat, size: nat, active: bool, stuck: bool)

  datatype Device = Device(bars: seq<Bar>, ioOn: bool, memOn: bool)

  datatype Owner = OfBar(d: nat, i: nat) | Other

  datatype Region = Region(low: nat, high: nat, owner: Owner)

  datatype State = State(devs: seq<Device>, mem: set<Region>, io: set<Region>)

  predicate IsIo(b: Bar) { b.value % 2 == 1 }

  /** The low bits of a register that are flags, not address: two or four. */
  function Flags(b: Bar): nat { if IsIo(b) then 4 else 16 }

  function Address(b: Bar): nat { b.value - b.value % Flags(b) }

  /** The range the callback registers: ports and their number are cut to 16 bits. */
  function Range(b: Bar, d: nat, i: nat): Region {
    if IsIo(b)
    then Region(Address(b) % TWO_16, Address(b) % TWO_16 + b.size % TWO_16, OfBar(d, i))
    else Region(Address(b), Address(b) + b.size, OfBar(d, i))
  }

  predicate Overlap(a: Region, b: Region) {
    a.low < b.high && b.low < a.high
  }

  predicate SpaceOn(dev: Device, b: Bar) {
    if IsIo(b) then dev.ioOn else dev.memOn
  }

  predicate WellFormed(s: State) {
    forall d :: 0 <= d < |s.devs| ==> |s.devs[d].bars| == 6
  }

  predicate IsBar(s: State, d: nat, i: nat) {
    d < |s.devs| && i < 6
  }

  function Get(s: State, d: nat, i: nat): Bar
    requires WellFormed(s) && IsBar(s, d, i)
  {
    s.devs[d].bars[i]
  }

  function Put(s: State, d: nat, i: nat, b: Bar): (t: State)
    requires WellFormed(s) && IsBar(s, d, i)
    ensures WellFormed(t) && |t.devs| == |s.devs|
  {
    s.(devs := s.devs[d := s.devs[d].(bars := s.devs[d].bars[i := b])])
  }

  function Tree(s: State, b: Bar): set<Region> {
    if IsIo(b) then s.io else s.mem
  }

  function PutTree(s: State, b: Bar, tree: set<Region>): State {
    if IsIo(b) then s.(io := tree) else s.(mem := tree)
  }

  datatype Outcome = Outcome(state: State, ok: bool)

  /** Registering fails on any overlap and then changes nothing. */
  function Activate(s: State, d: nat, i: nat): (r: Outcome)
    requires WellFormed(s) && IsBar(s, d, i)
    ensures WellFormed(r.state) && |r.state.devs| == |s.devs|
  {
    var b := Get(s, d, i);
    if b.active then Outcome(s, true)
    else if exists r <- Tree(s, b) :: Overlap(r, Range(b, d, i)) then Outcome(s, false)
    else
      Outcome(PutTree(Put(s, d, i, b.(active := true)), b, Tree(s, b) + {Range(b, d, i)}), true)
  }

  /** Deregistering goes by address: it takes out what holds the first byte of the range. */
  function Deactivate(s: State, d: nat, i: nat): (r: Outcome)
    requires WellFormed(s) && IsBar(s, d, i)
    ensures WellFormed(r.state) && |r.state.devs| == |s.devs|
  {
    var b := Get(s, d, i);
    var first := Range(b, d, i).low;
    if !b.active then Outcome(s, true)
    else if b.stuck then Outcome(s, false)
    else
      var tree := set r <- Tree(s, b) | !(r.low <= first < r.high);
      if !IsIo(b) && tree == Tree(s, b) then Outcome(s, false)
      else Outcome(PutTree(Put(s, d, i, b.(active := false)), b, tree), true)
  }

  /** The 32-bit comparison of a register with a range of bus addresses, of either space. */
  predicate Touches(b: Bar, start: nat, size: nat) {
    b.size > 0 && !((Address(b) + b.size) % TWO_32 <= start || Address(b) >= (start + size) % TWO_32)
  }

  /** Switch every BAR that touches the range, from the k-th BAR of the machine on, giving
      up at the first failure. */
  function Toggle(s: State, activate: bool, start: nat, size: nat, k: nat): (r: Outcome)
    requires WellFormed(s)
    ensures WellFormed(r.state) && |r.state.devs| == |s.devs|
    decreases 6 * |s.devs| - k
  {
    if k >= 6 * |s.devs| then Outcome(s, true)
    else if !Touches(Get(s, k / 6, k % 6), start, size) then Toggle(s, activate, start, size, k + 1)
    else
      var r := if activate then Activate(s, k / 6, k % 6) else Deactivate(s, k / 6, k % 6);
      if r.ok then Toggle(r.state, activate, start, size, k + 1) else r
  }

  /** What a write stores: the address bits of `value`, the old flag bits. */
  function Merged(b: Bar, value: nat): nat {
    value - value % Flags(b) + b.value % Flags(b)
  }

  /** A write that only stores: a size probe, or one with the space switched off. */
  predicate Direct(s: State, d: nat, i: nat, value: nat)
    requires WellFormed(s) && IsBar(s, d, i)
  {
    value == PROBE || !SpaceOn(s.devs[d], Get(s, d, i))
  }

  function Stored(b: Bar, value: nat): Bar
    requires b.size <= TWO_32
  {
    b.(value := Merged(b, if value == PROBE then (TWO_32 - b.size) % TWO_32 else value))
  }

  function BarWrite(s: State, d: nat, i: nat, value: nat): (t: State)
    requires WellFormed(s) && IsBar(s, d, i) && Get(s, d, i).size <= TWO_32
    ensures WellFormed(t)
  {
    var b := Get(s, d, i);
    if Direct(s, d, i, value) then Put(s, d, i, Stored(b, value))
    else
      var s1 := Deactivate(s, d, i);
      if !s1.ok then s1.state else
      var s2 := Toggle(s1.state, false, Address(b.(value := Merged(b, value))), b.size, 0);
      if !s2.ok then Activate(s2.state, d, i).state else
      var s3 := Activate(Put(s2.state, d, i, Get(s2.state, d, i).(value := Merged(b, value))), d, i);
      if !s3.ok
      then Toggle(s3.state, true, Address(b.(value := Merged(b, value))), b.size, 0).state
      else Toggle(s3.state, true, Address(b), b.size, 0).state
  }

  /** One turn of the loop of a command write. */
  function CommandTurn(s: State, d: nat, i: nat, ioOn: bool, memOn: bool): (t: State)
    requires WellFormed(s) && IsBar(s, d, i)
    ensures WellFormed(t) && |t.devs| == |s.devs|
  {
    var b := Get(s, d, i);
    var on := if IsIo(b) then ioOn else memOn;
    if b.size == 0 || on == SpaceOn(s.devs[d], b) then s
    else if on then Activate(s, d, i).state
    else Deactivate(s, d, i).state
  }

  function CommandTurns(s: State, d: nat, n: nat, ioOn: bool, memOn: bool): (t: State)
    requires WellFormed(s) && d < |s.devs| && n <= 6
    ensures WellFormed(t) && |t.devs| == |s.devs|
  {
    if n == 0 then s else CommandTurn(CommandTurns(s, d, n - 1, ioOn, memOn), d, n - 1, ioOn, memOn)
  }

  function CommandWrite(s: State, d: nat, ioOn: bool, memOn: bool): (t: State)
    requires WellFormed(s) && d < |s.devs|
    ensures WellFormed(t)
  {
    var t := CommandTurns(s, d, 6, ioOn, memOn);
    t.(devs := t.devs[d := t.devs[d].(ioOn := ioOn, memOn := memOn)])
  }
}
