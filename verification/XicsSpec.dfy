/** The PAPR interrupt controller (arch/powerpc/xics.c) on values: one record per
    server (ICP, presentation side) and one per source (ICS).  Every function below is
    one function of the program; Xics.dfy holds the in-place code proved equal to it.
    Servers are unpacked here (XISR and CPPR apart); the packed word is in Xics.dfy. */
module XicsSpec {
  const XICS_IPI := 2
  const IRQ_OFFSET := 16
  const MASKED := 0xff
  const XISR_LIMIT := 0x100_0000

  type Byte = n: nat | n <= 0xff

  /** `line` is the last level driven onto the vCPU's external interrupt pin. */
  datatype Server = Server(xisr: nat, cppr: Byte, pending: Byte, mfrr: Byte, line: bool)

  datatype Source = Source(server: nat, priority: Byte, rejected: bool, masked: bool)

  datatype State = State(servers: seq<Server>, sources: seq<Source>)

  predicate IsSource(s: State, nr: nat) {
    IRQ_OFFSET <= nr < IRQ_OFFSET + |s.sources|
  }

  predicate WellFormed(s: State) {
    IRQ_OFFSET + |s.sources| <= XISR_LIMIT
  }

  function PutServer(s: State, v: nat, x: Server): State
    requires v < |s.servers|
  {
    s.(servers := s.servers[v := x])
  }

  function PutSource(s: State, i: nat, x: Source): State
    requires i < |s.sources|
  {
    s.(sources := s.sources[i := x])
  }

  /** An IPI is not a source: its MFRR already remembers it, so rejecting it is a no-op. */
  function Reject(s: State, nr: nat): State {
    if IsSource(s, nr)
    then PutSource(s, nr - IRQ_OFFSET, s.sources[nr - IRQ_OFFSET].(rejected := true))
    else s
  }

  /** Hand interrupt `nr` to server `v`, sending back whatever it was being shown. */
  function Present(s: State, v: nat, nr: nat, priority: Byte): State
    requires v < |s.servers|
  {
    var t := if s.servers[v].xisr != 0 then Reject(s, s.servers[v].xisr) else s;
    PutServer(t, v, t.servers[v].(xisr := nr, pending := priority, line := true))
  }

  function CheckIpi(s: State, v: nat): State
    requires v < |s.servers|
  {
    var ss := s.servers[v];
    if ss.xisr != 0 && ss.pending <= ss.mfrr then s else Present(s, v, XICS_IPI, ss.mfrr)
  }

  function IcpIrq(s: State, v: nat, nr: nat, priority: Byte): State
    requires v < |s.servers|
  {
    var ss := s.servers[v];
    if priority >= ss.cppr || (ss.xisr != 0 && ss.pending <= priority)
    then Reject(s, nr)
    else Present(s, v, nr, priority)
  }

  predicate Routed(s: State) {
    forall i :: 0 <= i < |s.sources| ==> s.sources[i].server < |s.servers|
  }

  /** One turn of the resend loop. */
  function ResendOne(s: State, i: nat): State
    requires i < |s.sources| && Routed(s)
  {
    var irq := s.sources[i];
    if !irq.rejected then s else
    var t := PutSource(s, i, irq.(rejected := false));
    if irq.priority == MASKED then t else IcpIrq(t, irq.server, i + IRQ_OFFSET, irq.priority)
  }

  function ResendTo(s: State, n: nat): (t: State)
    requires n <= |s.sources| && Routed(s)
    ensures Routed(t) && |t.servers| == |s.servers| && |t.sources| == |s.sources|
  {
    if n == 0 then s else ResendOne(ResendTo(s, n - 1), n - 1)
  }

  function IcpResend(s: State, v: nat): State
    requires v < |s.servers| && Routed(s)
  {
    var t := if s.servers[v].mfrr < s.servers[v].cppr then CheckIpi(s, v) else s;
    ResendTo(t, |t.sources|)
  }

  function SetCppr(s: State, v: nat, cppr: Byte): State
    requires v < |s.servers| && Routed(s)
  {
    var ss := s.servers[v];
    var t := PutServer(s, v, ss.(cppr := cppr));
    if cppr < ss.cppr then
      if ss.xisr != 0 && cppr <= ss.pending
      then Reject(PutServer(t, v, t.servers[v].(xisr := 0, line := false)), ss.xisr)
      else t
    else if ss.xisr == 0 then IcpResend(t, v)
    else t
  }

  function SetMfrr(s: State, v: nat, mfrr: Byte): State
    requires v < |s.servers|
  {
    var t := PutServer(s, v, s.servers[v].(mfrr := mfrr));
    if mfrr < s.servers[v].cppr then CheckIpi(t, v) else t
  }

  function Accept(s: State, v: nat): State
    requires v < |s.servers|
  {
    PutServer(s, v, s.servers[v].(xisr := 0, cppr := s.servers[v].pending, line := false))
  }

  function Eoi(s: State, v: nat, cppr: Byte): State
    requires v < |s.servers| && Routed(s)
  {
    var t := PutServer(s, v, s.servers[v].(cppr := cppr));
    if s.servers[v].xisr == 0 then IcpResend(t, v) else t
  }

  function SetIrq(s: State, i: nat, level: bool): State
    requires i < |s.sources| && Routed(s)
  {
    var irq := s.sources[i];
    if !level then s
    else if irq.priority == MASKED then PutSource(s, i, irq.(masked := true))
    else IcpIrq(s, irq.server, i + IRQ_OFFSET, irq.priority)
  }

  function WriteXive(s: State, i: nat, server: nat, priority: Byte): State
    requires i < |s.sources| && server < |s.servers|
  {
    var irq := s.sources[i].(server := server, priority := priority);
    if !irq.masked || priority == MASKED then PutSource(s, i, irq)
    else IcpIrq(PutSource(s, i, irq.(masked := false)), server, i + IRQ_OFFSET, priority)
  }

  // ---------------------------------------------------------------- operations

  /** What the guest and the devices can do; `cpu` is the calling vCPU's own server. */
  datatype Op =
    | HCppr(cpu: nat, cppr: Byte)
    | HIpi(target: nat, mfrr: Byte)
    | HXirr(cpu: nat)
    | HEoi(cpu: nat, cppr: Byte)
    | SetXive(nr: nat, server: nat, priority: nat)
    | IrqLine(nr: nat, level: bool)

  /** The caller is a vCPU of this machine, and devices raise lines that exist. */
  predicate Callable(s: State, op: Op) {
    match op
    case HCppr(cpu, _) => cpu < |s.servers|
    case HXirr(cpu) => cpu < |s.servers|
    case HEoi(cpu, _) => cpu < |s.servers|
    case IrqLine(nr, _) => IsSource(s, nr)
    case _ => true
  }

  predicate XiveArgumentsOk(s: State, nr: nat, server: nat, priority: nat) {
    IsSource(s, nr) && server < |s.servers| && priority <= 0xff
  }

  function Step(s: State, op: Op): State
    requires Routed(s) && Callable(s, op)
  {
    match op
    case HCppr(cpu, cppr) => SetCppr(s, cpu, cppr)
    case HIpi(target, mfrr) => if target < |s.servers| then SetMfrr(s, target, mfrr) else s
    case HXirr(cpu) => Accept(s, cpu)
    case HEoi(cpu, cppr) => Eoi(s, cpu, cppr)
    case SetXive(nr, server, priority) =>
      if XiveArgumentsOk(s, nr, server, priority)
      then WriteXive(s, nr - IRQ_OFFSET, server, priority)
      else s
    case IrqLine(nr, level) => SetIrq(s, nr - IRQ_OFFSET, level)
  }

  function Init(servers: nat, sources: nat): State {
    State(seq(servers, _ => Server(0, 0, 0, 0xff, false)),
          seq(sources, _ => Source(0, MASKED, false, false)))
  }
}
