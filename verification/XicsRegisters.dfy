/** What the guest writes stays written: which operation sets which register of the
    interrupt controller, step by step and over whole runs.  The resend loop, which goes
    through every source and re-enters the presentation code, sets none. */
module XicsRegisters {
  import opened XicsSpec
  import opened Wrappers

  /** CPPR and MFRR of every server, route and priority of every source are the same. */
  predicate SameRegisters(s: State, t: State) {
    && |t.servers| == |s.servers| && |t.sources| == |s.sources|
    && (forall v :: 0 <= v < |s.servers| ==>
          t.servers[v].cppr == s.servers[v].cppr && t.servers[v].mfrr == s.servers[v].mfrr)
    && (forall i :: 0 <= i < |s.sources| ==>
          t.sources[i].server == s.sources[i].server && t.sources[i].priority == s.sources[i].priority)
  }

  lemma PresentSets(s: State, v: nat, nr: nat, priority: Byte)
    requires v < |s.servers|
    ensures SameRegisters(s, Present(s, v, nr, priority))
  { }

  lemma IcpIrqSets(s: State, v: nat, nr: nat, priority: Byte)
    requires v < |s.servers|
    ensures SameRegisters(s, IcpIrq(s, v, nr, priority))
  {
    PresentSets(s, v, nr, priority);
  }

  lemma CheckIpiSets(s: State, v: nat)
    requires v < |s.servers|
    ensures SameRegisters(s, CheckIpi(s, v))
  {
    PresentSets(s, v, XICS_IPI, s.servers[v].mfrr);
  }

  lemma ResendOneSets(s: State, i: nat)
    requires i < |s.sources| && Routed(s)
    ensures SameRegisters(s, ResendOne(s, i))
  {
    var irq := s.sources[i];
    if irq.rejected {
      IcpIrqSets(PutSource(s, i, irq.(rejected := false)), irq.server, i + IRQ_OFFSET, irq.priority);
    }
  }

  lemma {:induction false} ResendToSets(s: State, n: nat)
    requires Routed(s) && n <= |s.sources|
    ensures SameRegisters(s, ResendTo(s, n))
  {
    if n > 0 {
      ResendToSets(s, n - 1);
      ResendOneSets(ResendTo(s, n - 1), n - 1);
    }
  }

  lemma IcpResendSets(s: State, v: nat)
    requires v < |s.servers| && Routed(s)
    ensures SameRegisters(s, IcpResend(s, v))
  {
    hide SameRegisters, ResendTo, CheckIpi;
    var c := if s.servers[v].mfrr < s.servers[v].cppr then CheckIpi(s, v) else s;
    CheckIpiSets(s, v);
    SameItself(s);
    StillRouted(s, c);
    ResendToSets(c, |c.sources|);
    SameTwice(s, c, ResendTo(c, |c.sources|));
  }

  lemma SameItself(s: State)
    ensures SameRegisters(s, s)
  { }

  lemma StillRouted(s: State, t: State)
    requires SameRegisters(s, t) && Routed(s)
    ensures Routed(t)
  { }

  lemma SameTwice(s: State, u: State, t: State)
    requires SameRegisters(s, u) && SameRegisters(u, t)
    ensures SameRegisters(s, t)
  { }

  // ------------------------------------------------------------------------- a step

  /** What the operation writes into CPPR of server v. */
  function CpprWritten(s: State, op: Op, v: nat): Option<Byte>
    requires v < |s.servers|
  {
    match op
    case HCppr(cpu, cppr) => if v == cpu then Some(cppr) else None
    case HEoi(cpu, cppr) => if v == cpu then Some(cppr) else None
    case HXirr(cpu) => if v == cpu then Some(s.servers[cpu].pending) else None
    case _ => None
  }

  /** What it writes into MFRR. */
  function MfrrWritten(op: Op, v: nat): Option<Byte> {
    if op.HIpi? && op.target == v then Some(op.mfrr) else None
  }

  /** The route and priority it writes for source i. */
  function RouteWritten(s: State, op: Op, i: nat): Option<(nat, nat)> {
    if op.SetXive? && op.nr == i + IRQ_OFFSET && XiveArgumentsOk(s, op.nr, op.server, op.priority)
    then Some((op.server, op.priority)) else None
  }

  function Or<T>(new_: Option<T>, old_: T): T {
    match new_
    case Some(x) => x
    case None => old_
  }

  /** After every operation each register holds what the operation wrote there, and
      otherwise what it held. */
  lemma StepSets(s: State, op: Op)
    requires Routed(s) && Callable(s, op)
    ensures var t := Step(s, op);
            && |t.servers| == |s.servers| && |t.sources| == |s.sources|
            && (forall v :: 0 <= v < |s.servers| ==> t.servers[v].cppr == Or(CpprWritten(s, op, v), s.servers[v].cppr))
            && (forall v :: 0 <= v < |s.servers| ==> t.servers[v].mfrr == Or(MfrrWritten(op, v), s.servers[v].mfrr))
            && (forall i :: 0 <= i < |s.sources| ==>
                  (t.sources[i].server, t.sources[i].priority as nat)
                  == Or(RouteWritten(s, op, i), (s.sources[i].server, s.sources[i].priority as nat)))
  {
    hide IcpResend, CheckIpi, IcpIrq;
    match op
    case HCppr(cpu, cppr) =>
      IcpResendSets(PutServer(s, cpu, s.servers[cpu].(cppr := cppr)), cpu);
    case HEoi(cpu, cppr) =>
      IcpResendSets(PutServer(s, cpu, s.servers[cpu].(cppr := cppr)), cpu);
    case HXirr(cpu) =>
    case HIpi(target, mfrr) =>
      if target < |s.servers| { CheckIpiSets(PutServer(s, target, s.servers[target].(mfrr := mfrr)), target); }
    case SetXive(nr, server, priority) =>
      if XiveArgumentsOk(s, nr, server, priority) {
        var i := nr - IRQ_OFFSET;
        var irq := s.sources[i].(server := server, priority := priority, masked := false);
        IcpIrqSets(PutSource(s, i, irq), server, nr, priority);
      }
    case IrqLine(nr, level) =>
      var irq := s.sources[nr - IRQ_OFFSET];
      IcpIrqSets(s, irq.server, nr, irq.priority);
  }

  // ------------------------------------------------------------------------ any run

  /** Any calls at all, careful or not. */
  ghost predicate IsAnyRun(trace: seq<State>, ops: seq<Op>) {
    && |trace| == |ops| + 1
    && forall k :: 0 <= k < |ops| ==>
         Routed(trace[k]) && Callable(trace[k], ops[k]) && trace[k + 1] == Step(trace[k], ops[k])
  }

  lemma {:induction false} RunShape(trace: seq<State>, ops: seq<Op>, m: nat)
    requires IsAnyRun(trace, ops) && m < |trace|
    ensures |trace[m].servers| == |trace[0].servers| && |trace[m].sources| == |trace[0].sources|
  {
    hide Step;
    if m > 0 {
      RunShape(trace, ops, m - 1);
      StepSets(trace[m - 1], ops[m - 1]);
    }
  }

  /** A server's CPPR is the last value written to it. */
  lemma {:induction false} CpprIsLastWritten(trace: seq<State>, ops: seq<Op>, v: nat, k: nat, m: nat)
    requires IsAnyRun(trace, ops) && k < m < |trace| && v < |trace[0].servers| == |trace[k].servers|
    requires CpprWritten(trace[k], ops[k], v).Some?
    requires forall j :: k < j < m && |trace[j].servers| == |trace[0].servers| ==> CpprWritten(trace[j], ops[j], v).None?
    ensures |trace[m].servers| == |trace[0].servers|
    ensures trace[m].servers[v].cppr == CpprWritten(trace[k], ops[k], v).value
  {
    hide Step, Routed;
    RunShape(trace, ops, m - 1);
    StepSets(trace[m - 1], ops[m - 1]);
    if k < m - 1 { CpprIsLastWritten(trace, ops, v, k, m - 1); }
  }

  /** And its MFRR. */
  lemma {:induction false} MfrrIsLastWritten(trace: seq<State>, ops: seq<Op>, v: nat, k: nat, m: nat)
    requires IsAnyRun(trace, ops) && k < m < |trace| && v < |trace[0].servers|
    requires MfrrWritten(ops[k], v).Some? && forall j :: k < j < m ==> MfrrWritten(ops[j], v).None?
    ensures |trace[m].servers| == |trace[0].servers| && trace[m].servers[v].mfrr == MfrrWritten(ops[k], v).value
  {
    hide Step, Routed;
    RunShape(trace, ops, m - 1);
    StepSets(trace[m - 1], ops[m - 1]);
    if k < m - 1 { MfrrIsLastWritten(trace, ops, v, k, m - 1); }
  }

  // --------------------------------------------------------------------- to begin with

  /** A new controller shows nothing, lets nothing through, and every source is masked. */
  lemma BeginsShut(servers: nat, sources: nat)
    ensures var s := Init(servers, sources);
            && |s.servers| == servers && |s.sources| == sources
            && (forall v :: 0 <= v < servers ==>
                  s.servers[v].xisr == 0 && s.servers[v].cppr == 0 && s.servers[v].mfrr == 0xff && !s.servers[v].line)
            && (forall i :: 0 <= i < sources ==>
                  s.sources[i].priority == 0xff && s.sources[i].server == 0 && !s.sources[i].rejected && !s.sources[i].masked)
  { }

  /** An edge on an unmasked source is shown at once, with its priority and the pin raised,
      exactly when its server's CPPR and what it shows leave room; otherwise it waits. */
  lemma EdgeIsShown(s: State, i: nat)
    requires Routed(s) && i < |s.sources| && s.sources[i].priority != 0xff
    ensures var irq, t := s.sources[i], Step(s, IrqLine(i + IRQ_OFFSET, true));
            var was, now := s.servers[irq.server], t.servers[irq.server];
            if irq.priority < was.cppr && (was.xisr == 0 || irq.priority < was.pending)
            then now.xisr == i + 16 && now.pending == irq.priority && now.line
            else now == was && t.sources[i].rejected
  { }

  /** What a server shows is the same, whatever its CPPR and MFRR. */
  predicate ShowsSame(s: State, t: State, v: nat) {
    v < |s.servers| == |t.servers| && t.servers[v].xisr == s.servers[v].xisr &&
    t.servers[v].pending == s.servers[v].pending && t.servers[v].line == s.servers[v].line
  }

  /** An IPI is shown at once exactly when MFRR is more urgent than CPPR and than anything
      shown; a tie displaces nothing. */
  lemma IpiIsShown(s: State, v: nat, mfrr: Byte)
    requires Routed(s) && v < |s.servers|
    ensures var t := Step(s, HIpi(v, mfrr));
            var was, now := s.servers[v], t.servers[v];
            if mfrr < was.cppr && (was.xisr == 0 || mfrr < was.pending)
            then now.xisr == 2 && now.pending == mfrr && now.line
            else ShowsSame(s, t, v) && t.sources == s.sources
  { }

  /** Lowering CPPR takes back what is shown exactly when it is not more urgent than the new
      value, and sends it to its source; raising it under something shown changes nothing. */
  lemma CpprTakesBack(s: State, v: nat, cppr: Byte)
    requires Routed(s) && v < |s.servers| && (cppr < s.servers[v].cppr || s.servers[v].xisr != 0)
    ensures var t := Step(s, HCppr(v, cppr));
            var was, now := s.servers[v], t.servers[v];
            if cppr < was.cppr && was.xisr != 0 && cppr <= was.pending
            then now.xisr == 0 && !now.line && now.pending == was.pending &&
                 forall i :: 0 <= i < |s.sources| ==>
                   t.sources[i] == if was.xisr == i + 16 then s.sources[i].(rejected := true) else s.sources[i]
            else ShowsSame(s, t, v) && t.sources == s.sources
  { }

  /** An accept takes the interrupt off; an end of interrupt under something shown, and a
      step of one server, leave what others show alone. */
  lemma AcceptTakesOff(s: State, v: nat, cppr: Byte)
    requires Routed(s) && v < |s.servers|
    ensures var t := Step(s, HXirr(v));
            t.servers[v].xisr == 0 && !t.servers[v].line && t.servers[v].pending == s.servers[v].pending &&
            t.sources == s.sources &&
            forall w :: 0 <= w < |s.servers| && w != v ==> t.servers[w] == s.servers[w]
    ensures s.servers[v].xisr != 0 ==>
              ShowsSame(s, Step(s, HEoi(v, cppr)), v) && Step(s, HEoi(v, cppr)).sources == s.sources
  { }

  /** A source that comes up for redelivery is treated like a fresh edge, its flag lowered. */
  lemma TurnIsEdge(s: State, i: nat)
    requires Routed(s) && i < |s.sources|
    ensures !s.sources[i].rejected ==> ResendOne(s, i) == s
    ensures s.sources[i].rejected && s.sources[i].priority != 0xff ==>
              var u := s.(sources := s.sources[i := s.sources[i].(rejected := false)]);
              ResendOne(s, i) == Step(u, IrqLine(i + IRQ_OFFSET, true))
    ensures s.sources[i].rejected && s.sources[i].priority == 0xff ==>
              ResendOne(s, i) == s.(sources := s.sources[i := s.sources[i].(rejected := false)])
  { }
}
