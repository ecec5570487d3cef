/** No interrupt is stranded and none is lost: invariants of every run of the
    interrupt controller, and exactly when an operation breaks them. */
module XicsSafety {
  import opened XicsSpec

  // ------------------------------------------------------------- the invariant

  /** A source less favoured than this stays rejected; a more favoured one is shown. */
  function Bound(ss: Server): Byte {
    if ss.xisr != 0 then ss.pending else ss.cppr
  }

  predicate ServerOk(s: State, v: nat)
    requires v < |s.servers|
  {
    var ss := s.servers[v];
    && (ss.xisr == 0 || ss.xisr == XICS_IPI || IsSource(s, ss.xisr))
    && (ss.xisr != 0 ==> ss.pending < ss.cppr)
    && (ss.line <==> ss.xisr != 0)
    && ss.mfrr >= Bound(ss)
    && (IsSource(s, ss.xisr) ==>
          var irq := s.sources[ss.xisr - IRQ_OFFSET];
          irq.server == v && irq.priority == ss.pending)
  }

  predicate SourceShape(s: State, i: nat)
    requires i < |s.sources|
  {
    var irq := s.sources[i];
    && irq.server < |s.servers|
    && (irq.rejected ==> irq.priority != MASKED)
    && (irq.masked ==> irq.priority == MASKED)
  }

  predicate NotStranded(s: State, i: nat)
    requires i < |s.sources| && SourceShape(s, i)
  {
    s.sources[i].rejected ==> s.sources[i].priority >= Bound(s.servers[s.sources[i].server])
  }

  /** The invariant with the sources from `n` on still waiting for the resend loop. */
  ghost predicate InvTo(s: State, n: int) {
    && WellFormed(s)
    && (forall v :: 0 <= v < |s.servers| ==> ServerOk(s, v))
    && (forall i :: 0 <= i < |s.sources| ==> SourceShape(s, i))
    && (forall i :: 0 <= i < |s.sources| && i < n ==> NotStranded(s, i))
  }

  ghost predicate Inv(s: State) {
    InvTo(s, |s.sources|)
  }

  lemma InvRoutes(s: State, n: int)
    requires InvTo(s, n)
    ensures Routed(s)
  {
    forall i | 0 <= i < |s.sources| ensures s.sources[i].server < |s.servers| {
      assert SourceShape(s, i);
    }
  }

  /** What the invariant means to a guest: whatever is waiting and deliverable is
      covered by an interrupt already shown, at least as favoured, with the pin raised. */
  lemma DeliverableIsPresented(s: State, i: nat)
    requires Inv(s) && i < |s.sources| && s.sources[i].rejected
    requires s.sources[i].server < |s.servers|
    requires s.sources[i].priority < s.servers[s.sources[i].server].cppr
    ensures var ss := s.servers[s.sources[i].server];
            ss.xisr != 0 && ss.line && ss.pending <= s.sources[i].priority
  {
    assert SourceShape(s, i) && NotStranded(s, i);
    assert ServerOk(s, s.sources[i].server);
  }

  // ------------------------------------------- every building block keeps it

  lemma RejectKeeps(s: State, i: nat, n: int)
    requires InvTo(s, n) && i < |s.sources| && s.sources[i].server < |s.servers|
    requires s.sources[i].priority != MASKED && !s.sources[i].masked
    requires s.sources[i].priority >= Bound(s.servers[s.sources[i].server])
    ensures InvTo(Reject(s, i + IRQ_OFFSET), n)
    ensures NotStranded(Reject(s, i + IRQ_OFFSET), i)
  {
    var t := Reject(s, i + IRQ_OFFSET);
    forall v | 0 <= v < |t.servers| ensures ServerOk(t, v) { assert ServerOk(s, v); }
    forall j | 0 <= j < |t.sources| ensures SourceShape(t, j) { assert SourceShape(s, j); }
    forall j | 0 <= j < |t.sources| && j < n ensures NotStranded(t, j) { assert NotStranded(s, j); }
  }

  lemma PresentKeeps(s: State, v: nat, nr: nat, priority: Byte, n: int)
    requires InvTo(s, n) && v < |s.servers|
    requires priority < s.servers[v].cppr
    requires s.servers[v].xisr != 0 ==> priority < s.servers[v].pending
    requires s.servers[v].mfrr >= priority
    requires nr == XICS_IPI || (IsSource(s, nr) &&
               s.sources[nr - IRQ_OFFSET].server == v &&
               s.sources[nr - IRQ_OFFSET].priority == priority)
    ensures InvTo(Present(s, v, nr, priority), n)
  {
    var t := Present(s, v, nr, priority);
    assert ServerOk(s, v);
    forall w | 0 <= w < |t.servers| ensures ServerOk(t, w) { assert ServerOk(s, w); }
    forall j | 0 <= j < |t.sources| ensures SourceShape(t, j) { assert SourceShape(s, j); }
    forall j | 0 <= j < |t.sources| && j < n ensures NotStranded(t, j) {
      assert NotStranded(s, j);
      assert SourceShape(s, j);
    }
  }

  lemma IcpIrqKeeps(s: State, i: nat, n: int)
    requires InvTo(s, n) && i < |s.sources|
    requires !s.sources[i].masked && s.sources[i].priority != MASKED
    ensures s.sources[i].server < |s.servers|
    ensures var t := IcpIrq(s, s.sources[i].server, i + IRQ_OFFSET, s.sources[i].priority);
            InvTo(t, n) && |t.sources| == |s.sources| &&
            (!s.sources[i].rejected || i < n ==> NotStranded(t, i))
  {
    assert SourceShape(s, i);
    var irq := s.sources[i];
    var ss := s.servers[irq.server];
    assert ServerOk(s, irq.server);
    if irq.priority >= ss.cppr || (ss.xisr != 0 && ss.pending <= irq.priority) {
      RejectKeeps(s, i, n);
    } else {
      PresentKeeps(s, irq.server, i + IRQ_OFFSET, irq.priority, n);
    }
  }

  lemma ResendOneKeeps(s: State, i: nat)
    requires InvTo(s, i) && i < |s.sources| && Routed(s)
    ensures InvTo(ResendOne(s, i), i + 1)
  {
    assert SourceShape(s, i);
    var irq := s.sources[i];
    if irq.rejected {
      var t := PutSource(s, i, irq.(rejected := false));
      forall v | 0 <= v < |t.servers| ensures ServerOk(t, v) { assert ServerOk(s, v); }
      forall j | 0 <= j < |t.sources| ensures SourceShape(t, j) { assert SourceShape(s, j); }
      forall j | 0 <= j < |t.sources| && j < i ensures NotStranded(t, j) { assert NotStranded(s, j); }
      IcpIrqKeeps(t, i, i);
    }
  }

  /** The resend loop re-enters icp_irq and may reject sources on either side of its
      cursor; it still discharges every source it has passed. */
  lemma {:induction false} ResendToKeeps(s: State, n: nat)
    requires InvTo(s, 0) && n <= |s.sources| && Routed(s)
    ensures InvTo(ResendTo(s, n), n)
  {
    if n > 0 {
      ResendToKeeps(s, n - 1);
      ResendOneKeeps(ResendTo(s, n - 1), n - 1);
    }
  }

  lemma CheckIpiKeeps(s: State, v: nat, n: int)
    requires v < |s.servers| && s.servers[v].mfrr < s.servers[v].cppr
    requires InvTo(PutServer(s, v, s.servers[v].(mfrr := 0xff)), n)
    ensures InvTo(CheckIpi(s, v), n)
  {
    var u := PutServer(s, v, s.servers[v].(mfrr := 0xff));
    var t := CheckIpi(s, v);
    assert ServerOk(u, v);
    forall w | 0 <= w < |t.servers| ensures ServerOk(t, w) { assert ServerOk(u, w); }
    forall j | 0 <= j < |t.sources| ensures SourceShape(t, j) { assert SourceShape(u, j); }
    forall j | 0 <= j < |t.sources| && j < n ensures NotStranded(t, j) {
      assert NotStranded(u, j);
      assert SourceShape(u, j);
    }
  }

  /** Where the resend loop starts: nothing presented at `v`, a new CPPR just loaded. */
  lemma ResendStartInv(s: State, v: nat, cppr: Byte)
    requires Inv(s) && v < |s.servers| && s.servers[v].xisr == 0
    ensures var t := PutServer(s, v, s.servers[v].(cppr := cppr));
            var c := if t.servers[v].mfrr < t.servers[v].cppr then CheckIpi(t, v) else t;
            InvTo(c, 0) && |c.sources| == |s.sources| && Routed(c) && Routed(t)
  {
    var t := PutServer(s, v, s.servers[v].(cppr := cppr));
    assert ServerOk(s, v);
    var u := PutServer(t, v, t.servers[v].(mfrr := 0xff));
    forall w | 0 <= w < |u.servers| ensures ServerOk(u, w) { assert ServerOk(s, w); }
    forall j | 0 <= j < |u.sources| ensures SourceShape(u, j) { assert SourceShape(s, j); }
    assert InvTo(u, 0);
    if t.servers[v].mfrr < t.servers[v].cppr {
      CheckIpiKeeps(t, v, 0);
      InvRoutes(CheckIpi(t, v), 0);
    } else {
      forall w | 0 <= w < |t.servers| ensures ServerOk(t, w) { assert ServerOk(u, w); }
      forall j | 0 <= j < |t.sources| ensures SourceShape(t, j) { assert SourceShape(u, j); }
    }
    InvRoutes(u, 0);
  }

  /** Any CPPR at all may be loaded while nothing is presented: resending catches up. */
  lemma IcpResendRestores(s: State, v: nat, cppr: Byte)
    requires Inv(s) && v < |s.servers| && s.servers[v].xisr == 0
    ensures var t := PutServer(s, v, s.servers[v].(cppr := cppr));
            Routed(t) && Inv(IcpResend(t, v))
  {
    ResendStartInv(s, v, cppr);
    var t := PutServer(s, v, s.servers[v].(cppr := cppr));
    var c := if t.servers[v].mfrr < t.servers[v].cppr then CheckIpi(t, v) else t;
    ResendToKeeps(c, |c.sources|);
  }

  // --------------------------------------------------- the exported operations

  lemma SetCpprKeeps(s: State, v: nat, cppr: Byte)
    requires Inv(s) && v < |s.servers| && Routed(s)
    ensures Inv(SetCppr(s, v, cppr))
  {
    var ss := s.servers[v];
    assert ServerOk(s, v);
    if cppr >= ss.cppr && ss.xisr == 0 {
      IcpResendRestores(s, v, cppr);
    } else {
      var t := SetCppr(s, v, cppr);
      forall w | 0 <= w < |t.servers| ensures ServerOk(t, w) { assert ServerOk(s, w); }
      forall j | 0 <= j < |t.sources| ensures SourceShape(t, j) { assert SourceShape(s, j); }
      forall j | 0 <= j < |t.sources| ensures NotStranded(t, j) {
        assert NotStranded(s, j) && SourceShape(s, j);
      }
    }
  }

  lemma SetMfrrKeeps(s: State, v: nat, mfrr: Byte)
    requires Inv(s) && v < |s.servers|
    ensures Inv(SetMfrr(s, v, mfrr))
  {
    var t := PutServer(s, v, s.servers[v].(mfrr := mfrr));
    var u := PutServer(s, v, s.servers[v].(mfrr := 0xff));
    assert ServerOk(s, v);
    forall w | 0 <= w < |u.servers| ensures ServerOk(u, w) { assert ServerOk(s, w); }
    forall j | 0 <= j < |u.sources| ensures SourceShape(u, j) && NotStranded(u, j) {
      assert NotStranded(s, j) && SourceShape(s, j);
    }
    if mfrr < s.servers[v].cppr {
      assert PutServer(t, v, t.servers[v].(mfrr := 0xff)) == u;
      CheckIpiKeeps(t, v, |s.sources|);
    } else {
      forall w | 0 <= w < |t.servers| ensures ServerOk(t, w) { assert ServerOk(u, w); }
      forall j | 0 <= j < |t.sources| ensures SourceShape(t, j) && NotStranded(t, j) {
        assert NotStranded(u, j) && SourceShape(u, j);
      }
    }
  }

  /** H_EOI takes CPPR unchecked from the guest.  It is safe exactly when nothing is
      presented, or the new CPPR still lies above what is presented. */
  predicate EoiSafe(s: State, v: nat, cppr: Byte)
    requires v < |s.servers|
  {
    s.servers[v].xisr == 0 || s.servers[v].pending < cppr
  }

  lemma EoiKeepsExactly(s: State, v: nat, cppr: Byte)
    requires Inv(s) && v < |s.servers| && Routed(s)
    ensures Inv(Eoi(s, v, cppr)) <==> EoiSafe(s, v, cppr)
  {
    assert ServerOk(s, v);
    if s.servers[v].xisr == 0 {
      IcpResendRestores(s, v, cppr);
    } else {
      var t := Eoi(s, v, cppr);
      if EoiSafe(s, v, cppr) {
        forall w | 0 <= w < |t.servers| ensures ServerOk(t, w) { assert ServerOk(s, w); }
        forall j | 0 <= j < |t.sources| ensures SourceShape(t, j) && NotStranded(t, j) {
          assert NotStranded(s, j) && SourceShape(s, j);
        }
      } else {
        assert !ServerOk(t, v);
      }
    }
  }

  /** H_XIRR with nothing presented copies a stale pending priority into CPPR.  That does
      no harm unless it raises CPPR above something that waits at this server. */
  predicate AcceptSafe(s: State, v: nat)
    requires v < |s.servers|
  {
    var ss := s.servers[v];
    || ss.xisr != 0
    || ss.pending <= ss.cppr
    || (ss.mfrr >= ss.pending &&
        forall i :: 0 <= i < |s.sources| && s.sources[i].rejected && s.sources[i].server == v ==>
          s.sources[i].priority >= ss.pending)
  }

  lemma AcceptKeepsExactly(s: State, v: nat)
    requires Inv(s) && v < |s.servers|
    ensures Inv(Accept(s, v)) <==> AcceptSafe(s, v)
  {
    var t := Accept(s, v);
    assert ServerOk(s, v);
    if AcceptSafe(s, v) {
      forall w | 0 <= w < |t.servers| ensures ServerOk(t, w) { assert ServerOk(s, w); }
      forall j | 0 <= j < |t.sources| ensures SourceShape(t, j) && NotStranded(t, j) {
        assert NotStranded(s, j) && SourceShape(s, j);
      }
    } else if Inv(t) {
      assert ServerOk(t, v);
      forall i | 0 <= i < |s.sources| && s.sources[i].rejected && s.sources[i].server == v
        ensures s.sources[i].priority >= s.servers[v].pending
      {
        assert SourceShape(t, i) && NotStranded(t, i);
      }
    }
  }

  /** set-xive is safe on a source that is neither presented nor waiting, and on one
      that is if its new route leaves it where it belongs. */
  predicate XiveSafe(s: State, i: nat, server: nat, priority: Byte)
    requires i < |s.sources| && server < |s.servers|
  {
    && (forall w :: 0 <= w < |s.servers| && s.servers[w].xisr == i + IRQ_OFFSET ==>
          server == w && priority == s.servers[w].pending)
    && (s.sources[i].rejected ==> priority != MASKED && priority >= Bound(s.servers[server]))
  }

  lemma WriteXiveKeepsExactly(s: State, i: nat, server: nat, priority: Byte)
    requires Inv(s) && i < |s.sources| && server < |s.servers|
    ensures Inv(WriteXive(s, i, server, priority)) <==> XiveSafe(s, i, server, priority)
  {
    assert SourceShape(s, i);
    var t := PutSource(s, i, s.sources[i].(server := server, priority := priority));
    if s.sources[i].masked && priority != MASKED {
      var u := PutSource(s, i, t.sources[i].(masked := false));
      MaskedIsNotPresented(s, i);
      assert XiveSafe(s, i, server, priority);
      forall w | 0 <= w < |u.servers| ensures ServerOk(u, w) { assert ServerOk(s, w); }
      forall j | 0 <= j < |u.sources| ensures SourceShape(u, j) && NotStranded(u, j) {
        assert SourceShape(s, j) && NotStranded(s, j);
      }
      IcpIrqKeeps(u, i, |u.sources|);
    } else if XiveSafe(s, i, server, priority) {
      forall w | 0 <= w < |t.servers| ensures ServerOk(t, w) { assert ServerOk(s, w); }
      forall j | 0 <= j < |t.sources| ensures SourceShape(t, j) && NotStranded(t, j) {
        assert SourceShape(s, j) && NotStranded(s, j);
      }
    } else {
      assert WriteXive(s, i, server, priority) == t;
      if Inv(t) {
        assert SourceShape(t, i) && NotStranded(t, i);
        forall w | 0 <= w < |s.servers| && s.servers[w].xisr == i + IRQ_OFFSET
          ensures server == w && priority == s.servers[w].pending
        {
          assert ServerOk(t, w);
        }
      }
    }
  }

  lemma MaskedIsNotPresented(s: State, i: nat)
    requires Inv(s) && i < |s.sources| && s.sources[i].masked
    ensures forall w :: 0 <= w < |s.servers| ==> s.servers[w].xisr != i + IRQ_OFFSET
  {
    forall w | 0 <= w < |s.servers| ensures s.servers[w].xisr != i + IRQ_OFFSET {
      assert SourceShape(s, i) && ServerOk(s, w);
    }
  }

  lemma SetIrqKeeps(s: State, i: nat, level: bool)
    requires Inv(s) && i < |s.sources| && Routed(s)
    ensures Inv(SetIrq(s, i, level))
  {
    assert SourceShape(s, i);
    if level {
      if s.sources[i].priority == MASKED {
        var t := SetIrq(s, i, level);
        forall w | 0 <= w < |t.servers| ensures ServerOk(t, w) { assert ServerOk(s, w); }
        forall j | 0 <= j < |t.sources| ensures SourceShape(t, j) && NotStranded(t, j) {
          assert SourceShape(s, j) && NotStranded(s, j);
        }
      } else {
        IcpIrqKeeps(s, i, |s.sources|);
      }
    }
  }

  // ----------------------------------------------------------------- all runs

  /** The guest behaves: the three guards above, and nothing else. */
  predicate Legal(s: State, op: Op) {
    && Callable(s, op)
    && match op
       case HXirr(cpu) => AcceptSafe(s, cpu)
       case HEoi(cpu, cppr) => EoiSafe(s, cpu, cppr)
       case SetXive(nr, server, priority) =>
         XiveArgumentsOk(s, nr, server, priority) ==>
           XiveSafe(s, nr - IRQ_OFFSET, server, priority)
       case _ => true
  }

  lemma StepKeeps(s: State, op: Op)
    requires Inv(s) && Legal(s, op)
    ensures Routed(s) && Inv(Step(s, op))
  {
    InvRoutes(s, |s.sources|);
    match op
    case HCppr(cpu, cppr) => SetCpprKeeps(s, cpu, cppr);
    case HIpi(target, mfrr) => if target < |s.servers| { SetMfrrKeeps(s, target, mfrr); }
    case HXirr(cpu) => AcceptKeepsExactly(s, cpu);
    case HEoi(cpu, cppr) => EoiKeepsExactly(s, cpu, cppr);
    case SetXive(nr, server, priority) =>
      if XiveArgumentsOk(s, nr, server, priority) {
        WriteXiveKeepsExactly(s, nr - IRQ_OFFSET, server, priority);
      }
    case IrqLine(nr, level) => SetIrqKeeps(s, nr - IRQ_OFFSET, level);
  }

  lemma InitInv(servers: nat, sources: nat)
    requires 0 < servers && IRQ_OFFSET + sources <= XISR_LIMIT
    ensures Inv(Init(servers, sources))
  {
    var s := Init(servers, sources);
    forall v | 0 <= v < |s.servers| ensures ServerOk(s, v) { }
    forall i | 0 <= i < |s.sources| ensures SourceShape(s, i) && NotStranded(s, i) { }
  }

  /** `trace` is a run: each state follows from the one before by a legal operation. */
  ghost predicate IsRun(trace: seq<State>, ops: seq<Op>) {
    && |trace| == |ops| + 1
    && (forall k :: 0 <= k < |ops| ==>
          Routed(trace[k]) && Legal(trace[k], ops[k]) && trace[k + 1] == Step(trace[k], ops[k]))
  }

  /** Safety of every run, of any length, for any number of servers and sources. */
  lemma {:induction false} NoInterruptIsStranded(trace: seq<State>, ops: seq<Op>, servers: nat, sources: nat, k: nat)
    requires 0 < servers && IRQ_OFFSET + sources <= XISR_LIMIT
    requires IsRun(trace, ops) && trace[0] == Init(servers, sources)
    requires k < |trace|
    ensures Inv(trace[k])
  {
    if k == 0 {
      InitInv(servers, sources);
    } else {
      NoInterruptIsStranded(trace, ops, servers, sources, k - 1);
      StepKeeps(trace[k - 1], ops[k - 1]);
    }
  }

  /** The guard on H_XIRR is needed on real runs: here a guest that lowers CPPR under a
      presented interrupt and then reads XIRR with nothing presented leaves source 17
      rejected, deliverable and unannounced. */
  lemma AcceptCanStrand(trace: seq<State>, ops: seq<Op>)
    requires ops == [HCppr(0, 0xff), SetXive(16, 0, 5), SetXive(17, 0, 4),
                     IrqLine(16, true), HCppr(0, 3), IrqLine(17, true)]
    requires |trace| == 7 && trace[0] == Init(1, 2)
    requires forall k :: 0 <= k < 6 ==>
               Routed(trace[k]) && Callable(trace[k], ops[k]) && trace[k + 1] == Step(trace[k], ops[k])
    ensures IsRun(trace, ops)
    ensures |trace[6].servers| == 1 && |trace[6].sources| == 2
    ensures var t := Accept(trace[6], 0);
            t.sources[1].rejected && t.sources[1].server == 0 &&
            t.sources[1].priority < t.servers[0].cppr && t.servers[0].xisr == 0 && !t.servers[0].line
  {
    var idle := Source(0, MASKED, false, false);
    assert trace[1] == State([Server(0, 0xff, 0, 0xff, false)], [idle, idle]) by {
      assert ResendTo(PutServer(trace[0], 0, Server(0, 0xff, 0, 0xff, false)), 1)
          == PutServer(trace[0], 0, Server(0, 0xff, 0, 0xff, false));
    }
    assert trace[2] == State([Server(0, 0xff, 0, 0xff, false)], [Source(0, 5, false, false), idle]);
    assert trace[3] == State([Server(0, 0xff, 0, 0xff, false)],
                             [Source(0, 5, false, false), Source(0, 4, false, false)]);
    assert trace[4] == State([Server(16, 0xff, 5, 0xff, true)],
                             [Source(0, 5, false, false), Source(0, 4, false, false)]);
    assert trace[5] == State([Server(0, 3, 5, 0xff, false)],
                             [Source(0, 5, true, false), Source(0, 4, false, false)]);
    assert trace[6] == State([Server(0, 3, 5, 0xff, false)],
                             [Source(0, 5, true, false), Source(0, 4, true, false)]);
  }
}
