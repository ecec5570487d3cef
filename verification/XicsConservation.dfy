/** A raised source is held somewhere (presented, rejected or masked-pending) until an
    accept returns exactly that source, and nothing is ever held that was not raised.  None
    of this needs the guest to be careful with CPPR: it holds also in runs that strand
    interrupts, as long as no waiting source is masked. */
module XicsConservation {
  import opened XicsSpec
  import opened XicsSafety

  predicate Presented(s: State, i: nat) {
    exists v :: 0 <= v < |s.servers| && s.servers[v].xisr == i + IRQ_OFFSET
  }

  /** The source is shown to some server, or waits to be shown again. */
  predicate Live(s: State, i: nat)
    requires i < |s.sources|
  {
    s.sources[i].rejected || Presented(s, i)
  }

  predicate Held(s: State, i: nat)
    requires i < |s.sources|
  {
    Live(s, i) || s.sources[i].masked
  }

  /** The sources differ at most in their flags `rejected`. */
  predicate SameRoutes(s: State, t: State) {
    && |s.sources| == |t.sources| && |s.servers| == |t.servers|
    && forall i :: 0 <= i < |s.sources| ==>
         t.sources[i] == s.sources[i].(rejected := t.sources[i].rejected)
  }

  /** Exactly the same sources live, and so exactly the same held. */
  predicate SameLive(s: State, t: State) {
    SameRoutes(s, t) && forall i :: 0 <= i < |s.sources| ==> (Live(t, i) <==> Live(s, i))
  }

  /** As SameLive, except that source `i` now lives. */
  predicate LivePlus(s: State, t: State, i: nat)
    requires i < |s.sources|
  {
    SameRoutes(s, t) && forall j :: 0 <= j < |s.sources| ==> (Live(t, j) <==> Live(s, j) || j == i)
  }

  /** No source that is shown or waits is masked: what keeps the resend loop from dropping it. */
  predicate Unmasked(s: State) {
    && Routed(s)
    && forall i :: 0 <= i < |s.sources| && Live(s, i) ==> s.sources[i].priority != MASKED
  }

  lemma RejectHolds(s: State, i: nat)
    requires i < |s.sources|
    ensures LivePlus(s, Reject(s, i + IRQ_OFFSET), i)
  {
    var t := Reject(s, i + IRQ_OFFSET);
    forall j | 0 <= j < |s.sources| ensures Live(t, j) <==> Live(s, j) || j == i {
      assert Presented(s, j) <==> Presented(t, j) by { assert s.servers == t.servers; }
    }
  }

  /** Nothing is dropped when a new interrupt takes a server's place: the one it
      displaces goes back to its source. */
  lemma PresentHeld(s: State, v: nat, nr: nat, priority: Byte, j: nat)
    requires v < |s.servers| && j < |s.sources|
    ensures var t := Present(s, v, nr, priority);
            SameRoutes(s, t) && (Live(t, j) <==> Live(s, j) || nr == j + IRQ_OFFSET)
  {
    var t := Present(s, v, nr, priority);
    if Presented(s, j) {
      var w :| 0 <= w < |s.servers| && s.servers[w].xisr == j + IRQ_OFFSET;
      assert w != v ==> t.servers[w].xisr == j + IRQ_OFFSET;
    }
    if Presented(t, j) {
      var w :| 0 <= w < |t.servers| && t.servers[w].xisr == j + IRQ_OFFSET;
      assert w != v ==> s.servers[w].xisr == j + IRQ_OFFSET;
    }
    if nr == j + IRQ_OFFSET {
      assert t.servers[v].xisr == j + IRQ_OFFSET;
    }
  }

  lemma IcpIrqHolds(s: State, v: nat, i: nat, priority: Byte)
    requires v < |s.servers| && i < |s.sources|
    ensures LivePlus(s, IcpIrq(s, v, i + IRQ_OFFSET, priority), i)
  {
    RejectHolds(s, i);
    forall j | 0 <= j < |s.sources| {
      PresentHeld(s, v, i + IRQ_OFFSET, priority, j);
    }
    PresentHeld(s, v, i + IRQ_OFFSET, priority, i);
  }

  lemma CheckIpiHeld(s: State, v: nat)
    requires v < |s.servers|
    ensures SameLive(s, CheckIpi(s, v))
  {
    forall j | 0 <= j < |s.sources| {
      PresentHeld(s, v, XICS_IPI, s.servers[v].mfrr, j);
    }
  }

  /** One turn of the resend loop loses its source exactly when that source was
      rejected, has since been masked to 0xff, and is shown nowhere. */
  lemma ResendOneLosesExactly(s: State, i: nat, j: nat)
    requires i < |s.sources| && j < |s.sources| && Routed(s)
    ensures var t := ResendOne(s, i);
            SameRoutes(s, t) &&
            (Live(t, j) <==>
               Live(s, j) && !(j == i && s.sources[i].rejected && s.sources[i].priority == MASKED && !Presented(s, i)))
  {
    var irq := s.sources[i];
    if irq.rejected {
      var t := PutSource(s, i, irq.(rejected := false));
      assert Presented(t, i) <==> Presented(s, i) by { assert t.servers == s.servers; }
      assert Presented(t, j) <==> Presented(s, j) by { assert t.servers == s.servers; }
      if irq.priority != MASKED {
        IcpIrqHolds(t, irq.server, i, irq.priority);
      }
    }
  }

  lemma {:induction false} ResendToHeld(s: State, n: nat)
    requires Unmasked(s) && n <= |s.sources|
    ensures SameLive(s, ResendTo(s, n))
  {
    if n > 0 {
      ResendToHeld(s, n - 1);
      var t := ResendTo(s, n - 1);
      forall j | 0 <= j < |s.sources| {
        ResendOneLosesExactly(t, n - 1, j);
      }
    }
  }

  /** When its turn comes the source is masked, waits, and is shown nowhere. */
  predicate DropsAt(s: State, i: nat)
    requires i < |s.sources| && Routed(s)
  {
    var u := ResendTo(s, i);
    s.sources[i].priority == MASKED && u.sources[i].rejected && !Presented(u, i)
  }

  /** What the whole loop loses in any state, also of sources that it displaces itself. */
  lemma {:induction false} ResendToLosesExactly(s: State, n: nat, j: nat)
    requires Routed(s) && n <= |s.sources| && j < |s.sources|
    ensures SameRoutes(s, ResendTo(s, n))
    ensures Live(ResendTo(s, n), j) <==> Live(s, j) && !(j < n && DropsAt(s, j))
  {
    hide Presented, ResendOne, Live;
    if n > 0 {
      ResendToLosesExactly(s, n - 1, j);
      ResendOneLosesExactly(ResendTo(s, n - 1), n - 1, j);
    }
  }

  lemma SameServers(s: State, t: State, v: nat)
    requires v < |s.servers| == |t.servers| && s.sources == t.sources
    requires t.servers == s.servers[v := t.servers[v]] && t.servers[v].xisr == s.servers[v].xisr
    ensures SameLive(s, t)
  {
    forall i | 0 <= i < |s.sources| ensures Presented(s, i) <==> Presented(t, i) {
      if Presented(s, i) {
        var w :| 0 <= w < |s.servers| && s.servers[w].xisr == i + IRQ_OFFSET;
        assert t.servers[w].xisr == i + IRQ_OFFSET;
      }
      if Presented(t, i) {
        var w :| 0 <= w < |t.servers| && t.servers[w].xisr == i + IRQ_OFFSET;
        assert s.servers[w].xisr == i + IRQ_OFFSET;
      }
    }
  }

  lemma IcpResendHeld(s: State, v: nat)
    requires Unmasked(s) && v < |s.servers|
    ensures SameLive(s, IcpResend(s, v))
  {
    var c := if s.servers[v].mfrr < s.servers[v].cppr then CheckIpi(s, v) else s;
    CheckIpiHeld(s, v);
    ResendToHeld(c, |c.sources|);
  }

  lemma SetCpprHeld(s: State, v: nat, cppr: Byte)
    requires Unmasked(s) && v < |s.servers|
    ensures SameLive(s, SetCppr(s, v, cppr))
  {
    var t := PutServer(s, v, s.servers[v].(cppr := cppr));
    SameServers(s, t, v);
    if cppr >= s.servers[v].cppr && s.servers[v].xisr == 0 {
      IcpResendHeld(t, v);
    } else {
      SetCpprQuietly(s, v, cppr);
    }
  }

  /** Without a resend, whatever is masked. */
  lemma SetCpprQuietly(s: State, v: nat, cppr: Byte)
    requires Routed(s) && v < |s.servers| && (cppr < s.servers[v].cppr || s.servers[v].xisr != 0)
    ensures SameLive(s, SetCppr(s, v, cppr))
  {
    var ss := s.servers[v];
    SameServers(s, PutServer(s, v, ss.(cppr := cppr)), v);
    if cppr < ss.cppr && ss.xisr != 0 && cppr <= ss.pending {
      forall j | 0 <= j < |s.sources| { WithdrawHeld(s, v, cppr, j); }
    }
  }

  lemma WithdrawHeld(s: State, v: nat, cppr: Byte, j: nat)
    requires v < |s.servers| && Routed(s) && j < |s.sources|
    requires s.servers[v].xisr != 0 && cppr < s.servers[v].cppr && cppr <= s.servers[v].pending
    ensures var r := SetCppr(s, v, cppr);
            SameRoutes(s, r) && (Live(r, j) <==> Live(s, j))
  {
    var r := SetCppr(s, v, cppr);
    if Presented(s, j) {
      var w :| 0 <= w < |s.servers| && s.servers[w].xisr == j + IRQ_OFFSET;
      assert w != v ==> r.servers[w].xisr == j + IRQ_OFFSET;
    }
    if Presented(r, j) {
      var w :| 0 <= w < |r.servers| && r.servers[w].xisr == j + IRQ_OFFSET;
      assert w != v;
      assert s.servers[w].xisr == j + IRQ_OFFSET;
    }
    assert s.servers[v].xisr == j + IRQ_OFFSET ==> Presented(s, j);
  }

  /** The interrupt an H_XIRR hands to the guest, if it is a source. */
  predicate Takes(s: State, op: Op, i: nat) {
    op.HXirr? && op.cpu < |s.servers| && s.servers[op.cpu].xisr == i + IRQ_OFFSET
  }

  predicate Raises(op: Op, i: nat) {
    op == IrqLine(i + IRQ_OFFSET, true)
  }

  lemma AcceptTakes(s: State, v: nat, j: nat)
    requires v < |s.servers| && j < |s.sources|
    ensures SameRoutes(s, Accept(s, v))
    ensures Live(s, j) ==> Live(Accept(s, v), j) || s.servers[v].xisr == j + IRQ_OFFSET
    ensures Live(Accept(s, v), j) ==> Live(s, j)
  {
    var t := Accept(s, v);
    if Presented(s, j) {
      var w :| 0 <= w < |s.servers| && s.servers[w].xisr == j + IRQ_OFFSET;
      assert w != v ==> t.servers[w].xisr == j + IRQ_OFFSET;
    }
    if Presented(t, j) {
      var w :| 0 <= w < |t.servers| && t.servers[w].xisr == j + IRQ_OFFSET;
      assert w != v;
      assert s.servers[w].xisr == j + IRQ_OFFSET;
    }
  }

  lemma WriteXiveHeld(s: State, i: nat, server: nat, priority: Byte, j: nat)
    requires Routed(s) && i < |s.sources| && server < |s.servers| && j < |s.sources|
    ensures var t := WriteXive(s, i, server, priority);
            |t.sources| == |s.sources| && Routed(t) && (Held(t, j) <==> Held(s, j))
    ensures var t := WriteXive(s, i, server, priority);
            Live(s, j) ==> Live(t, j) && (j != i ==> t.sources[j].priority == s.sources[j].priority)
    ensures var t := WriteXive(s, i, server, priority);
            Live(t, j) && !Live(s, j) ==> j == i && priority != MASKED
    ensures WriteXive(s, i, server, priority).sources[i].priority == priority
  {
    var irq := s.sources[i].(server := server, priority := priority);
    var t := PutSource(s, i, irq.(masked := false));
    var u := PutSource(s, i, irq);
    assert (Presented(s, j) <==> Presented(t, j)) && (Presented(s, j) <==> Presented(u, j)) by {
      assert t.servers == s.servers == u.servers;
    }
    IcpIrqHolds(t, server, i, priority);
  }

  lemma SetIrqHolds(s: State, i: nat, level: bool, j: nat)
    requires i < |s.sources| && Routed(s) && j < |s.sources|
    ensures var t := SetIrq(s, i, level);
            |t.sources| == |s.sources| && Routed(t) && t.sources[j].priority == s.sources[j].priority &&
            (Held(t, j) <==> Held(s, j) || (level && j == i)) &&
            (Live(t, j) <==> Live(s, j) || (level && j == i && s.sources[i].priority != MASKED))
  {
    if level {
      var irq := s.sources[i];
      if irq.priority == MASKED {
        var t := SetIrq(s, i, level);
        assert Presented(s, j) <==> Presented(t, j) by { assert t.servers == s.servers; }
      } else {
        IcpIrqHolds(s, irq.server, i, irq.priority);
      }
    }
  }

  // ---------------------------------------------------------------- every run

  /** The one thing asked of the guest: not to mask a source that is shown or waits. */
  predicate Careful(s: State, op: Op) {
    && Callable(s, op)
    && (op.SetXive? && XiveArgumentsOk(s, op.nr, op.server, op.priority) && op.priority == MASKED ==>
          !Live(s, op.nr - IRQ_OFFSET))
  }

  /** What a step does to one source: held afterwards iff raised by this step, or held
      before and not taken by it (a source can be taken and still wait as rejected). */
  predicate Conserves(s: State, op: Op, t: State, i: nat)
    requires i < |s.sources|
  {
    && |t.sources| == |s.sources|
    && (Held(s, i) ==> Held(t, i) || Takes(s, op, i))
    && (Held(t, i) ==> Held(s, i) || Raises(op, i))
    && (Raises(op, i) ==> Held(t, i))
  }

  /** Every operation conserves every source, careful or not. */
  lemma StepConserves(s: State, op: Op, i: nat)
    requires Unmasked(s) && Callable(s, op) && i < |s.sources|
    ensures Conserves(s, op, Step(s, op), i)
  {
    hide Presented, SetCppr, SetMfrr, Accept, Eoi, WriteXive, SetIrq;
    match op
    case HCppr(cpu, cppr) => SetCpprHeld(s, cpu, cppr);
    case HIpi(target, mfrr) => if target < |s.servers| { SetMfrrHeld(s, target, mfrr); }
    case HXirr(cpu) => AcceptTakes(s, cpu, i);
    case HEoi(cpu, cppr) => EoiHeld(s, cpu, cppr);
    case SetXive(nr, server, priority) =>
      if XiveArgumentsOk(s, nr, server, priority) { WriteXiveHeld(s, nr - IRQ_OFFSET, server, priority, i); }
    case IrqLine(nr, level) => SetIrqHolds(s, nr - IRQ_OFFSET, level, i);
  }

  lemma SetMfrrHeld(s: State, v: nat, mfrr: Byte)
    requires v < |s.servers|
    ensures SameLive(s, SetMfrr(s, v, mfrr))
  {
    var t := PutServer(s, v, s.servers[v].(mfrr := mfrr));
    SameServers(s, t, v);
    CheckIpiHeld(t, v);
  }

  lemma EoiHeld(s: State, v: nat, cppr: Byte)
    requires Unmasked(s) && v < |s.servers|
    ensures SameLive(s, Eoi(s, v, cppr))
  {
    var t := PutServer(s, v, s.servers[v].(cppr := cppr));
    SameServers(s, t, v);
    IcpResendHeld(t, v);
  }

  /** The operation ends in the resend loop. */
  predicate Resends(s: State, op: Op)
    requires Callable(s, op)
  {
    match op
    case HCppr(cpu, cppr) => cppr >= s.servers[cpu].cppr && s.servers[cpu].xisr == 0
    case HEoi(cpu, _) => s.servers[cpu].xisr == 0
    case _ => false
  }

  /** The state in which that loop starts. */
  function LoopStart(s: State, v: nat, cppr: Byte): State
    requires v < |s.servers|
  {
    var t := PutServer(s, v, s.servers[v].(cppr := cppr));
    if t.servers[v].mfrr < cppr then CheckIpi(t, v) else t
  }

  lemma LoopStartLive(s: State, v: nat, cppr: Byte)
    requires v < |s.servers|
    ensures SameLive(s, LoopStart(s, v, cppr))
  {
    var t := PutServer(s, v, s.servers[v].(cppr := cppr));
    SameServers(s, t, v);
    CheckIpiHeld(t, v);
  }

  /** In any state, an operation other than an accept loses a source if and only if it
      resends and the loop comes to the source while it is masked, waiting, shown nowhere,
      and not remembered as a masked edge. */
  lemma StepLosesExactly(s: State, op: Op, i: nat)
    requires Routed(s) && Callable(s, op) && !op.HXirr? && i < |s.sources|
    ensures |Step(s, op).sources| == |s.sources|
    ensures Held(s, i) && !Held(Step(s, op), i) <==>
            Resends(s, op) && !s.sources[i].masked &&
            var c := LoopStart(s, op.cpu, op.cppr);
            Routed(c) && |c.sources| == |s.sources| && DropsAt(c, i)
  {
    hide Presented, Accept, WriteXive, SetIrq, SetMfrr, DropsAt, ResendTo;
    match op
    case HCppr(cpu, cppr) =>
      if Resends(s, op) { LoopLoses(s, cpu, cppr, i); } else { SetCpprQuietly(s, cpu, cppr); }
    case HIpi(target, mfrr) => if target < |s.servers| { SetMfrrHeld(s, target, mfrr); }
    case HEoi(cpu, cppr) =>
      if Resends(s, op) { LoopLoses(s, cpu, cppr, i); }
      else { SameServers(s, PutServer(s, cpu, s.servers[cpu].(cppr := cppr)), cpu); }
    case SetXive(nr, server, priority) =>
      if XiveArgumentsOk(s, nr, server, priority) { WriteXiveHeld(s, nr - IRQ_OFFSET, server, priority, i); }
    case IrqLine(nr, level) => SetIrqHolds(s, nr - IRQ_OFFSET, level, i);
  }

  lemma LoopLoses(s: State, v: nat, cppr: Byte, i: nat)
    requires Routed(s) && v < |s.servers| && i < |s.sources|
    ensures var c := LoopStart(s, v, cppr);
            && SameRoutes(s, c) && Routed(c)
            && SameRoutes(s, ResendTo(c, |c.sources|))
            && (Live(ResendTo(c, |c.sources|), i) <==> Live(s, i) && !DropsAt(c, i))
    ensures DropsAt(LoopStart(s, v, cppr), i) ==> Live(s, i)
  {
    var c := LoopStart(s, v, cppr);
    LoopStartLive(s, v, cppr);
    ResendToLosesExactly(c, |c.sources|, i);
    ResendToLosesExactly(c, i, i);
  }

  /** Being careful is exactly what keeps waiting sources unmasked. */
  lemma UnmaskedExactly(s: State, op: Op)
    requires Unmasked(s) && Callable(s, op)
    ensures |Step(s, op).sources| == |s.sources|
    ensures Unmasked(Step(s, op)) <==> Careful(s, op)
  {
    hide Presented, SetCppr, SetMfrr, Eoi, WriteXive, SetIrq;
    match op
    case HCppr(cpu, cppr) => SetCpprHeld(s, cpu, cppr);
    case HIpi(target, mfrr) => if target < |s.servers| { SetMfrrHeld(s, target, mfrr); }
    case HXirr(cpu) => forall j | 0 <= j < |s.sources| { AcceptTakes(s, cpu, j); }
    case HEoi(cpu, cppr) => EoiHeld(s, cpu, cppr);
    case SetXive(nr, server, priority) =>
      if XiveArgumentsOk(s, nr, server, priority) {
        var i := nr - IRQ_OFFSET;
        WriteXiveHeld(s, i, server, priority, i);
        forall j | 0 <= j < |s.sources| { WriteXiveHeld(s, i, server, priority, j); }
      }
    case IrqLine(nr, level) =>
      var t := SetIrq(s, nr - IRQ_OFFSET, level);
      SetIrqHolds(s, nr - IRQ_OFFSET, level, nr - IRQ_OFFSET);
      forall j | 0 <= j < |s.sources|
        ensures t.sources[j].priority == s.sources[j].priority && (Live(t, j) ==> s.sources[j].priority != MASKED)
      {
        SetIrqHolds(s, nr - IRQ_OFFSET, level, j);
      }
  }

  /** A run of careful operations, which may leave interrupts stranded. */
  ghost predicate IsCarefulRun(trace: seq<State>, ops: seq<Op>) {
    && |trace| == |ops| + 1
    && forall k :: 0 <= k < |ops| ==>
         Routed(trace[k]) && Careful(trace[k], ops[k]) && trace[k + 1] == Step(trace[k], ops[k])
  }

  /** Runs that strand nothing are among them. */
  lemma LegalIsCareful(s: State, op: Op)
    requires Inv(s) && Legal(s, op)
    ensures Unmasked(s) && Careful(s, op)
  {
    InvRoutes(s, |s.sources|);
    forall i | 0 <= i < |s.sources| && Live(s, i) ensures s.sources[i].priority != MASKED {
      assert SourceShape(s, i);
      if Presented(s, i) {
        var v :| 0 <= v < |s.servers| && s.servers[v].xisr == i + IRQ_OFFSET;
        assert ServerOk(s, v);
      }
    }
    forall v | 0 <= v < |s.servers| && s.servers[v].xisr != 0 ensures s.servers[v].pending != MASKED {
      assert ServerOk(s, v);
    }
  }

  lemma {:induction false} RunUnmasked(trace: seq<State>, ops: seq<Op>, k: nat)
    requires IsCarefulRun(trace, ops) && Unmasked(trace[0]) && k < |trace|
    ensures Unmasked(trace[k]) && |trace[k].sources| == |trace[0].sources|
  {
    if k > 0 {
      RunUnmasked(trace, ops, k - 1);
      UnmaskedExactly(trace[k - 1], ops[k - 1]);
    }
  }

  /** Nothing is lost: a source raised at step `k` is held at every later state `m`,
      unless some accept in between returned exactly that source. */
  lemma {:induction false} RaisedIsNotLost(trace: seq<State>, ops: seq<Op>, i: nat, k: nat, m: nat)
    requires IsCarefulRun(trace, ops) && Unmasked(trace[0]) && i < |trace[0].sources|
    requires k < m < |trace| && Raises(ops[k], i)
    requires forall j :: k < j < m ==> !Takes(trace[j], ops[j], i)
    ensures |trace[m].sources| == |trace[0].sources| && Held(trace[m], i)
  {
    RunUnmasked(trace, ops, m);
    RunUnmasked(trace, ops, m - 1);
    StepConserves(trace[m - 1], ops[m - 1], i);
    if m - 1 > k {
      RaisedIsNotLost(trace, ops, i, k, m - 1);
    }
  }

  lemma InitUnmasked(servers: nat, sources: nat)
    requires 0 < servers
    ensures Unmasked(Init(servers, sources))
  { }

  /** Nothing is invented: a source handed to the guest was raised earlier in the run. */
  lemma {:induction false} TakenWasRaised(trace: seq<State>, ops: seq<Op>, servers: nat, sources: nat, i: nat, m: nat)
    requires 0 < servers && IsCarefulRun(trace, ops) && trace[0] == Init(servers, sources)
    requires i < sources && m < |ops| && Takes(trace[m], ops[m], i)
    ensures exists k :: 0 <= k < m && Raises(ops[k], i)
  {
    InitUnmasked(servers, sources);
    RunUnmasked(trace, ops, m);
    assert Held(trace[m], i);
    HeldWasRaised(trace, ops, servers, sources, i, m);
  }

  lemma {:induction false} HeldWasRaised(trace: seq<State>, ops: seq<Op>, servers: nat, sources: nat, i: nat, m: nat)
    requires 0 < servers && IsCarefulRun(trace, ops) && trace[0] == Init(servers, sources)
    requires i < sources && m < |trace| && |trace[m].sources| == sources && Held(trace[m], i)
    ensures exists k :: 0 <= k < m && Raises(ops[k], i)
  {
    hide Step;
    InitUnmasked(servers, sources);
    if m != 0 {
      RunUnmasked(trace, ops, m - 1);
      StepConserves(trace[m - 1], ops[m - 1], i);
      if !Raises(ops[m - 1], i) {
        HeldWasRaised(trace, ops, servers, sources, i, m - 1);
      }
    }
  }

  /** Care is needed: a source that waits, masked by the guest, is gone after the next
      H_EOI, and no accept ever returned it. */
  lemma MaskingLoses(s: State)
    requires s == State([Server(0, 5, 0, 0xff, false)], [Source(0, 7, true, false)])
    ensures Inv(s) && Held(s, 0) && Callable(s, SetXive(16, 0, MASKED)) && !Careful(s, SetXive(16, 0, MASKED))
    ensures var t := WriteXive(s, 0, 0, MASKED);
            Step(s, SetXive(16, 0, MASKED)) == t && Routed(t) && Callable(t, HEoi(0, 5)) &&
            |Step(t, HEoi(0, 5)).sources| == 1 && !Held(Step(t, HEoi(0, 5)), 0)
  {
    assert ServerOk(s, 0) && SourceShape(s, 0) && NotStranded(s, 0);
    var t := WriteXive(s, 0, 0, MASKED);
    var u := State([Server(0, 5, 0, 0xff, false)], [Source(0, MASKED, false, false)]);
    assert ResendTo(t, 1) == ResendOne(ResendTo(t, 0), 0) == u;
    assert Step(t, HEoi(0, 5)) == u by { assert PutServer(t, 0, t.servers[0].(cppr := 5)) == t; }
  }
}
