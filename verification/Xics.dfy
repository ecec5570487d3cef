/** The interrupt controller as the program runs it: two arrays changed in place, with
    XISR and CPPR packed in one 32-bit word.  Each method is proved equal to the function
    of the same name in XicsSpec. */
module Xics {
  import opened XicsSpec

  type Word = n: nat | n < 0x1_0000_0000

  datatype IcpServerState = IcpServerState(xirr: Word, pendingPriority: Byte, mfrr: Byte, line: bool)

  function Xisr(xirr: Word): nat { xirr % XISR_LIMIT }

  function Cppr(xirr: Word): Byte { xirr / XISR_LIMIT }

  /** xirr with its low 24 bits replaced. */
  function WithXisr(xirr: Word, xisr: nat): (w: Word)
    requires xisr < XISR_LIMIT
    ensures Xisr(w) == xisr && Cppr(w) == Cppr(xirr)
  {
    xirr - xirr % XISR_LIMIT + xisr
  }

  /** xirr with its high 8 bits replaced. */
  function WithCppr(xirr: Word, cppr: Byte): (w: Word)
    ensures Xisr(w) == Xisr(xirr) && Cppr(w) == cppr
  {
    xirr % XISR_LIMIT + cppr * XISR_LIMIT
  }

  function Unpack(r: IcpServerState): Server {
    Server(Xisr(r.xirr), Cppr(r.xirr), r.pendingPriority, r.mfrr, r.line)
  }

  function UnpackAll(raw: seq<IcpServerState>): (r: seq<Server>) {
    seq(|raw|, i requires 0 <= i < |raw| => Unpack(raw[i]))
  }

  class Controller {
    const ss: array<IcpServerState>
    const irqs: array<Source>

    function View(): State
      reads ss, irqs
    {
      State(UnpackAll(ss[..]), irqs[..])
    }

    ghost predicate Valid()
      reads ss, irqs
    {
      WellFormed(View()) && Routed(View())
    }

    constructor (servers: nat, sources: nat)
      requires 0 < servers && IRQ_OFFSET + sources <= XISR_LIMIT
      ensures Valid() && View() == Init(servers, sources) && fresh(ss) && fresh(irqs)
    {
      ss := new IcpServerState[servers](_ => IcpServerState(0, 0, 0xff, false));
      irqs := new Source[sources](_ => Source(0, MASKED, false, false));
      new;
      assert View().servers == Init(servers, sources).servers;
      assert View().sources == Init(servers, sources).sources;
    }

    method PutSs(v: nat, r: IcpServerState)
      requires v < ss.Length
      modifies ss
      ensures ss[..] == old(ss[..])[v := r]
      ensures View() == PutServer(old(View()), v, Unpack(r))
    {
      ss[v] := r;
      assert UnpackAll(ss[..]) == UnpackAll(old(ss[..]))[v := Unpack(r)];
    }

    method PutIrq(i: nat, x: Source)
      requires i < irqs.Length
      modifies irqs
      ensures View() == PutSource(old(View()), i, x)
    {
      irqs[i] := x;
    }

    method IcsReject(nr: nat)
      modifies irqs
      ensures View() == Reject(old(View()), nr)
    {
      if IRQ_OFFSET <= nr < IRQ_OFFSET + irqs.Length {
        PutIrq(nr - IRQ_OFFSET, irqs[nr - IRQ_OFFSET].(rejected := true));
      }
    }

    method IcpCheckIpi(server: nat)
      requires server < ss.Length
      modifies ss, irqs
      ensures View() == CheckIpi(old(View()), server)
    {
      var x := ss[server];
      if Xisr(x.xirr) != 0 && x.pendingPriority <= x.mfrr { return; }
      if Xisr(x.xirr) != 0 { IcsReject(Xisr(x.xirr)); }
      PutSs(server, x.(xirr := WithXisr(x.xirr, XICS_IPI), pendingPriority := x.mfrr, line := true));
    }

    method IcpIrq(server: nat, nr: nat, priority: Byte)
      requires server < ss.Length && nr < XISR_LIMIT
      modifies ss, irqs
      ensures View() == XicsSpec.IcpIrq(old(View()), server, nr, priority)
    {
      var x := ss[server];
      if priority >= Cppr(x.xirr) || (Xisr(x.xirr) != 0 && x.pendingPriority <= priority) {
        IcsReject(nr);
      } else {
        if Xisr(x.xirr) != 0 { IcsReject(Xisr(x.xirr)); }
        PutSs(server, x.(xirr := WithXisr(x.xirr, nr), pendingPriority := priority, line := true));
      }
    }

    method IcsResend()
      requires Valid()
      modifies ss, irqs
      ensures Valid() && View() == ResendTo(old(View()), irqs.Length)
    {
      ghost var s := View();
      for i := 0 to irqs.Length
        invariant Valid() && View() == ResendTo(s, i)
      {
        ResendTurn(i);
      }
    }

    method ResendTurn(i: nat)
      requires Valid() && i < irqs.Length
      modifies ss, irqs
      ensures Valid() && View() == ResendOne(old(View()), i)
    {
      var irq := irqs[i];
      assert View().sources[i] == irq;
      if irq.rejected {
        PutIrq(i, irq.(rejected := false));
        if irq.priority != MASKED {
          IcpIrq(irq.server, i + IRQ_OFFSET, irq.priority);
        }
      }
    }

    method IcpResend(server: nat)
      requires Valid() && server < ss.Length
      modifies ss, irqs
      ensures Valid() && View() == XicsSpec.IcpResend(old(View()), server)
    {
      if ss[server].mfrr < Cppr(ss[server].xirr) {
        IcpCheckIpi(server);
      }
      IcsResend();
    }

    method IcpSetCppr(server: nat, cppr: Byte)
      requires Valid() && server < ss.Length
      modifies ss, irqs
      ensures Valid() && View() == SetCppr(old(View()), server, cppr)
    {
      var x := ss[server];
      PutSs(server, x.(xirr := WithCppr(x.xirr, cppr)));
      if cppr < Cppr(x.xirr) {
        if Xisr(x.xirr) != 0 && cppr <= x.pendingPriority {
          PutSs(server, ss[server].(xirr := WithXisr(ss[server].xirr, 0), line := false));
          IcsReject(Xisr(x.xirr));
        }
      } else if Xisr(x.xirr) == 0 {
        IcpResend(server);
      }
    }

    method IcpSetMfrr(server: nat, mfrr: Byte)
      requires Valid() && server < ss.Length
      modifies ss, irqs
      ensures Valid() && View() == SetMfrr(old(View()), server, mfrr)
    {
      PutSs(server, ss[server].(mfrr := mfrr));
      if mfrr < Cppr(ss[server].xirr) {
        IcpCheckIpi(server);
      }
    }

    method IcpAccept(server: nat) returns (xirr: Word)
      requires Valid() && server < ss.Length
      modifies ss
      ensures Valid() && View() == Accept(old(View()), server)
      ensures xirr == old(ss[server].xirr)
    {
      xirr := ss[server].xirr;
      PutSs(server, ss[server].(xirr := ss[server].pendingPriority * XISR_LIMIT, line := false));
    }

    method IcpEoi(server: nat, xirr: Word)
      requires Valid() && server < ss.Length
      modifies ss, irqs
      ensures Valid() && View() == Eoi(old(View()), server, Cppr(xirr))
    {
      var x := ss[server];
      PutSs(server, x.(xirr := WithCppr(x.xirr, Cppr(xirr))));
      if Xisr(x.xirr) == 0 {
        IcpResend(server);
      }
    }

    method IcsSetIrqMsi(srcno: nat, val: bool)
      requires Valid() && srcno < irqs.Length
      modifies ss, irqs
      ensures Valid() && View() == SetIrq(old(View()), srcno, val)
    {
      if val {
        var irq := irqs[srcno];
        assert View().sources[srcno] == irq;
        if irq.priority == MASKED {
          PutIrq(srcno, irq.(masked := true));
        } else {
          IcpIrq(irq.server, srcno + IRQ_OFFSET, irq.priority);
        }
      }
    }

    method IcsWriteXiveMsi(nr: nat, server: nat, priority: Byte)
      requires Valid() && IsSource(View(), nr) && server < ss.Length
      modifies ss, irqs
      ensures Valid() && View() == WriteXive(old(View()), nr - IRQ_OFFSET, server, priority)
    {
      var i := nr - IRQ_OFFSET;
      PutIrq(i, irqs[i].(server := server, priority := priority));
      if !irqs[i].masked || priority == MASKED { return; }
      PutIrq(i, irqs[i].(masked := false));
      IcpIrq(server, nr, priority);
    }

    // ----------------------------------------- hypercalls and RTAS entry points

    /** H_CPPR: the argument register is truncated to its low byte. */
    method HCppr(cpu: nat, arg: nat)
      requires Valid() && cpu < ss.Length
      modifies ss, irqs
      ensures Valid() && View() == Step(old(View()), Op.HCppr(cpu, arg % 0x100))
    {
      IcpSetCppr(cpu, arg % 0x100);
    }

    /** H_IPI: a server that does not exist is refused and changes nothing. */
    method HIpi(server: nat, arg: nat) returns (ok: bool)
      requires Valid()
      modifies ss, irqs
      ensures Valid() && View() == Step(old(View()), Op.HIpi(server, arg % 0x100))
      ensures ok <==> server < ss.Length
    {
      if server >= ss.Length { return false; }
      IcpSetMfrr(server, arg % 0x100);
      return true;
    }

    /** H_XIRR: what the guest reads is the packed word from before the accept. */
    method HXirr(cpu: nat) returns (xirr: Word)
      requires Valid() && cpu < ss.Length
      modifies ss
      ensures Valid() && View() == Step(old(View()), Op.HXirr(cpu))
      ensures Xisr(xirr) == old(View()).servers[cpu].xisr
      ensures Cppr(xirr) == old(View()).servers[cpu].cppr
    {
      xirr := IcpAccept(cpu);
    }

    method HEoi(cpu: nat, arg: nat)
      requires Valid() && cpu < ss.Length
      modifies ss, irqs
      ensures Valid()
      ensures View() == Step(old(View()), Op.HEoi(cpu, (arg % 0x1_0000_0000) / XISR_LIMIT))
    {
      IcpEoi(cpu, arg % 0x1_0000_0000);
    }

    method RtasSetXive(nr: nat, server: nat, priority: nat) returns (ok: bool)
      requires Valid()
      modifies ss, irqs
      ensures Valid() && View() == Step(old(View()), Op.SetXive(nr, server, priority))
      ensures ok <==> XiveArgumentsOk(old(View()), nr, server, priority)
    {
      if !(IRQ_OFFSET <= nr < IRQ_OFFSET + irqs.Length) || server >= ss.Length || priority > 0xff {
        return false;
      }
      IcsWriteXiveMsi(nr, server, priority);
      return true;
    }

    method KvmIrqLine(irq: nat, level: bool)
      requires Valid() && IsSource(View(), irq)
      modifies ss, irqs
      ensures Valid() && View() == Step(old(View()), Op.IrqLine(irq, level))
    {
      IcsSetIrqMsi(irq - IRQ_OFFSET, level);
    }
  }
}
