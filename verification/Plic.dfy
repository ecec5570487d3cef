/** The register file of arch/riscv/plic.c in place: one record per context, changed by
    interrupt lines and by guest reads and writes. */
module Plic {
  import opened PlicSpec

  class Controller {
    const contexts: array<Ctx>
    const priority: array<nat>
    const level: array<bool>

    ghost predicate Valid()
      reads this, contexts, priority, level
    {
      && priority.Length == level.Length == NUM_IRQ
      && forall i :: 0 <= i < contexts.Length ==> CtxOk(contexts[i])
    }

    constructor (n: nat)
      ensures Valid() && contexts.Length == n && fresh(contexts) && fresh(priority) && fresh(level)
    {
      contexts := new Ctx[n](_ => Fresh());
      priority := new nat[NUM_IRQ](_ => 0);
      level := new bool[NUM_IRQ](_ => false);
      new;
      FreshOk();
    }

    /** The double loop over words and bits. */
    static method BestPendingIrq(c: Ctx) returns (bestIrq: nat)
      requires Shape(c) && !c.pending[0]
      ensures IsBest(c, bestIrq) && bestIrq == Best(c, NUM_IRQ)
    {
      bestIrq := 0;
      for i := 0 to NUM_IRQ / WORD
        invariant bestIrq == Best(c, i * WORD)
      {
        for j := 0 to WORD
          invariant bestIrq == Best(c, i * WORD + j)
        {
          var irq := i * WORD + j;
          if c.pending[irq] && !c.claimed[irq] && (bestIrq == 0 || c.prio[bestIrq] < c.prio[irq]) {
            bestIrq := irq;
          }
        }
      }
      BestIsBest(c);
    }

    static method IrqUpdate(c: Ctx) returns (d: Ctx)
      requires Sets(c)
      ensures d == Update(c) && CtxOk(d)
    {
      var best := BestPendingIrq(c);
      d := c.(line := best != 0);
      UpdateKeeps(c);
    }

    /** The guest reads the claim register of context i. */
    method ContextIrqClaim(i: nat) returns (best: nat)
      requires Valid() && i < contexts.Length
      modifies contexts
      ensures Valid() && IsBest(old(contexts[i]), best)
      ensures contexts[..] == old(contexts[..])[i := Claim(old(contexts[i]))]
    {
      var c := contexts[i];
      ClaimKeeps(c);
      best := BestPendingIrq(c);
      if best != 0 {
        if c.autoclear[best] {
          c := Drop(c, best);
        } else {
          c := c.(claimed := c.claimed[best := true]);
        }
      }
      c := IrqUpdate(c);
      contexts[i] := c;
    }

    /** A device drives its line; only the first context that enables it is told. */
    method IrqTrig(irq: int, lvl: bool, edge: bool)
      requires Valid()
      modifies contexts, level
      ensures Valid()
      ensures irq <= 0 || irq >= NUM_IRQ ==> level[..] == old(level[..]) && contexts[..] == old(contexts[..])
      ensures 0 < irq < NUM_IRQ ==>
                && level[..] == old(level[..])[irq := lvl]
                && contexts[..] == Told(old(contexts[..]), irq, lvl, edge, priority[irq])
    {
      hide CtxOk, Trigger, Told;
      if irq <= 0 || irq >= NUM_IRQ { return; }
      ghost var was := contexts[..];
      AllShaped(was);
      var irqPrio := priority[irq];
      level[irq] := lvl;
      for i := 0 to contexts.Length
        invariant Valid() && contexts[..] == was && level[..] == old(level[..])[irq := lvl]
        invariant forall j :: 0 <= j < i ==> !was[j].enable[irq]
      {
        if contexts[i].enable[irq] {
          ToldFirst(was, i, irq, lvl, edge, irqPrio);
          contexts[i] := ContextTrig(contexts[i], irq, lvl, edge, irqPrio);
          return;
        }
      }
      ToldNobody(was, irq, lvl, edge, irqPrio);
    }

    static method ContextTrig(c: Ctx, irq: nat, lvl: bool, edge: bool, irqPrio: nat) returns (d: Ctx)
      requires CtxOk(c) && irq < NUM_IRQ && c.enable[irq]
      ensures d == Trigger(c, irq, lvl, edge, irqPrio) && CtxOk(d)
    {
      hide Best;
      TriggerKeeps(c, irq, lvl, edge, irqPrio);
      if lvl {
        d := c.(pending := c.pending[irq := true], prio := c.prio[irq := irqPrio],
                autoclear := c.autoclear[irq := c.autoclear[irq] || edge]);
      } else {
        d := Drop(c, irq);
      }
      d := IrqUpdate(d);
    }

    method PriorityWrite(irq: nat, val: nat)
      requires Valid()
      modifies priority
      ensures Valid()
      ensures priority[..] == if 0 < irq < NUM_IRQ then old(priority[..])[irq := val % (MAX_PRIO + 1)] else old(priority[..])
    {
      if irq == 0 || irq >= NUM_IRQ { return; }
      priority[irq] := val % (MAX_PRIO + 1);
    }

    /** The guest writes one word of enable bits of context i. */
    method ContextEnableWrite(i: nat, w: nat, newVal: seq<bool>)
      requires Valid() && i < contexts.Length && w < NUM_IRQ / WORD && |newVal| == WORD
      modifies contexts
      ensures Valid()
      ensures contexts[..] == old(contexts[..])[i := EnableWrite(old(contexts[i]), w, newVal, priority[..], level[..])]
    {
      var c := contexts[i];
      ghost var was := c;
      EnableKeeps(was, w, newVal, priority[..], level[..]);
      var bits := Masked(w, newVal);
      for k := 0 to WORD
        invariant Sets(was) && c == EnableBits(was, w, bits, priority[..], level[..], k) && contexts[..] == old(contexts[..])
        invariant Valid()
      {
        var irq := w * WORD + k;
        if c.enable[irq] != bits[k] {
          c := c.(enable := c.enable[irq := bits[k]]);
          if bits[k] && level[irq] {
            c := c.(pending := c.pending[irq := true], prio := c.prio[irq := priority[irq]]);
          } else if !bits[k] {
            c := c.(pending := c.pending[irq := false], prio := c.prio[irq := 0], claimed := c.claimed[irq := false]);
          }
        }
      }
      EnableBitsKeep(was, w, bits, priority[..], level[..], WORD);
      c := IrqUpdate(c);
      contexts[i] := c;
    }

    /** The guest writes the threshold (offset 0), completes a source (offset 4), or
        touches a reserved register. */
    method ContextWrite(i: nat, offset: nat, val: nat)
      requires Valid() && i < contexts.Length
      modifies contexts
      ensures Valid()
      ensures contexts[..] == old(contexts[..])[i :=
                if offset == 0 then SetThreshold(old(contexts[i]), val)
                else if offset == 4 then Complete(old(contexts[i]), val)
                else old(contexts[i])]
    {
      var c := contexts[i];
      if offset == 0 {
        c := c.(threshold := val % (MAX_PRIO + 1));
        ThresholdKeeps(contexts[i], val);
      } else if offset == 4 {
        CompleteKeeps(c, val);
        if val < NUM_IRQ && c.enable[val] {
          c := IrqUpdate(c.(claimed := c.claimed[val := false]));
        }
      } else {
        UpdateIsIdle(c);
        c := IrqUpdate(c);
      }
      contexts[i] := c;
    }
  }

  predicate AllShape(contexts: seq<Ctx>) {
    forall k {:trigger contexts[k]} :: 0 <= k < |contexts| ==> Shape(contexts[k])
  }

  /** The first context that enables the source sees the change. */
  function Told(contexts: seq<Ctx>, irq: nat, lvl: bool, edge: bool, prio: nat): seq<Ctx>
    requires irq < NUM_IRQ && AllShape(contexts)
  {
    if contexts == [] then []
    else if contexts[0].enable[irq] then [Trigger(contexts[0], irq, lvl, edge, prio)] + contexts[1..]
    else [contexts[0]] + Told(contexts[1..], irq, lvl, edge, prio)
  }

  /** Sending the line again changes nothing: it was right already. */
  lemma UpdateIsIdle(c: Ctx)
    requires CtxOk(c)
    ensures Update(c) == c
  {
    hide Best;
    BestIsBest(c);
  }

  lemma AllShaped(contexts: seq<Ctx>)
    requires forall k :: 0 <= k < |contexts| ==> CtxOk(contexts[k])
    ensures AllShape(contexts)
  { }

  lemma {:induction false} ToldFirst(contexts: seq<Ctx>, i: nat, irq: nat, lvl: bool, edge: bool, prio: nat)
    requires irq < NUM_IRQ && AllShape(contexts)
    requires i < |contexts| && contexts[i].enable[irq] && forall j :: 0 <= j < i ==> !contexts[j].enable[irq]
    ensures Told(contexts, irq, lvl, edge, prio) == contexts[i := Trigger(contexts[i], irq, lvl, edge, prio)]
  {
    hide Trigger;
    if i > 0 { ToldFirst(contexts[1..], i - 1, irq, lvl, edge, prio); }
  }

  lemma {:induction false} ToldNobody(contexts: seq<Ctx>, irq: nat, lvl: bool, edge: bool, prio: nat)
    requires irq < NUM_IRQ && AllShape(contexts)
    requires forall k :: 0 <= k < |contexts| ==> !contexts[k].enable[irq]
    ensures Told(contexts, irq, lvl, edge, prio) == contexts
  {
    hide Trigger;
    if contexts != [] { ToldNobody(contexts[1..], irq, lvl, edge, prio); }
  }
}
