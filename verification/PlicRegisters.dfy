/** What each operation of the RISC-V interrupt controller (arch/riscv/plic.c) does to each
    source of a context, array by array. */
module PlicRegisters {
  import opened PlicSpec

  /** All that is recorded about one source. */
  datatype Source = Source(enable: bool, pending: bool, prio: nat, claimed: bool, autoclear: bool)

  function At(c: Ctx, k: nat): Source
    requires Shape(c) && k < NUM_IRQ
  {
    Source(c.enable[k], c.pending[k], c.prio[k], c.claimed[k], c.autoclear[k])
  }

  predicate OthersSame(c: Ctx, d: Ctx, irq: nat) {
    Shape(c) && Shape(d) && d.threshold == c.threshold && forall k :: 0 <= k < NUM_IRQ && k != irq ==> At(d, k) == At(c, k)
  }

  /** A rising level makes the source pending with the priority its register has then; it
      stays claimed if it was, and an edge is remembered as one.  A falling level forgets
      all of it.  No other source is touched. */
  lemma TriggerRecords(c: Ctx, irq: nat, level: bool, edge: bool, prio: nat)
    requires Shape(c) && irq < NUM_IRQ
    ensures var d := Trigger(c, irq, level, edge, prio);
            && OthersSame(c, d, irq)
            && At(d, irq) == if level
               then At(c, irq).(pending := true, prio := prio, autoclear := c.autoclear[irq] || edge)
               else Source(c.enable[irq], false, 0, false, false)
  {
    hide Best;
  }

  /** The source raised is ready at once unless it is claimed. */
  lemma TriggeredIsReady(c: Ctx, irq: nat, edge: bool, prio: nat)
    requires CtxOk(c) && irq < NUM_IRQ && c.enable[irq] && !c.claimed[irq]
    ensures var d := Trigger(c, irq, true, edge, prio);
            Shape(d) && Ready(d, irq) && d.prio[irq] == prio && d.line
  {
    hide Best, Update;
    TriggerRecords(c, irq, true, edge, prio);
    TriggerKeeps(c, irq, true, edge, prio);
  }

  /** A claim forgets an edge and marks a level as claimed; no other source is touched. */
  lemma ClaimRecords(c: Ctx)
    requires CtxOk(c)
    ensures var d, best := Claim(c), Best(c, NUM_IRQ);
            && OthersSame(c, d, best)
            && (best == 0 ==> d == c)
            && (best != 0 && c.autoclear[best] ==> At(d, best) == Source(c.enable[best], false, 0, false, false))
            && (best != 0 && !c.autoclear[best] ==> At(d, best) == At(c, best).(claimed := true))
  {
    hide Best;
    BestIsBest(c);
  }

  /** Completing an enabled source lifts its claim and nothing else; completing any other
      number changes nothing. */
  lemma CompleteRecords(c: Ctx, val: nat)
    requires Shape(c)
    ensures var d := Complete(c, val);
            if val < NUM_IRQ && c.enable[val]
            then OthersSame(c, d, val) && At(d, val) == At(c, val).(claimed := false)
            else d == c
  {
    hide Best;
  }

  /** So a level that is still high is handed out again. */
  lemma CompletedIsReady(c: Ctx, val: nat)
    requires CtxOk(c) && val < NUM_IRQ && c.pending[val]
    ensures Shape(Complete(c, val)) && Ready(Complete(c, val), val) && Complete(c, val).line
  {
    hide Best, Update;
    CompleteRecords(c, val);
    CompleteKeeps(c, val);
  }

  /** The loop over a word, bit by bit: a source switched on is pending exactly when its
      level is high, with the priority its register has then; one switched off is neither
      pending nor claimed; the others are untouched. */
  predicate EnableRecorded(c: Ctx, d: Ctx, k: nat, on: bool, prio: nat, level: bool)
    requires Shape(c) && Shape(d) && k < NUM_IRQ
  {
    if c.enable[k] == on then At(d, k) == At(c, k)
    else if on && level then At(d, k) == At(c, k).(enable := true, pending := true, prio := prio)
    else if on then At(d, k) == At(c, k).(enable := true)
    else At(d, k) == At(c, k).(enable := false, pending := false, prio := 0, claimed := false)
  }

  lemma {:induction false} EnableBitsRecord(c: Ctx, w: nat, bits: seq<bool>, prios: seq<nat>, levels: seq<bool>, n: nat)
    requires Shape(c) && w < NUM_IRQ / WORD && |bits| == WORD && n <= WORD && |prios| == |levels| == NUM_IRQ
    ensures var d := EnableBits(c, w, bits, prios, levels, n);
            && d.threshold == c.threshold
            && forall k :: 0 <= k < NUM_IRQ ==>
                 if w * WORD <= k < w * WORD + n then EnableRecorded(c, d, k, bits[k - w * WORD], prios[k], levels[k])
                 else At(d, k) == At(c, k)
  {
    hide At;
    if n > 0 {
      EnableBitsRecord(c, w, bits, prios, levels, n - 1);
      TurnRecords(c, w, bits, prios, levels, n);
      var d, irq := EnableBits(c, w, bits, prios, levels, n - 1), w * WORD + (n - 1);
      SameEnable(c, d, irq);
    } else {
      assert EnableBits(c, w, bits, prios, levels, 0) == c;
    }
  }

  /** One turn of the loop. */
  lemma TurnRecords(c: Ctx, w: nat, bits: seq<bool>, prios: seq<nat>, levels: seq<bool>, n: nat)
    requires Shape(c) && w < NUM_IRQ / WORD && |bits| == WORD && 0 < n <= WORD && |prios| == |levels| == NUM_IRQ
    ensures var d, e := EnableBits(c, w, bits, prios, levels, n - 1), EnableBits(c, w, bits, prios, levels, n);
            var irq := w * WORD + (n - 1);
            OthersSame(d, e, irq) && EnableRecorded(d, e, irq, bits[n - 1], prios[irq], levels[irq])
  { }

  lemma SameEnable(c: Ctx, d: Ctx, k: nat)
    requires Shape(c) && Shape(d) && k < NUM_IRQ && At(d, k) == At(c, k)
    ensures d.enable[k] == c.enable[k]
  { }

  lemma EnableRecords(c: Ctx, w: nat, bits: seq<bool>, prios: seq<nat>, levels: seq<bool>)
    requires CtxOk(c) && w < NUM_IRQ / WORD && |bits| == WORD && |prios| == |levels| == NUM_IRQ
    ensures var d := EnableWrite(c, w, bits, prios, levels);
            && Shape(d) && d.threshold == c.threshold
            && forall k :: 0 <= k < NUM_IRQ ==>
                 if w * WORD <= k < (w + 1) * WORD
                 then EnableRecorded(c, d, k, k != 0 && bits[k - w * WORD], prios[k], levels[k])
                 else At(d, k) == At(c, k)
  {
    hide Best, EnableBits;
    EnableBitsRecord(c, w, Masked(w, bits), prios, levels, WORD);
  }

  /** The threshold register keeps four bits, and setting it touches no source. */
  lemma ThresholdRecords(c: Ctx, val: nat)
    requires Shape(c)
    ensures var d := SetThreshold(c, val);
            && Shape(d) && d.threshold < 16 && (val < 16 ==> d.threshold == val) && (val - d.threshold) % 16 == 0
            && d.line == c.line && forall k :: 0 <= k < NUM_IRQ ==> At(d, k) == At(c, k)
  { }
}
