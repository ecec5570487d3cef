/** One context of the RISC-V interrupt controller (arch/riscv/plic.c; chapter 7 of the
    RISC-V Privileged Architecture v1.10) on values.  Bit arrays are sequences of booleans;
    `line` is the last interrupt level sent to the vCPU. */
module PlicSpec {
  const NUM_IRQ := 1024
  const WORD := 32
  const MAX_PRIO := 15

  datatype Ctx = Ctx(enable: seq<bool>, pending: seq<bool>, prio: seq<nat>, claimed: seq<bool>,
                     autoclear: seq<bool>, threshold: nat, line: bool)

  predicate Shape(c: Ctx) {
    |c.enable| == |c.pending| == |c.prio| == |c.claimed| == |c.autoclear| == NUM_IRQ
  }

  /** Waiting to be claimed. */
  predicate Ready(c: Ctx, irq: nat)
    requires Shape(c)
  {
    irq < NUM_IRQ && c.pending[irq] && !c.claimed[irq]
  }

  /** The source to present: greatest recorded priority, lowest number on ties; 0 for none. */
  ghost predicate IsBest(c: Ctx, r: nat)
    requires Shape(c)
  {
    if r == 0 then forall k: nat :: !Ready(c, k)
    else Ready(c, r) && forall k: nat :: Ready(c, k) ==>
           c.prio[k] < c.prio[r] || (c.prio[k] == c.prio[r] && r <= k)
  }

  /** The scan, over sources below n. */
  function Best(c: Ctx, n: nat): (r: nat)
    requires Shape(c) && n <= NUM_IRQ
    ensures r != 0 ==> r < n && Ready(c, r)
  {
    if n == 0 then 0
    else
      var best := Best(c, n - 1);
      if Ready(c, n - 1) && (best == 0 || c.prio[best] < c.prio[n - 1]) then n - 1 else best
  }

  lemma {:induction false} BestBelow(c: Ctx, n: nat)
    requires Shape(c) && !c.pending[0] && n <= NUM_IRQ
    ensures var r := Best(c, n);
            forall k: nat :: k < n && Ready(c, k) ==>
              r != 0 && (c.prio[k] < c.prio[r] || (c.prio[k] == c.prio[r] && r <= k))
  {
    if n > 0 { BestBelow(c, n - 1); }
  }

  lemma BestIsBest(c: Ctx)
    requires Shape(c) && !c.pending[0]
    ensures IsBest(c, Best(c, NUM_IRQ))
  {
    BestBelow(c, NUM_IRQ);
  }

  lemma OnlyOneBest(c: Ctx, r: nat, q: nat)
    requires Shape(c) && IsBest(c, r) && IsBest(c, q)
    ensures r == q
  { }

  // -------------------------------------------------------------------- operations

  function Update(c: Ctx): Ctx
    requires Shape(c)
  {
    c.(line := Best(c, NUM_IRQ) != 0)
  }

  function Drop(c: Ctx, irq: nat): Ctx
    requires Shape(c) && irq < NUM_IRQ
  {
    c.(pending := c.pending[irq := false], prio := c.prio[irq := 0], claimed := c.claimed[irq := false],
       autoclear := c.autoclear[irq := false])
  }

  function Claim(c: Ctx): Ctx
    requires Shape(c)
  {
    var best := Best(c, NUM_IRQ);
    Update(if best == 0 then c
           else if c.autoclear[best] then Drop(c, best)
           else c.(claimed := c.claimed[best := true]))
  }

  /** A source of this context changes level; `prio` is its priority register then. */
  function Trigger(c: Ctx, irq: nat, level: bool, edge: bool, prio: nat): Ctx
    requires Shape(c) && irq < NUM_IRQ
  {
    Update(if level
           then c.(pending := c.pending[irq := true], prio := c.prio[irq := prio],
                   autoclear := c.autoclear[irq := c.autoclear[irq] || edge])
           else Drop(c, irq))
  }

  /** The guest says it is done with source `val`. */
  function Complete(c: Ctx, val: nat): Ctx
    requires Shape(c)
  {
    if val < NUM_IRQ && c.enable[val] then Update(c.(claimed := c.claimed[val := false])) else c
  }

  /** The guest sets the threshold, of which four bits are kept and none compared. */
  function SetThreshold(c: Ctx, val: nat): Ctx {
    c.(threshold := val % (MAX_PRIO + 1))
  }

  /** The guest writes word `w` of the enable bits: the loop over its bits, n done. */
  function EnableBits(c: Ctx, w: nat, bits: seq<bool>, prios: seq<nat>, levels: seq<bool>, n: nat): (r: Ctx)
    requires Shape(c) && w < NUM_IRQ / WORD && |bits| == WORD && n <= WORD && |prios| == |levels| == NUM_IRQ
    ensures Shape(r)
  {
    if n == 0 then c
    else
      var d := EnableBits(c, w, bits, prios, levels, n - 1);
      var irq := w * WORD + (n - 1);
      if d.enable[irq] == bits[n - 1] then d
      else if bits[n - 1] then
        var on := d.(enable := d.enable[irq := true]);
        if levels[irq] then on.(pending := on.pending[irq := true], prio := on.prio[irq := prios[irq]]) else on
      else
        d.(enable := d.enable[irq := false], pending := d.pending[irq := false], prio := d.prio[irq := 0],
           claimed := d.claimed[irq := false])
  }

  /** Bit 0 of word 0 is hardwired to zero. */
  function Masked(w: nat, bits: seq<bool>): (r: seq<bool>)
    requires |bits| == WORD
    ensures |r| == WORD
  {
    if w == 0 then bits[0 := false] else bits
  }

  function EnableWrite(c: Ctx, w: nat, bits: seq<bool>, prios: seq<nat>, levels: seq<bool>): Ctx
    requires Shape(c) && w < NUM_IRQ / WORD && |bits| == WORD && |prios| == |levels| == NUM_IRQ
  {
    Update(EnableBits(c, w, Masked(w, bits), prios, levels, WORD))
  }

  function Fresh(): Ctx {
    Ctx(seq(NUM_IRQ, _ => false), seq(NUM_IRQ, _ => false), seq(NUM_IRQ, _ => 0), seq(NUM_IRQ, _ => false),
        seq(NUM_IRQ, _ => false), 0, false)
  }

  // --------------------------------------------------------------------- invariant

  /** claimed is part of pending, pending part of enabled; source 0 does not exist; the
      line is up exactly while something is ready. */
  ghost predicate CtxOk(c: Ctx) {
    && Sets(c) && (c.line <==> exists k: nat :: Ready(c, k))
  }

  ghost predicate Sets(c: Ctx) {
    && Shape(c) && !c.enable[0]
    && forall k :: 0 <= k < NUM_IRQ ==> (c.claimed[k] ==> c.pending[k]) && (c.pending[k] ==> c.enable[k])
  }

  lemma UpdateKeeps(c: Ctx)
    requires Sets(c)
    ensures CtxOk(Update(c))
  {
    hide Best;
    BestIsBest(c);
    var d := Update(c);
    assert forall k: nat :: Ready(d, k) <==> Ready(c, k);
  }

  lemma FreshOk()
    ensures CtxOk(Fresh())
  { }

  lemma ClaimKeeps(c: Ctx)
    requires CtxOk(c)
    ensures CtxOk(Claim(c))
  {
    hide Best;
    var best := Best(c, NUM_IRQ);
    UpdateKeeps(if best == 0 then c else if c.autoclear[best] then Drop(c, best) else c.(claimed := c.claimed[best := true]));
  }

  lemma TriggerKeeps(c: Ctx, irq: nat, level: bool, edge: bool, prio: nat)
    requires CtxOk(c) && irq < NUM_IRQ && c.enable[irq]
    ensures CtxOk(Trigger(c, irq, level, edge, prio))
  {
    hide Best, Update;
    UpdateKeeps(if level
                then c.(pending := c.pending[irq := true], prio := c.prio[irq := prio],
                        autoclear := c.autoclear[irq := c.autoclear[irq] || edge])
                else Drop(c, irq));
  }

  lemma CompleteKeeps(c: Ctx, val: nat)
    requires CtxOk(c)
    ensures CtxOk(Complete(c, val))
  {
    hide Best, Update;
    if val < NUM_IRQ && c.enable[val] { UpdateKeeps(c.(claimed := c.claimed[val := false])); }
  }

  lemma ThresholdKeeps(c: Ctx, val: nat)
    requires CtxOk(c)
    ensures CtxOk(SetThreshold(c, val))
  {
    assert forall k: nat :: Ready(SetThreshold(c, val), k) <==> Ready(c, k);
  }

  lemma {:induction false} EnableBitsKeep(c: Ctx, w: nat, bits: seq<bool>, prios: seq<nat>, levels: seq<bool>, n: nat)
    requires Sets(c) && w < NUM_IRQ / WORD && |bits| == WORD && n <= WORD && |prios| == |levels| == NUM_IRQ
    requires w == 0 ==> !bits[0]
    ensures Sets(EnableBits(c, w, bits, prios, levels, n))
    ensures forall k :: 0 <= k < NUM_IRQ ==>
              EnableBits(c, w, bits, prios, levels, n).enable[k]
              == if w * WORD <= k < w * WORD + n then bits[k - w * WORD] else c.enable[k]
  {
    if n > 0 {
      EnableBitsKeep(c, w, bits, prios, levels, n - 1);
      EnableOne(c, w, bits, prios, levels, n);
      EnableBitKeeps(EnableBits(c, w, bits, prios, levels, n - 1), EnableBits(c, w, bits, prios, levels, n), w * WORD + (n - 1), bits[n - 1]);
    }
  }

  /** One turn of the loop. */
  lemma EnableOne(c: Ctx, w: nat, bits: seq<bool>, prios: seq<nat>, levels: seq<bool>, n: nat)
    requires Shape(c) && w < NUM_IRQ / WORD && |bits| == WORD && 0 < n <= WORD && |prios| == |levels| == NUM_IRQ
    requires Sets(EnableBits(c, w, bits, prios, levels, n - 1))
    ensures var d, e, irq := EnableBits(c, w, bits, prios, levels, n - 1), EnableBits(c, w, bits, prios, levels, n), w * WORD + (n - 1);
            && irq < NUM_IRQ && e.enable == d.enable[irq := bits[n - 1]]
            && (forall k :: 0 <= k < NUM_IRQ && k != irq ==> e.pending[k] == d.pending[k] && e.claimed[k] == d.claimed[k])
            && (e.claimed[irq] ==> e.pending[irq]) && (e.pending[irq] ==> bits[n - 1])
  {
    var d, irq := EnableBits(c, w, bits, prios, levels, n - 1), w * WORD + (n - 1);
    if d.enable[irq] == bits[n - 1] { assert d.enable[irq := bits[n - 1]] == d.enable; }
  }

  /** Switching one bit, with its pending and claimed bits switched along. */
  lemma EnableBitKeeps(d: Ctx, e: Ctx, irq: nat, on: bool)
    requires Sets(d) && irq < NUM_IRQ && (irq == 0 ==> !on) && Shape(e)
    requires e.enable == d.enable[irq := on]
    requires forall k :: 0 <= k < NUM_IRQ && k != irq ==> e.pending[k] == d.pending[k] && e.claimed[k] == d.claimed[k]
    requires (e.claimed[irq] ==> e.pending[irq]) && (e.pending[irq] ==> on)
    ensures Sets(e)
  { }

  lemma EnableKeeps(c: Ctx, w: nat, bits: seq<bool>, prios: seq<nat>, levels: seq<bool>)
    requires CtxOk(c) && w < NUM_IRQ / WORD && |bits| == WORD && |prios| == |levels| == NUM_IRQ
    ensures CtxOk(EnableWrite(c, w, bits, prios, levels))
    ensures forall k :: 0 <= k < NUM_IRQ ==>
              EnableWrite(c, w, bits, prios, levels).enable[k]
              == if w * WORD <= k < (w + 1) * WORD then k != 0 && bits[k - w * WORD] else c.enable[k]
  {
    hide Best;
    EnableBitsKeep(c, w, Masked(w, bits), prios, levels, WORD);
    UpdateKeeps(EnableBits(c, w, Masked(w, bits), prios, levels, WORD));
  }

  // ------------------------------------------------------------- claims over a run

  datatype Op =
    | DoClaim
    | DoComplete(val: nat)
    | DoThreshold(val: nat)
    | DoTrigger(irq: nat, level: bool, edge: bool, prio: nat)
    | DoEnable(w: nat, bits: seq<bool>, prios: seq<nat>, levels: seq<bool>)

  predicate Fits(c: Ctx, op: Op) {
    Shape(c) && match op
    case DoTrigger(irq, _, _, _) => irq < NUM_IRQ && c.enable[irq]
    case DoEnable(w, bits, prios, levels) =>
      w < NUM_IRQ / WORD && |bits| == WORD && |prios| == |levels| == NUM_IRQ
    case _ => true
  }

  function Next(c: Ctx, op: Op): Ctx
    requires Fits(c, op)
  {
    match op
    case DoClaim => Claim(c)
    case DoComplete(val) => Complete(c, val)
    case DoThreshold(val) => SetThreshold(c, val)
    case DoTrigger(irq, level, edge, prio) => Trigger(c, irq, level, edge, prio)
    case DoEnable(w, bits, prios, levels) => EnableWrite(c, w, bits, prios, levels)
  }

  lemma NextKeeps(c: Ctx, op: Op)
    requires CtxOk(c) && Fits(c, op)
    ensures CtxOk(Next(c, op))
  {
    hide Claim, Complete, Trigger, EnableWrite, SetThreshold, CtxOk;
    match op
    case DoClaim => ClaimKeeps(c);
    case DoComplete(val) => CompleteKeeps(c, val);
    case DoThreshold(val) => ThresholdKeeps(c, val);
    case DoTrigger(irq, level, edge, prio) =>
      CtxOkShape(c);
      TriggerKeeps(c, irq, level, edge, prio);
    case DoEnable(w, bits, prios, levels) => EnableKeeps(c, w, bits, prios, levels);
  }

  lemma CtxOkShape(c: Ctx)
    requires CtxOk(c)
    ensures Shape(c)
  { }

  /** A claim takes the best source, and that source is not ready any more. */
  lemma ClaimTakesBest(c: Ctx)
    requires CtxOk(c)
    ensures IsBest(c, Best(c, NUM_IRQ)) && Shape(Claim(c))
    ensures forall k: nat :: Ready(Claim(c), k) <==> Ready(c, k) && k != Best(c, NUM_IRQ)
  {
    hide Best;
    BestIsBest(c);
  }

  /** The operation can make source r ready again. */
  predicate Revives(op: Op, r: nat) {
    match op
    case DoClaim => false
    case DoComplete(val) => val == r
    case DoThreshold(_) => false
    case DoTrigger(irq, _, _, _) => irq == r
    case DoEnable(w, _, _, _) => w == r / WORD
  }

  lemma StaysTaken(c: Ctx, op: Op, r: nat)
    requires CtxOk(c) && Fits(c, op) && !Ready(c, r) && !Revives(op, r)
    ensures Shape(Next(c, op)) && !Ready(Next(c, op), r)
  {
    hide Best;
    match op
    case DoEnable(w, bits, prios, levels) =>
      OtherWord(c, w, Masked(w, bits), prios, levels, WORD, r);
    case _ =>
  }

  lemma {:induction false} OtherWord(c: Ctx, w: nat, bits: seq<bool>, prios: seq<nat>, levels: seq<bool>, n: nat, r: nat)
    requires Shape(c) && w < NUM_IRQ / WORD && |bits| == WORD && n <= WORD && |prios| == |levels| == NUM_IRQ
    requires r / WORD != w && !Ready(c, r)
    ensures !Ready(EnableBits(c, w, bits, prios, levels, n), r)
  {
    if n > 0 { OtherWord(c, w, bits, prios, levels, n - 1, r); }
  }

  ghost predicate IsRun(states: seq<Ctx>, ops: seq<Op>) {
    && |states| == |ops| + 1 && CtxOk(states[0])
    && forall k :: 0 <= k < |ops| ==> Fits(states[k], ops[k]) && states[k + 1] == Next(states[k], ops[k])
  }

  lemma {:induction false} RunKeeps(states: seq<Ctx>, ops: seq<Op>, k: nat)
    requires IsRun(states, ops) && k <= |ops|
    ensures CtxOk(states[k])
  {
    if k > 0 {
      RunKeeps(states, ops, k - 1);
      NextKeeps(states[k - 1], ops[k - 1]);
    }
  }

  lemma {:induction false} NotReadyUntil(states: seq<Ctx>, ops: seq<Op>, a: nat, k: nat, r: nat)
    requires IsRun(states, ops) && a < k <= |ops| && ops[a].DoClaim?
    requires Shape(states[a]) && r == Best(states[a], NUM_IRQ) && r != 0
    requires forall j :: a < j < k ==> !Revives(ops[j], r)
    ensures Shape(states[k]) && !Ready(states[k], r)
    decreases k
  {
    hide Best, CtxOk;
    RunKeeps(states, ops, k - 1);
    if a == k - 1 {
      ClaimTakesBest(states[a]);
    } else {
      NotReadyUntil(states, ops, a, k - 1, r);
      StaysTaken(states[k - 1], ops[k - 1], r);
    }
  }

  /** A claimed source is not handed out again until it is completed, or the device changes
      its level, or its enable word is written. */
  lemma NotClaimedTwice(states: seq<Ctx>, ops: seq<Op>, a: nat, b: nat)
    requires IsRun(states, ops) && a < b < |ops| && ops[a].DoClaim? && ops[b].DoClaim?
    requires Shape(states[a]) && Shape(states[b]) && Best(states[a], NUM_IRQ) != 0
    requires forall j :: a < j < b ==> !Revives(ops[j], Best(states[a], NUM_IRQ))
    ensures Best(states[b], NUM_IRQ) != Best(states[a], NUM_IRQ)
  {
    NotReadyUntil(states, ops, a, b, Best(states[a], NUM_IRQ));
  }

  // --------------------------------------------------------- threshold and priority 0

  /** When the hart is to be interrupted: a ready source lies above the threshold. */
  ghost predicate MustInterrupt(c: Ctx)
    requires Shape(c)
  {
    exists k: nat :: Ready(c, k) && c.prio[k] > c.threshold
  }

  /** What a claim is to return, whatever the threshold: the best source, but never one of
      priority 0. */
  ghost predicate MustClaim(c: Ctx, r: nat)
    requires Shape(c)
  {
    if r == 0 then forall k: nat :: Ready(c, k) ==> c.prio[k] == 0 else IsBest(c, r) && c.prio[r] > 0
  }

  /** The line is as it should be if and only if nothing is ready or the best source lies
      above the threshold. */
  lemma LineExactly(c: Ctx)
    requires CtxOk(c)
    ensures var best := Best(c, NUM_IRQ);
            (c.line <==> MustInterrupt(c)) <==> best == 0 || c.prio[best] > c.threshold
  {
    hide Best;
    BestIsBest(c);
  }

  /** A claim returns what it should if and only if that is nothing or not of priority 0. */
  lemma ClaimExactly(c: Ctx)
    requires CtxOk(c)
    ensures var best := Best(c, NUM_IRQ);
            MustClaim(c, best) <==> best == 0 || c.prio[best] > 0
  {
    hide Best;
    BestIsBest(c);
  }

  function OnlyBit(n: nat): (bits: seq<bool>)
    ensures |bits| == WORD
  {
    seq(WORD, k => k == n)
  }

  lemma {:induction false} EnableClaims(c: Ctx, w: nat, bits: seq<bool>, prios: seq<nat>, levels: seq<bool>, n: nat)
    requires Shape(c) && w < NUM_IRQ / WORD && |bits| == WORD && n <= WORD && |prios| == |levels| == NUM_IRQ
    ensures forall k :: 0 <= k < NUM_IRQ && EnableBits(c, w, bits, prios, levels, n).claimed[k] ==> c.claimed[k]
  {
    if n > 0 { EnableClaims(c, w, bits, prios, levels, n - 1); }
  }

  /** For any priority at or below the threshold, 0 included, a run in which the guest is
      interrupted all the same; with priority 0 a claim then returns what it should not. */
  lemma PresentsBelowThreshold(states: seq<Ctx>, ops: seq<Op>, prio: nat, threshold: nat, prios: seq<nat>, levels: seq<bool>)
    requires prio <= threshold <= MAX_PRIO && |prios| == |levels| == NUM_IRQ
    requires ops == [DoEnable(0, OnlyBit(5), prios, levels), DoThreshold(threshold), DoTrigger(5, true, false, prio)]
    requires |states| == 4 && states[0] == Fresh()
    requires states[1] == EnableWrite(Fresh(), 0, OnlyBit(5), prios, levels)
    requires states[2] == SetThreshold(states[1], threshold) && Shape(states[2])
    requires states[3] == Trigger(states[2], 5, true, false, prio)
    ensures IsRun(states, ops)
    ensures var c := states[3];
            Shape(c) && c.line && !MustInterrupt(c) && Best(c, NUM_IRQ) == 5 && (prio == 0 ==> !MustClaim(c, 5))
  {
    hide Best, EnableBits, OnlyBit;
    FreshOk();
    EnableKeeps(states[0], 0, OnlyBit(5), prios, levels);
    EnableClaims(states[0], 0, Masked(0, OnlyBit(5)), prios, levels, WORD);
    assert OnlyBit(5)[5] && forall k :: 0 <= k < WORD && k != 5 ==> !OnlyBit(5)[k] by { OnlyBitIs(5); }
    assert Fits(states[0], ops[0]) && Fits(states[1], ops[1]) && Fits(states[2], ops[2]);
    ThresholdKeeps(states[1], threshold);
    TriggerKeeps(states[2], 5, true, false, prio);
    var c := states[3];
    assert forall k: nat :: Ready(c, k) <==> k == 5;
    BestIsBest(c);
    OnlyOneBest(c, Best(c, NUM_IRQ), 5);
  }

  lemma OnlyBitIs(n: nat)
    ensures forall k :: 0 <= k < WORD ==> OnlyBit(n)[k] == (k == n)
  { }
}
