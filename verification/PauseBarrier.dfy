/** Stopping all vCPUs (kvm_pause and kvm_continue of init/kvm.c, the signal handler of
    init/kvm-cpu.c) as a protocol: one thread pauses and continues, each vCPU answers its
    signal through a counter and then blocks on the lock the pauser holds. */
module PauseBarrier {
  datatype Place = Guest | Marked | Blocked | Clearing | Leaving

  /** `pending`: the pause signal was sent and its handler has not started. */
  datatype Vcpu = Vcpu(running: bool, paused: bool, pending: bool, at: Place)

  datatype Lock = Free | Pauser | Cpu(k: nat)

  /** Where the pausing thread is: `done` counts the vCPUs known to be paused. */
  datatype Pause = Out | Sending(i: nat, done: nat) | Waiting(done: nat) | Holding

  datatype State = State(vcpus: seq<Vcpu>, lock: Lock, pause: Pause, event: nat, died: bool)

  datatype Step =
    | Begin | Send | AllSent | Read | Finish | Continue
    | Deliver(k: nat) | Notify(k: nat) | Acquire(k: nat) | Clear(k: nat) | Release(k: nat) | Exit(k: nat)

  predicate At(s: State, k: nat, p: Place) {
    k < |s.vcpus| && s.vcpus[k].at == p
  }

  predicate Enabled(s: State, step: Step) {
    match step
    case Begin => s.pause == Out && s.lock == Free
    case Send => s.pause.Sending? && s.pause.i < |s.vcpus|
    case AllSent => s.pause.Sending? && s.pause.i == |s.vcpus|
    case Read => s.pause.Waiting? && s.pause.done < |s.vcpus| && s.event > 0
    case Finish => s.pause.Waiting? && s.pause.done >= |s.vcpus|
    case Continue => s.pause == Holding
    case Deliver(k) => At(s, k, Guest) && s.vcpus[k].pending
    case Notify(k) => At(s, k, Marked)
    case Acquire(k) => At(s, k, Blocked) && s.lock == Free
    case Clear(k) => At(s, k, Clearing)
    case Release(k) => At(s, k, Leaving)
    // No vCPU is assumed to exit while a pause is in progress.
    case Exit(k) => At(s, k, Guest) && s.pause == Out
  }

  function Put(s: State, k: nat, v: Vcpu): State
    requires k < |s.vcpus|
  {
    s.(vcpus := s.vcpus[k := v])
  }

  function Next(s: State, step: Step): State
    requires Enabled(s, step)
  {
    match step
    case Begin => s.(lock := Pauser, pause := Sending(0, 0), event := 0)
    case Send =>
      var i := s.pause.i;
      var v := s.vcpus[i];
      if v.running && !v.paused
      then Put(s.(pause := Sending(i + 1, s.pause.done)), i, v.(pending := true))
      else s.(pause := Sending(i + 1, s.pause.done + 1))
    case AllSent => s.(pause := Waiting(s.pause.done))
    case Read => s.(pause := Waiting(s.pause.done + s.event), event := 0)
    case Finish => s.(pause := Holding)
    case Continue => s.(pause := Out, lock := Free)
    case Deliver(k) =>
      var v := s.vcpus[k];
      if v.paused then s.(died := true)
      else Put(s, k, v.(pending := false, paused := true, at := Marked))
    case Notify(k) => Put(s, k, s.vcpus[k].(at := Blocked)).(event := s.event + 1)
    case Acquire(k) => Put(s, k, s.vcpus[k].(at := Clearing)).(lock := Cpu(k))
    case Clear(k) => Put(s, k, s.vcpus[k].(paused := false, at := Leaving))
    case Release(k) => Put(s, k, s.vcpus[k].(at := Guest)).(lock := Free)
    case Exit(k) => Put(s, k, s.vcpus[k].(running := false))
  }

  // --------------------------------------------------------------------- invariant

  /** The vCPU was signalled and has not answered. */
  predicate Owes(v: Vcpu) {
    v.pending || v.at == Marked
  }

  function Owing(vs: seq<Vcpu>): (n: nat)
    ensures n == 0 <==> forall k :: 0 <= k < |vs| ==> !Owes(vs[k])
  {
    if vs == [] then 0 else Owing(vs[..|vs| - 1]) + if Owes(vs[|vs| - 1]) then 1 else 0
  }

  predicate VcpuOk(v: Vcpu) {
    && (v.paused <==> v.at == Marked || v.at == Blocked || v.at == Clearing)
    && (v.pending ==> v.at == Guest && v.running)
  }

  ghost predicate LockOk(s: State) {
    && (s.lock == Pauser <==> s.pause != Out) && (s.lock.Cpu? ==> s.lock.k < |s.vcpus|)
    && forall k :: 0 <= k < |s.vcpus| ==>
         (s.vcpus[k].at == Clearing || s.vcpus[k].at == Leaving <==> s.lock == Cpu(k))
  }

  /** Everyone before i is accounted for; nobody after i has been signalled. */
  ghost predicate Reached(s: State, i: nat, done: nat) {
    && i <= |s.vcpus| && done + Owing(s.vcpus) + s.event == i
    && (forall k :: 0 <= k < i ==> (s.vcpus[k].running ==> s.vcpus[k].pending || s.vcpus[k].paused))
    && (forall k :: i <= k < |s.vcpus| ==> !Owes(s.vcpus[k]))
  }

  ghost predicate Inv(s: State) {
    && !s.died && LockOk(s)
    && (forall k :: 0 <= k < |s.vcpus| ==> VcpuOk(s.vcpus[k]))
    && match s.pause
       case Out => Owing(s.vcpus) == 0
       case Sending(i, done) => Reached(s, i, done)
       case Waiting(done) => Reached(s, |s.vcpus|, done)
       case Holding => AllStopped(s)
  }

  /** Every running vCPU is inside its signal handler, waiting for the lock. */
  ghost predicate AllStopped(s: State) {
    forall k :: 0 <= k < |s.vcpus| ==>
      !Owes(s.vcpus[k]) && (s.vcpus[k].running ==> s.vcpus[k].paused && s.vcpus[k].at == Blocked)
  }

  lemma InitInv(n: nat)
    ensures Inv(State(seq(n, _ => Vcpu(true, false, false, Guest)), Free, Out, 0, false))
  { }

  lemma {:induction false} OwingSet(vs: seq<Vcpu>, k: nat, v: Vcpu)
    requires k < |vs|
    ensures Owing(vs[k := v]) == Owing(vs) - (if Owes(vs[k]) then 1 else 0) + (if Owes(v) then 1 else 0)
  {
    var n := |vs| - 1;
    if k < n {
      assert vs[k := v][..n] == vs[..n][k := v];
      OwingSet(vs[..n], k, v);
    } else {
      assert vs[k := v][..n] == vs[..n];
    }
  }

  lemma SendKeeps(s: State)
    requires Inv(s) && Enabled(s, Send)
    ensures Inv(Next(s, Send))
  {
    hide Owing;
    var q, i := Next(s, Send), s.pause.i;
    OwingSet(s.vcpus, i, q.vcpus[i]);
    assert VcpuOk(s.vcpus[i]) && !Owes(s.vcpus[i]);
    assert VcpuOk(q.vcpus[i]);
    assert LockOk(q);
    assert Reached(q, i + 1, q.pause.done);
  }

  lemma DeliverKeeps(s: State, k: nat)
    requires Inv(s) && Enabled(s, Deliver(k))
    ensures Inv(Next(s, Deliver(k)))
  {
    hide Owing;
    assert VcpuOk(s.vcpus[k]);
    OwingSet(s.vcpus, k, Next(s, Deliver(k)).vcpus[k]);
  }

  lemma NotifyKeeps(s: State, k: nat)
    requires Inv(s) && Enabled(s, Notify(k))
    ensures Inv(Next(s, Notify(k)))
  {
    OwingSet(s.vcpus, k, Next(s, Notify(k)).vcpus[k]);
  }

  /** Taking and dropping the lock happens outside pauses and owes nothing. */
  lemma OwnerKeeps(s: State, step: Step, k: nat)
    requires Inv(s) && Enabled(s, step)
    requires step == Acquire(k) || step == Clear(k) || step == Release(k) || step == Exit(k)
    ensures Inv(Next(s, step))
  {
    assert VcpuOk(s.vcpus[k]);
    OwingSet(s.vcpus, k, Next(s, step).vcpus[k]);
  }

  lemma StepKeeps(s: State, step: Step)
    requires Inv(s) && Enabled(s, step)
    ensures Inv(Next(s, step))
  {
    match step
    case Send => SendKeeps(s);
    case Deliver(k) => DeliverKeeps(s, k);
    case Notify(k) => NotifyKeeps(s, k);
    case Acquire(k) => OwnerKeeps(s, step, k);
    case Clear(k) => OwnerKeeps(s, step, k);
    case Release(k) => OwnerKeeps(s, step, k);
    case Exit(k) => OwnerKeeps(s, step, k);
    case _ =>
  }

  // ---------------------------------------------------------------------- all runs

  ghost predicate IsRun(states: seq<State>, steps: seq<Step>) {
    && |states| == |steps| + 1
    && states[0] == State(seq(|states[0].vcpus|, _ => Vcpu(true, false, false, Guest)), Free, Out, 0, false)
    && forall k :: 0 <= k < |steps| ==>
         Enabled(states[k], steps[k]) && states[k + 1] == Next(states[k], steps[k])
  }

  lemma {:induction false} RunKeeps(states: seq<State>, steps: seq<Step>, k: nat)
    requires IsRun(states, steps) && k <= |steps|
    ensures Inv(states[k])
  {
    if k == 0 {
      InitInv(|states[0].vcpus|);
    } else {
      RunKeeps(states, steps, k - 1);
      StepKeeps(states[k - 1], steps[k - 1]);
    }
  }

  /** When kvm_pause has returned, every running vCPU is stopped in its handler; and the
      handler never finds its vCPU already paused. */
  lemma PauseStops(states: seq<State>, steps: seq<Step>, k: nat)
    requires IsRun(states, steps) && k <= |steps|
    ensures !states[k].died
    ensures states[k].pause == Holding ==> AllStopped(states[k])
  {
    RunKeeps(states, steps, k);
  }

  /** And they stay stopped: the only step that can follow is kvm_continue. */
  lemma StoppedUntilContinue(s: State, step: Step)
    requires Inv(s) && s.pause == Holding
    ensures Enabled(s, step) <==> step == Continue
  { }

  /** How much is left to do before a pause that has begun returns. */
  function Left(s: State): nat
    requires !s.pause.Sending? || s.pause.i <= |s.vcpus|
  {
    match s.pause
    case Out => 0
    case Sending(i, _) => 5 * (|s.vcpus| - i) + Answers(s.vcpus) + 2 + (if s.event > 0 then 1 else 0)
    case Waiting(_) => Answers(s.vcpus) + 1 + (if s.event > 0 then 1 else 0)
    case Holding => 0
  }

  /** Steps the signalled vCPUs still have to take; answering may set the counter again. */
  function Answers(vs: seq<Vcpu>): nat {
    if vs == [] then 0
    else Answers(vs[..|vs| - 1]) + AnswersOf(vs[|vs| - 1])
  }

  function AnswersOf(v: Vcpu): nat {
    (if v.pending then 4 else 0) + if v.at == Marked then 2 else 0
  }

  lemma {:induction false} AnswersSet(vs: seq<Vcpu>, k: nat, v: Vcpu)
    requires k < |vs|
    ensures Answers(vs[k := v]) == Answers(vs) - AnswersOf(vs[k]) + AnswersOf(v)
  {
    var n := |vs| - 1;
    if k < n {
      assert vs[k := v][..n] == vs[..n][k := v];
      AnswersSet(vs[..n], k, v);
    } else {
      assert vs[k := v][..n] == vs[..n];
    }
  }

  predicate InProgress(s: State) {
    s.pause.Sending? || s.pause.Waiting?
  }

  /** A pause never hangs: while one is in progress some step is possible, and every step
      brings its end nearer. */
  lemma PauseAdvances(s: State, step: Step)
    requires Inv(s) && InProgress(s) && Enabled(s, step)
    ensures Left(Next(s, step)) < Left(s)
  {
    var q := Next(s, step);
    match step
    case Send => AnswersSet(s.vcpus, s.pause.i, q.vcpus[s.pause.i]);
    case Deliver(k) =>
      assert VcpuOk(s.vcpus[k]);
      AnswersSet(s.vcpus, k, q.vcpus[k]);
    case Notify(k) =>
      assert VcpuOk(s.vcpus[k]);
      AnswersSet(s.vcpus, k, q.vcpus[k]);
    case _ =>
  }

  lemma PauseCanStep(s: State)
    requires Inv(s) && InProgress(s)
    ensures exists step :: Enabled(s, step)
  {
    if s.pause.Sending? {
      assert Enabled(s, if s.pause.i < |s.vcpus| then Send else AllSent);
    } else if s.pause.done >= |s.vcpus| {
      assert Enabled(s, Finish);
    } else if s.event > 0 {
      assert Enabled(s, Read);
    } else {
      var k :| 0 <= k < |s.vcpus| && Owes(s.vcpus[k]);
      assert VcpuOk(s.vcpus[k]);
      assert Enabled(s, if s.vcpus[k].pending then Deliver(k) else Notify(k));
    }
  }

  // ------------------------------------------------------------------- what steps do

  /** No step changes the number of vCPUs, and one stops running only by exiting. */
  lemma RunningKeeps(s: State, step: Step, k: nat)
    requires Enabled(s, step) && k < |s.vcpus|
    ensures |Next(s, step).vcpus| == |s.vcpus|
    ensures Next(s, step).vcpus[k].running <==> s.vcpus[k].running && step != Exit(k)
    ensures !(step.Send? && s.pause.i == k) && !Moves(step, k) ==> Next(s, step).vcpus[k] == s.vcpus[k]
  { }

  /** The step is one of this vCPU's own. */
  predicate Moves(step: Step, k: nat) {
    (step.Deliver? || step.Notify? || step.Acquire? || step.Clear? || step.Release? || step.Exit?) && step.k == k
  }

  /** The places a vCPU passes on its way through the handler, and the counter it raises. */
  lemma HandlerSteps(s: State, k: nat)
    ensures Enabled(s, Deliver(k)) && !s.vcpus[k].paused ==>
              var v := Next(s, Deliver(k)).vcpus[k];
              v.at == Marked && v.paused && !v.pending
    ensures Enabled(s, Notify(k)) ==>
              Next(s, Notify(k)).vcpus[k].at == Blocked && Next(s, Notify(k)).event == s.event + 1
    ensures Enabled(s, Acquire(k)) ==>
              Next(s, Acquire(k)).vcpus[k].at == Clearing && Next(s, Acquire(k)).lock == Cpu(k)
    ensures Enabled(s, Clear(k)) ==>
              Next(s, Clear(k)).vcpus[k].at == Leaving && !Next(s, Clear(k)).vcpus[k].paused
    ensures Enabled(s, Release(k)) ==>
              Next(s, Release(k)).vcpus[k].at == Guest && Next(s, Release(k)).lock == Free
  { }

  /** How far the vCPU is from running the guest again. */
  function NotBack(v: Vcpu): nat {
    match v.at
    case Blocked => 3
    case Clearing => 2
    case Leaving => 1
    case _ => 0
  }

  function ToResume(vs: seq<Vcpu>): nat {
    if vs == [] then 0 else ToResume(vs[..|vs| - 1]) + NotBack(vs[|vs| - 1])
  }

  lemma {:induction false} ToResumeSet(vs: seq<Vcpu>, k: nat, v: Vcpu)
    requires k < |vs|
    ensures ToResume(vs[k := v]) == ToResume(vs) - NotBack(vs[k]) + NotBack(v)
  {
    var n := |vs| - 1;
    if k < n {
      assert vs[k := v][..n] == vs[..n][k := v];
      ToResumeSet(vs[..n], k, v);
    } else {
      assert vs[k := v][..n] == vs[..n];
    }
  }

  /** After kvm_continue the vCPUs come back one by one: each step a vCPU takes outside a
      pause, other than an exit, brings it nearer to the guest. */
  lemma ResumeAdvances(s: State, step: Step)
    requires Inv(s) && s.pause == Out && Enabled(s, step) && step != Begin && !step.Exit?
    ensures Next(s, step).pause == Out && ToResume(Next(s, step).vcpus) < ToResume(s.vcpus)
  {
    match step
    case Deliver(k) =>
    case Notify(k) =>
    case Acquire(k) => ToResumeSet(s.vcpus, k, Next(s, step).vcpus[k]);
    case Clear(k) => ToResumeSet(s.vcpus, k, Next(s, step).vcpus[k]);
    case Release(k) => ToResumeSet(s.vcpus, k, Next(s, step).vcpus[k]);
  }

  /** And one of them can always step until every vCPU runs the guest, unpaused. */
  lemma ResumeCanStep(s: State) returns (step: Step)
    requires Inv(s) && s.pause == Out && exists k :: 0 <= k < |s.vcpus| && (s.vcpus[k].at != Guest || s.vcpus[k].paused)
    ensures Enabled(s, step) && (step.Acquire? || step.Clear? || step.Release?)
  {
    if k :| 0 <= k < |s.vcpus| && s.vcpus[k].at == Clearing {
      step := Clear(k);
    } else if k :| 0 <= k < |s.vcpus| && s.vcpus[k].at == Leaving {
      step := Release(k);
    } else {
      var k :| 0 <= k < |s.vcpus| && (s.vcpus[k].at != Guest || s.vcpus[k].paused);
      assert VcpuOk(s.vcpus[k]) && !Owes(s.vcpus[k]);
      assert s.lock == Free by { NobodyHolds(s); }
      step := Acquire(k);
    }
  }

  lemma NobodyHolds(s: State)
    requires Inv(s) && s.pause == Out
    requires forall k :: 0 <= k < |s.vcpus| ==> s.vcpus[k].at != Clearing && s.vcpus[k].at != Leaving
    ensures s.lock == Free
  { }

  /** Once all are back another pause may begin. */
  lemma PauseMayBegin(s: State)
    requires Inv(s) && s.pause == Out && forall k :: 0 <= k < |s.vcpus| ==> s.vcpus[k].at == Guest
    ensures Enabled(s, Begin) && Next(s, Begin).pause == Sending(0, 0) && Next(s, Begin).lock == Pauser
    ensures Next(s, Begin).vcpus == s.vcpus
  {
    NobodyHolds(s);
  }

  /** The pauser signals each running vCPU that is not paused, counts the others at once,
      adds what the vCPUs report, and touches nothing else. */
  lemma PauserSteps(s: State)
    ensures Enabled(s, Send) ==>
              var i, q := s.pause.i, Next(s, Send);
              && q.lock == s.lock && q.event == s.event && q.pause.Sending? && q.pause.i == i + 1
              && (if s.vcpus[i].running && !s.vcpus[i].paused
                  then q.vcpus == s.vcpus[i := s.vcpus[i].(pending := true)] && q.pause.done == s.pause.done
                  else q.vcpus == s.vcpus && q.pause.done == s.pause.done + 1)
    ensures Enabled(s, AllSent) ==> Next(s, AllSent) == s.(pause := Waiting(s.pause.done))
    ensures Enabled(s, Read) ==>
              Next(s, Read).pause == Waiting(s.pause.done + s.event) && Next(s, Read).event == 0 &&
              Next(s, Read).vcpus == s.vcpus && Next(s, Read).lock == s.lock
    ensures Enabled(s, Finish) ==> Next(s, Finish) == s.(pause := Holding)
    ensures Enabled(s, Continue) ==> Next(s, Continue) == s.(pause := Out, lock := Free)
  { }
}
