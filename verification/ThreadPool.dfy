/** The thread pool (util/threadpool.c) as a protocol: any number of threads, each either
    signalling a job, working, or cancelling, interleaved at the points where the program
    takes or drops a lock.  `signalcount++` is two steps, because cancelling writes the
    count without the job's mutex. */
module ThreadPool {
  import opened Lists

  /** What a thread is doing, between two steps. */
  datatype Thread =
    | Idle
    | Signalling(job: nat, seen: int)  // in do_job, job's mutex held, count read
    | Pushing(job: nat)                // job's mutex held, about to queue it
    | Running(job: nat)                // in the callback
    | Ran(job: nat)                    // callback returned, count not yet decremented
    | Cancelling(job: nat)             // in the loop of cancel_job

  /** The counters `calls`, `runs` and `dropped` only observe. */
  datatype Job = Job(signalcount: int, calls: int, runs: int, dropped: int)

  datatype Pool = Pool(queue: seq<nat>, jobs: seq<Job>, threads: seq<Thread>)

  datatype Step =
    | Signal(t: nat, job: nat)
    | Count(t: nat)
    | Push(t: nat)
    | Pop(t: nat)
    | Return(t: nat)
    | Finish(t: nat)
    | Cancel(t: nat, job: nat)
    | TryCancel(t: nat)

  predicate HoldsMutex(th: Thread, j: nat) {
    (th.Signalling? || th.Pushing?) && th.job == j
  }

  ghost predicate MutexFree(p: Pool, j: nat) {
    forall t :: 0 <= t < |p.threads| ==> !HoldsMutex(p.threads[t], j)
  }

  predicate WellFormed(p: Pool) {
    && (forall i :: 0 <= i < |p.queue| ==> p.queue[i] < |p.jobs|)
    && (forall t :: 0 <= t < |p.threads| && !p.threads[t].Idle? ==> p.threads[t].job < |p.jobs|)
  }

  /** The thread is at the point the step starts from, and gets the lock it needs. */
  ghost predicate Enabled(p: Pool, s: Step) {
    && WellFormed(p) && s.t < |p.threads|
    && match s
       case Signal(t, j) => p.threads[t].Idle? && j < |p.jobs| && MutexFree(p, j)
       case Count(t) => p.threads[t].Signalling?
       case Push(t) => p.threads[t].Pushing?
       case Pop(t) => p.threads[t].Idle? && p.queue != []
       case Return(t) => p.threads[t].Running?
       case Finish(t) => p.threads[t].Ran? && MutexFree(p, p.threads[t].job)
       case Cancel(t, j) => p.threads[t].Idle? && j < |p.jobs|
       case TryCancel(t) => p.threads[t].Cancelling?
  }

  function Put(p: Pool, t: nat, th: Thread): Pool
    requires t < |p.threads|
  {
    p.(threads := p.threads[t := th])
  }

  function PutJob(p: Pool, j: nat, x: Job): Pool
    requires j < |p.jobs|
  {
    p.(jobs := p.jobs[j := x])
  }

  function Next(p: Pool, s: Step): Pool
    requires Enabled(p, s)
  {
    match s
    case Signal(t, j) => Put(p, t, Signalling(j, p.jobs[j].signalcount))
    case Count(t) =>
      var th := p.threads[t];
      var x := p.jobs[th.job];
      var q := PutJob(p, th.job, x.(signalcount := th.seen + 1, calls := x.calls + 1));
      Put(q, t, if th.seen == 0 then Pushing(th.job) else Idle)
    case Push(t) => Put(p.(queue := p.queue + [p.threads[t].job]), t, Idle)
    case Pop(t) => Put(p.(queue := p.queue[1..]), t, Running(p.queue[0]))
    case Return(t) => Put(p, t, Ran(p.threads[t].job))
    case Finish(t) =>
      var j := p.threads[t].job;
      var x := p.jobs[j];
      var q := PutJob(p, j, x.(signalcount := x.signalcount - 1, runs := x.runs + 1));
      Put(q, t, if x.signalcount > 1 then Pushing(j) else Idle)
    case Cancel(t, j) => Put(p, t, Cancelling(j))
    case TryCancel(t) =>
      var j := p.threads[t].job;
      var x := p.jobs[j];
      if j !in p.queue then
        if x.signalcount > 0 then p else Put(p, t, Idle)
      else
        var q := PutJob(p, j, x.(signalcount := 0, dropped := x.dropped + x.signalcount));
        Put(q.(queue := Without(p.queue, j)), t, Idle)
  }

  predicate Signals(th: Thread, j: nat) {
    th.Signalling? && th.job == j
  }

  /** A cancellation takes the job out while a signal stands between reading and writing
      its count. */
  ghost predicate Harmful(p: Pool, s: Step)
    requires Enabled(p, s)
  {
    s.TryCancel? && p.threads[s.t].job in p.queue &&
    exists t :: 0 <= t < |p.threads| && Signals(p.threads[t], p.threads[s.t].job)
  }

  /** What the program asks of its callers: nobody signals a job being cancelled. */
  ghost predicate Quiet(p: Pool, s: Step) {
    match s
    case Signal(_, j) => forall t :: 0 <= t < |p.threads| ==> p.threads[t] != Cancelling(j)
    case Cancel(_, j) => forall t :: 0 <= t < |p.threads| ==> !Signals(p.threads[t], j)
    case _ => true
  }

  // --------------------------------------------------------------------- invariant

  /** The thread answers for the job: it is about to queue it or has not finished with it. */
  predicate Active(th: Thread, j: nat) {
    (th.Pushing? || th.Running? || th.Ran?) && th.job == j
  }

  ghost predicate HasOwner(p: Pool, j: nat) {
    exists t :: 0 <= t < |p.threads| && Active(p.threads[t], j)
  }

  /** A job is with at most one thread, never also queued, and signalled exactly then. */
  ghost predicate JobOk(p: Pool, j: nat)
    requires j < |p.jobs|
  {
    && p.jobs[j].signalcount >= 0
    && (p.jobs[j].signalcount > 0 <==> j in p.queue || HasOwner(p, j))
    && !(j in p.queue && HasOwner(p, j))
    && (forall t, u :: 0 <= t < u < |p.threads| ==> !(Active(p.threads[t], j) && Active(p.threads[u], j)))
    && (forall t, u :: 0 <= t < u < |p.threads| ==> !(HoldsMutex(p.threads[t], j) && HoldsMutex(p.threads[u], j)))
    && (forall t :: 0 <= t < |p.threads| && p.threads[t].Signalling? && p.threads[t].job == j ==>
          p.threads[t].seen == p.jobs[j].signalcount)
    && p.jobs[j].runs + p.jobs[j].signalcount + p.jobs[j].dropped == p.jobs[j].calls
  }

  ghost predicate Inv(p: Pool) {
    WellFormed(p) && Distinct(p.queue) && forall j :: 0 <= j < |p.jobs| ==> JobOk(p, j)
  }

  function Init(threads: nat, jobs: nat): Pool {
    Pool([], seq(jobs, _ => Job(0, 0, 0, 0)), seq(threads, _ => Idle))
  }

  lemma InitInv(threads: nat, jobs: nat)
    ensures Inv(Init(threads, jobs))
  { }

  predicate About(th: Thread, j: nat) {
    !th.Idle? && th.job == j
  }

  /** A step of one thread leaves alone the jobs it is not about. */
  lemma OtherJob(p: Pool, q: Pool, t: nat, j: nat)
    requires t < |p.threads| && |q.threads| == |p.threads| && q.threads == p.threads[t := q.threads[t]]
    requires j < |p.jobs| == |q.jobs| && q.jobs[j] == p.jobs[j] && (j in q.queue <==> j in p.queue)
    requires !About(p.threads[t], j) && !About(q.threads[t], j)
    requires JobOk(p, j)
    ensures JobOk(q, j)
  {
    if HasOwner(p, j) {
      var u :| 0 <= u < |p.threads| && Active(p.threads[u], j);
      assert Active(q.threads[u], j);
    }
    if HasOwner(q, j) {
      var u :| 0 <= u < |q.threads| && Active(q.threads[u], j);
      assert Active(p.threads[u], j);
    }
  }

  /** The job a step is about. */
  function Subject(p: Pool, s: Step): nat
    requires Enabled(p, s)
  {
    match s
    case Signal(_, j) => j
    case Cancel(_, j) => j
    case Pop(_) => p.queue[0]
    case _ => p.threads[s.t].job
  }

  lemma NextShape(p: Pool, s: Step)
    requires Inv(p) && Enabled(p, s)
    ensures var q := Next(p, s);
            && WellFormed(q) && |q.jobs| == |p.jobs| && |q.threads| == |p.threads|
            && q.threads == p.threads[s.t := q.threads[s.t]]
            && forall j :: 0 <= j < |p.jobs| && j != Subject(p, s) ==>
                 q.jobs[j] == p.jobs[j] && (j in q.queue <==> j in p.queue)
                 && !About(p.threads[s.t], j) && !About(q.threads[s.t], j)
  {
    if s.Pop? {
      assert forall x :: x in p.queue <==> x == p.queue[0] || x in p.queue[1..];
    }
    if s.TryCancel? && p.threads[s.t].job in p.queue {
      var w := Without(p.queue, p.threads[s.t].job);
      assert forall i :: 0 <= i < |w| ==> w[i] in w;
    }
  }

  lemma QueueKeeps(p: Pool, s: Step)
    requires Inv(p) && Enabled(p, s)
    ensures Distinct(Next(p, s).queue)
  {
    match s
    case Push(t) =>
      assert JobOk(p, p.threads[t].job) && Active(p.threads[t], p.threads[t].job);
    case TryCancel(t) => WithoutDistinct(p.queue, p.threads[t].job);
    case _ =>
  }

  /** The parts of JobOk about threads, when only thread t changed. */
  lemma SoleOwner(p: Pool, q: Pool, t: nat, j: nat)
    requires t < |p.threads| && |q.threads| == |p.threads| && q.threads == p.threads[t := q.threads[t]]
    requires j < |p.jobs| == |q.jobs| && JobOk(p, j)
    requires forall u :: 0 <= u < |p.threads| && u != t ==> !Active(p.threads[u], j)
    ensures HasOwner(q, j) <==> Active(q.threads[t], j)
    ensures forall u, v :: 0 <= u < v < |q.threads| ==> !(Active(q.threads[u], j) && Active(q.threads[v], j))
  { }

  lemma SubjectOk(p: Pool, s: Step)
    requires Inv(p) && Enabled(p, s) && !Harmful(p, s)
    ensures JobOk(Next(p, s), Subject(p, s))
  {
    var j, t, q := Subject(p, s), s.t, Next(p, s);
    assert JobOk(p, j);
    NextShape(p, s);
    match s
    case Signal(_, _) => OwnersSame(p, q, t, j);
    case Count(_) =>
      if p.jobs[j].signalcount == 0 {
        SoleOwner(p, q, t, j);
      } else {
        OwnersSame(p, q, t, j);
      }
    case Push(_) =>
      assert Active(p.threads[t], j);
      SoleOwner(p, q, t, j);
    case Pop(_) =>
      SoleOwner(p, q, t, j);
    case Return(_) =>
      assert Active(p.threads[t], j);
      SoleOwner(p, q, t, j);
    case Finish(_) =>
      assert Active(p.threads[t], j);
      SoleOwner(p, q, t, j);
    case Cancel(_, _) => OwnersSame(p, q, t, j);
    case TryCancel(_) => OwnersSame(p, q, t, j);
  }

  lemma OwnersSame(p: Pool, q: Pool, t: nat, j: nat)
    requires t < |p.threads| && |q.threads| == |p.threads| && q.threads == p.threads[t := q.threads[t]]
    requires !Active(p.threads[t], j) && !Active(q.threads[t], j)
    ensures HasOwner(q, j) <==> HasOwner(p, j)
  {
    if HasOwner(p, j) {
      var u :| 0 <= u < |p.threads| && Active(p.threads[u], j);
      assert Active(q.threads[u], j);
    }
  }

  lemma StepKeeps(p: Pool, s: Step)
    requires Inv(p) && Enabled(p, s) && !Harmful(p, s)
    ensures Inv(Next(p, s))
  {
    var q := Next(p, s);
    NextShape(p, s);
    QueueKeeps(p, s);
    SubjectOk(p, s);
    forall j | 0 <= j < |q.jobs| ensures JobOk(q, j) {
      if j != Subject(p, s) { OtherJob(p, q, s.t, j); }
    }
  }

  /** A harmful step leaves a signal that will count from a number no longer true. */
  lemma HarmBreaks(p: Pool, s: Step)
    requires Inv(p) && Enabled(p, s) && Harmful(p, s)
    ensures !Inv(Next(p, s))
  {
    var j, q := p.threads[s.t].job, Next(p, s);
    assert JobOk(p, j);
    var u :| 0 <= u < |p.threads| && Signals(p.threads[u], j);
    assert Signals(q.threads[u], j) && q.threads[u].seen > q.jobs[j].signalcount;
    assert !JobOk(q, j);
  }

  /** Every step keeps the invariant, signals that overlap cancellations included, except
      exactly the harmful one. */
  lemma StepKeepsExactly(p: Pool, s: Step)
    requires Inv(p) && Enabled(p, s)
    ensures Inv(Next(p, s)) <==> !Harmful(p, s)
  {
    if Harmful(p, s) { HarmBreaks(p, s); } else { StepKeeps(p, s); }
  }

  /** And after that one the signal, once counted, has nobody to serve it. */
  lemma HarmStrands(p: Pool, s: Step, u: nat)
    requires Inv(p) && Enabled(p, s) && s.TryCancel? && p.threads[s.t].job in p.queue
    requires u < |p.threads| && Signals(p.threads[u], p.threads[s.t].job)
    ensures Enabled(Next(p, s), Count(u))
    ensures var j, r := p.threads[s.t].job, Next(Next(p, s), Count(u));
            j < |r.jobs| && r.jobs[j].signalcount > 0 && j !in r.queue && !HasOwner(r, j)
  {
    var j, q := p.threads[s.t].job, Next(p, s);
    assert JobOk(p, j);
    NextShape(p, s);
    OwnersSame(p, q, s.t, j);
    OwnersSame(q, Next(q, Count(u)), u, j);
  }

  // ---------------------------------------------------------------------- all runs

  /** Signals may overlap cancellations; only the harmful step is left out. */
  ghost predicate IsRun(states: seq<Pool>, steps: seq<Step>) {
    && |states| == |steps| + 1 && Inv(states[0])
    && forall k :: 0 <= k < |steps| ==>
         && Enabled(states[k], steps[k]) && !Harmful(states[k], steps[k])
         && states[k + 1] == Next(states[k], steps[k])
  }

  /** No job is being signalled and cancelled at once. */
  ghost predicate Calm(p: Pool) {
    forall t, u :: 0 <= t < |p.threads| && 0 <= u < |p.threads| && p.threads[t].Signalling? ==>
      p.threads[u] != Cancelling(p.threads[t].job)
  }

  lemma CalmKeeps(p: Pool, s: Step)
    requires Calm(p) && Enabled(p, s) && Quiet(p, s)
    ensures !Harmful(p, s) && Calm(Next(p, s))
  { }

  /** Callers that do as they are asked never get to the harmful step. */
  lemma {:induction false} QuietIsRun(states: seq<Pool>, steps: seq<Step>, n: nat)
    requires |states| == |steps| + 1 && Inv(states[0]) && Calm(states[0]) && n <= |steps|
    requires forall k :: 0 <= k < |steps| ==>
               && Enabled(states[k], steps[k]) && Quiet(states[k], steps[k])
               && states[k + 1] == Next(states[k], steps[k])
    ensures Calm(states[n]) && forall k :: 0 <= k < n ==> !Harmful(states[k], steps[k])
    ensures n == |steps| ==> IsRun(states, steps)
  {
    hide Quiet, Calm, Harmful, Next;
    if n > 0 {
      QuietIsRun(states, steps, n - 1);
      CalmKeeps(states[n - 1], steps[n - 1]);
    }
  }

  lemma {:induction false} RunKeeps(states: seq<Pool>, steps: seq<Step>, k: nat)
    requires IsRun(states, steps) && k <= |steps|
    ensures Inv(states[k]) && |states[k].jobs| == |states[0].jobs|
  {
    if k > 0 {
      RunKeeps(states, steps, k - 1);
      StepKeeps(states[k - 1], steps[k - 1]);
    }
  }

  /** No callback runs beside itself, whoever signals and however many workers there are. */
  lemma NeverConcurrent(states: seq<Pool>, steps: seq<Step>, k: nat, t: nat, u: nat)
    requires IsRun(states, steps) && k <= |steps|
    requires t < |states[k].threads| && u < |states[k].threads| && t != u
    requires states[k].threads[t].Running? && states[k].threads[u].Running?
    ensures states[k].threads[t].job != states[k].threads[u].job
  {
    RunKeeps(states, steps, k);
    var p := states[k];
    assert JobOk(p, p.threads[t].job);
    assert Active(p.threads[t], p.threads[t].job);
  }

  /** When nothing is queued and every thread is idle, each signal was served by a run of
      its own or dropped by a cancellation. */
  lemma IdleMeansServed(states: seq<Pool>, steps: seq<Step>, k: nat, j: nat)
    requires IsRun(states, steps) && k <= |steps| && j < |states[k].jobs|
    requires states[k].queue == [] && forall t :: 0 <= t < |states[k].threads| ==> states[k].threads[t].Idle?
    ensures states[k].jobs[j].runs + states[k].jobs[j].dropped == states[k].jobs[j].calls
  {
    RunKeeps(states, steps, k);
    assert JobOk(states[k], j);
  }

  /** A run of the callback is still to start. */
  ghost predicate Due(p: Pool, j: nat)
    requires j < |p.jobs|
  {
    || j in p.queue || p.jobs[j].signalcount > 1
    || exists t :: 0 <= t < |p.threads| && p.threads[t] == Pushing(j)
  }

  /** Nothing but starting the callback, or cancelling, removes the obligation. */
  lemma DueStays(p: Pool, s: Step, j: nat)
    requires Inv(p) && Enabled(p, s) && j < |p.jobs|
    requires Due(p, j) || (s.Count? && Subject(p, s) == j)
    requires (s.Pop? || s.TryCancel?) ==> Subject(p, s) != j
    ensures Due(Next(p, s), j)
  {
    NextShape(p, s);
    var q := Next(p, s);
    assert JobOk(p, j);
    if t :| 0 <= t < |p.threads| && p.threads[t] == Pushing(j) {
      if t != s.t { assert q.threads[t] == Pushing(j); }
    }
    if s.Finish? && p.threads[s.t].job == j {
      assert Active(p.threads[s.t], j);
      assert q.threads[s.t] == Pushing(j) || q.jobs[j].signalcount == 0;
    }
    if s.Count? && p.threads[s.t].job == j {
      assert q.threads[s.t] == Pushing(j) || q.jobs[j].signalcount > 1;
    }
  }

  lemma DueIsCounted(p: Pool, j: nat)
    requires Inv(p) && j < |p.jobs|
    ensures Due(p, j) ==> p.jobs[j].signalcount > 0
  {
    assert JobOk(p, j);
    if t :| 0 <= t < |p.threads| && p.threads[t] == Pushing(j) {
      assert Active(p.threads[t], j);
    }
  }

  lemma {:induction false} DueUntil(states: seq<Pool>, steps: seq<Step>, a: nat, n: nat, j: nat)
    requires IsRun(states, steps) && a < n <= |steps| && j < |states[0].jobs|
    requires steps[a].Count? && Subject(states[a], steps[a]) == j
    requires forall b :: a < b < n && (steps[b].Pop? || steps[b].TryCancel?) ==> Subject(states[b], steps[b]) != j
    ensures j < |states[n].jobs| && Due(states[n], j)
    decreases n
  {
    RunKeeps(states, steps, n - 1);
    if a < n - 1 {
      DueUntil(states, steps, a, n - 1, j);
    }
    DueStays(states[n - 1], steps[n - 1], j);
    RunKeeps(states, steps, n);
  }

  /** No signal is lost: between a signal and the next moment the count is back to zero,
      the callback starts afresh, unless the job is cancelled. */
  lemma SignalIsServed(states: seq<Pool>, steps: seq<Step>, a: nat, n: nat, j: nat)
    requires IsRun(states, steps) && a < n <= |steps| && j < |states[0].jobs| == |states[n].jobs|
    requires steps[a].Count? && Subject(states[a], steps[a]) == j
    requires states[n].jobs[j].signalcount == 0
    ensures exists b :: a < b < n && (steps[b].Pop? || steps[b].TryCancel?) && Subject(states[b], steps[b]) == j
  {
    RunKeeps(states, steps, n);
    DueIsCounted(states[n], j);
    if forall b :: a < b < n && (steps[b].Pop? || steps[b].TryCancel?) ==> Subject(states[b], steps[b]) != j {
      DueUntil(states, steps, a, n, j);
    }
  }

  /** Neither queued nor with any thread that would run it. */
  ghost predicate Gone(p: Pool, j: nat)
    requires j < |p.jobs|
  {
    p.jobs[j].signalcount == 0 && j !in p.queue && !HasOwner(p, j)
  }

  lemma CancelReturns(p: Pool, t: nat)
    requires Inv(p) && Enabled(p, TryCancel(t))
    requires Next(p, TryCancel(t)).threads[t].Idle?
    ensures p.threads[t].job < |Next(p, TryCancel(t)).jobs| && Gone(Next(p, TryCancel(t)), p.threads[t].job)
  {
    var j, q := p.threads[t].job, Next(p, TryCancel(t));
    assert JobOk(p, j);
    OwnersSame(p, q, t, j);
  }

  lemma GoneStays(p: Pool, s: Step, j: nat)
    requires Inv(p) && Enabled(p, s) && j < |p.jobs| && Gone(p, j) && !(s.Count? && Subject(p, s) == j)
    ensures j < |Next(p, s).jobs| && Gone(Next(p, s), j)
  {
    NextShape(p, s);
    OwnersSame(p, Next(p, s), s.t, j);
  }

  /** After cancel_job returns the job stays out of the pool until a signal counts. */
  lemma {:induction false} StaysGone(states: seq<Pool>, steps: seq<Step>, a: nat, k: nat, j: nat)
    requires IsRun(states, steps) && a < k <= |steps| && j < |states[0].jobs|
    requires steps[a].TryCancel? && Subject(states[a], steps[a]) == j
    requires steps[a].t < |states[a + 1].threads| && states[a + 1].threads[steps[a].t].Idle?
    requires forall b :: a < b < k && steps[b].Count? ==> Subject(states[b], steps[b]) != j
    ensures j < |states[k].jobs| && Gone(states[k], j)
    decreases k
  {
    RunKeeps(states, steps, k - 1);
    var p, s := states[k - 1], steps[k - 1];
    if a == k - 1 {
      CancelReturns(p, s.t);
    } else {
      StaysGone(states, steps, a, k - 1, j);
      GoneStays(p, s, j);
    }
  }

  ghost predicate NoneSignals(p: Pool, j: nat) {
    forall t :: 0 <= t < |p.threads| ==> !Signals(p.threads[t], j)
  }

  lemma NoneSignalsStays(p: Pool, s: Step, j: nat)
    requires Enabled(p, s) && NoneSignals(p, j) && s != Signal(s.t, j)
    ensures NoneSignals(Next(p, s), j) && !(s.Count? && Subject(p, s) == j)
  { }

  /** With callers that do as they are asked, until it is signalled anew: no signal is
      under way when cancel_job returns. */
  lemma {:induction false} NoneSignalsUntil(states: seq<Pool>, steps: seq<Step>, a: nat, k: nat, j: nat)
    requires IsRun(states, steps) && a < k <= |steps|
    requires steps[a].TryCancel? && Subject(states[a], steps[a]) == j && Calm(states[a])
    requires forall b, t :: a < b < k ==> steps[b] != Signal(t, j)
    ensures NoneSignals(states[k], j)
    ensures forall b :: a < b < k && steps[b].Count? ==> Subject(states[b], steps[b]) != j
    decreases k
  {
    var p, s := states[k - 1], steps[k - 1];
    if a == k - 1 {
      assert p.threads[s.t] == Cancelling(j);
    } else {
      NoneSignalsUntil(states, steps, a, k - 1, j);
      assert s != Signal(s.t, j);
      NoneSignalsStays(p, s, j);
    }
  }

  datatype Script = End | Then(step: Step, rest: Script)

  /** The steps can be taken one after the other and end in q. */
  ghost predicate Plays(p: Pool, script: Script, q: Pool)
    decreases script
  {
    match script
    case End => p == q
    case Then(s, rest) => Enabled(p, s) && Plays(Next(p, s), rest, q)
  }

  lemma OneMore(p: Pool, s: Step, r: Pool, rest: Script, q: Pool)
    requires Enabled(p, s) && Next(p, s) == r && Plays(r, rest, q)
    ensures Plays(p, Then(s, rest), q)
  { }

  lemma NoMore(q: Pool)
    ensures Plays(q, End, q)
  { }

  /** The one job signalled once and queued, thread 1 about to cancel it. */
  function RaceBegins(): Pool {
    Pool([0], [Job(1, 1, 0, 0)], [Idle, Cancelling(0)])
  }

  lemma RaceIsReached()
    ensures Plays(Init(2, 1), Then(Signal(0, 0), Then(Count(0), Then(Push(0), Then(Cancel(1, 0), End)))), RaceBegins())
  {
    hide Plays;
    var q := RaceBegins();
    var queued := Pool([0], [Job(1, 1, 0, 0)], [Idle, Idle]);
    NoMore(q);
    OneMore(queued, Cancel(1, 0), q, End, q);
    OneMore(Pool([], [Job(1, 1, 0, 0)], [Pushing(0), Idle]), Push(0), queued, Then(Cancel(1, 0), End), q);
    OneMore(Pool([], [Job(0, 0, 0, 0)], [Signalling(0, 0), Idle]), Count(0),
            Pool([], [Job(1, 1, 0, 0)], [Pushing(0), Idle]), Then(Push(0), Then(Cancel(1, 0), End)), q);
    assert Init(2, 1) == Pool([], [Job(0, 0, 0, 0)], [Idle, Idle]);
    OneMore(Init(2, 1), Signal(0, 0), Pool([], [Job(0, 0, 0, 0)], [Signalling(0, 0), Idle]),
            Then(Count(0), Then(Push(0), Then(Cancel(1, 0), End))), q);
  }

  /** The harmful step can be reached and strands the job: a signal whose increment straddles a
      cancellation leaves a count of two with nobody to serve it. */
  lemma CancelRace()
    ensures Plays(RaceBegins(), Then(Signal(0, 0), Then(TryCancel(1), Then(Count(0), End))),
                  Pool([], [Job(2, 2, 0, 1)], [Idle, Idle]))
  {
    hide Plays;
    var q := Pool([], [Job(2, 2, 0, 1)], [Idle, Idle]);
    var both := Pool([0], [Job(1, 1, 0, 0)], [Signalling(0, 1), Cancelling(0)]);
    var cancelled := Pool([], [Job(0, 1, 0, 1)], [Signalling(0, 1), Idle]);
    NoMore(q);
    OneMore(cancelled, Count(0), q, End, q);
    OneMore(both, TryCancel(1), cancelled, Then(Count(0), End), q);
    OneMore(RaceBegins(), Signal(0, 0), both, Then(TryCancel(1), Then(Count(0), End)), q);
  }
}
