/** What the steps of the thread pool (util/threadpool.c) do to the list, the threads and
    the counts, that work gets done, and in which order. */
module PoolProgress {
  import opened Lists
  import opened ThreadPool

  /** Only thread t and the list and jobs named differ. */
  predicate OnlyThread(p: Pool, q: Pool, t: nat)
    requires t < |p.threads|
  {
    && |q.threads| == |p.threads| && |q.jobs| == |p.jobs|
    && forall u :: 0 <= u < |p.threads| && u != t ==> q.threads[u] == p.threads[u]
  }

  predicate OtherJobsSame(p: Pool, q: Pool, j: nat) {
    |q.jobs| == |p.jobs| && forall i :: 0 <= i < |p.jobs| && i != j ==> q.jobs[i] == p.jobs[i]
  }

  // --------------------------------------------------------------- what a worker does

  /** An idle worker takes the first job of the list and runs it; the rest stay in order. */
  lemma PopStarts(p: Pool, t: nat)
    requires Enabled(p, Pop(t))
    ensures var q := Next(p, Pop(t));
            && OnlyThread(p, q, t) && q.jobs == p.jobs
            && q.threads[t].Running? && p.queue == [q.threads[t].job] + q.queue
  { }

  lemma ReturnEnds(p: Pool, t: nat)
    requires Enabled(p, Return(t))
    ensures var q := Next(p, Return(t));
            && OnlyThread(p, q, t) && q.jobs == p.jobs && q.queue == p.queue
            && q.threads[t].Ran? && q.threads[t].job == p.threads[t].job
  { }

  /** A run is counted, and the job is to be queued again exactly when signals are left. */
  lemma FinishCounts(p: Pool, t: nat)
    requires Enabled(p, Finish(t))
    ensures var j, q := p.threads[t].job, Next(p, Finish(t));
            && OnlyThread(p, q, t) && q.queue == p.queue && OtherJobsSame(p, q, j)
            && q.jobs[j].runs == p.jobs[j].runs + 1 && q.jobs[j].signalcount == p.jobs[j].signalcount - 1
            && q.jobs[j].calls == p.jobs[j].calls && q.jobs[j].dropped == p.jobs[j].dropped
            && (q.jobs[j].signalcount > 0 ==> q.threads[t].Pushing? && q.threads[t].job == j)
            && (q.jobs[j].signalcount <= 0 ==> q.threads[t].Idle?)
  { }

  lemma PushQueues(p: Pool, t: nat)
    requires Enabled(p, Push(t))
    ensures var q := Next(p, Push(t));
            && OnlyThread(p, q, t) && q.jobs == p.jobs && q.threads[t].Idle?
            && q.queue == p.queue + [p.threads[t].job]
  { }

  // --------------------------------------------------------------- what a caller does

  /** do_job: the count goes up by one, and the job is queued exactly when it was zero. */
  lemma SignalCounts(p: Pool, t: nat, j: nat)
    requires Inv(p) && Enabled(p, Signal(t, j))
    ensures var q := Next(p, Signal(t, j));
            && OnlyThread(p, q, t) && q.jobs == p.jobs && q.queue == p.queue && Inv(q) && Enabled(q, Count(t))
            && var r := Next(q, Count(t));
               && OnlyThread(p, r, t) && r.queue == p.queue && OtherJobsSame(p, r, j)
               && r.jobs[j].signalcount == p.jobs[j].signalcount + 1 && r.jobs[j].calls == p.jobs[j].calls + 1
               && r.jobs[j].runs == p.jobs[j].runs && r.jobs[j].dropped == p.jobs[j].dropped
               && (p.jobs[j].signalcount == 0 ==> r.threads[t].Pushing? && r.threads[t].job == j)
               && (p.jobs[j].signalcount != 0 ==> r.threads[t].Idle?)
  {
    StepKeeps(p, Signal(t, j));
  }

  /** cancel_job: a queued job leaves the list, the others keeping their order, and its
      signals are dropped; one that is not queued is waited for until its count is zero. */
  lemma CancelTakes(p: Pool, t: nat)
    requires Enabled(p, TryCancel(t))
    ensures var j, q := p.threads[t].job, Next(p, TryCancel(t));
            && OnlyThread(p, q, t) && OtherJobsSame(p, q, j)
            && (j in p.queue ==>
                  && q.queue == Without(p.queue, j) && q.threads[t].Idle? && q.jobs[j].signalcount == 0
                  && q.jobs[j].dropped == p.jobs[j].dropped + p.jobs[j].signalcount
                  && q.jobs[j].calls == p.jobs[j].calls && q.jobs[j].runs == p.jobs[j].runs)
            && (j !in p.queue ==>
                  && q.queue == p.queue && q.jobs == p.jobs
                  && (q.threads[t].Idle? <==> p.jobs[j].signalcount <= 0))
  { }

  // ------------------------------------------------------------------------ progress

  /** A step that gets on with work already asked for: not a new signal or cancellation,
      and not a turn of cancel_job that only waits. */
  ghost predicate Useful(p: Pool, s: Step)
    requires Enabled(p, s)
  {
    match s
    case Signal(_, _) => false
    case Cancel(_, _) => false
    case TryCancel(t) => Next(p, s) != p
    case _ => true
  }

  function Counts(jobs: seq<Job>): nat {
    if jobs == [] then 0
    else Counts(jobs[..|jobs| - 1]) + if jobs[|jobs| - 1].signalcount > 0 then jobs[|jobs| - 1].signalcount else 0
  }

  /** How far the thread is from being idle. */
  function Stage(th: Thread): nat {
    match th
    case Idle => 0
    case Signalling(_, _) => 8
    case Pushing(_) => 3
    case Running(_) => 1
    case Ran(_) => 0
    case Cancelling(_) => 1
  }

  function Stages(threads: seq<Thread>): nat {
    if threads == [] then 0 else Stages(threads[..|threads| - 1]) + Stage(threads[|threads| - 1])
  }

  /** The work that is left: four steps a signal, less what was done of them. */
  function Work(p: Pool): nat {
    4 * Counts(p.jobs) + 2 * |p.queue| + Stages(p.threads)
  }

  lemma {:induction false} CountsSet(jobs: seq<Job>, j: nat, x: Job)
    requires j < |jobs| && jobs[j].signalcount >= 0 && x.signalcount >= 0
    ensures Counts(jobs[j := x]) == Counts(jobs) - jobs[j].signalcount + x.signalcount
  {
    var n := |jobs| - 1;
    if j < n {
      assert jobs[j := x][..n] == jobs[..n][j := x];
      CountsSet(jobs[..n], j, x);
    } else {
      assert jobs[j := x][..n] == jobs[..n];
    }
  }

  lemma {:induction false} StagesSet(threads: seq<Thread>, t: nat, th: Thread)
    requires t < |threads|
    ensures Stages(threads[t := th]) == Stages(threads) - Stage(threads[t]) + Stage(th)
  {
    var n := |threads| - 1;
    if t < n {
      assert threads[t := th][..n] == threads[..n][t := th];
      StagesSet(threads[..n], t, th);
    } else {
      assert threads[t := th][..n] == threads[..n];
    }
  }

  /** Every useful step leaves less to do. */
  lemma WorkFalls(p: Pool, s: Step)
    requires Inv(p) && Enabled(p, s) && Useful(p, s)
    ensures Work(Next(p, s)) < Work(p)
  {
    hide Counts, Stages;
    var q, j := Next(p, s), Subject(p, s);
    assert JobOk(p, j);
    NextShape(p, s);
    StagesSet(p.threads, s.t, q.threads[s.t]);
    match s
    case Count(t) => CountsSet(p.jobs, j, q.jobs[j]);
    case Finish(t) =>
      assert Active(p.threads[t], j);
      CountsSet(p.jobs, j, q.jobs[j]);
    case TryCancel(t) => CountsSet(p.jobs, j, q.jobs[j]);
    case _ =>
  }

  /** Some signal is not served, some job queued, or some thread inside the pool. */
  ghost predicate Busy(p: Pool) {
    || p.queue != []
    || (exists j :: 0 <= j < |p.jobs| && p.jobs[j].signalcount > 0)
    || (exists t :: 0 <= t < |p.threads| && !p.threads[t].Idle?)
  }

  /** As long as it is busy some thread can take a useful step, whatever the others wait for. */
  lemma UsefulStepExists(p: Pool) returns (s: Step)
    requires Inv(p) && p.threads != [] && Busy(p)
    ensures Enabled(p, s) && Useful(p, s)
  {
    if t :| 0 <= t < |p.threads| && p.threads[t].Signalling? {
      s := Count(t);
    } else if t :| 0 <= t < |p.threads| && p.threads[t].Pushing? {
      s := Push(t);
    } else if t :| 0 <= t < |p.threads| && p.threads[t].Running? {
      s := Return(t);
    } else if t :| 0 <= t < |p.threads| && p.threads[t].Ran? {
      s := Finish(t);
    } else if t :| 0 <= t < |p.threads| && p.threads[t].Cancelling? {
      s := TryCancel(t);
      CancelGetsOn(p, t);
    } else {
      s := Pop(0);
      if j :| 0 <= j < |p.jobs| && p.jobs[j].signalcount > 0 { assert JobOk(p, j); }
    }
  }

  /** While no thread has the job, a cancellation does not wait. */
  lemma CancelGetsOn(p: Pool, t: nat)
    requires Inv(p) && t < |p.threads| && p.threads[t].Cancelling? && !HasOwner(p, p.threads[t].job)
    ensures Enabled(p, TryCancel(t)) && Useful(p, TryCancel(t))
  {
    assert JobOk(p, p.threads[t].job);
    assert Next(p, TryCancel(t)).threads[t].Idle?;
  }

  /** So where no useful step is left, everything asked for has been done. */
  lemma DoneWhenStuck(p: Pool)
    requires Inv(p) && p.threads != [] && forall s :: Enabled(p, s) ==> !Useful(p, s)
    ensures !Busy(p)
  {
    if Busy(p) { var s := UsefulStepExists(p); }
  }

  /** Without new calls every signal is served, or dropped, within a bounded number of steps. */
  lemma {:induction false} BoundedService(states: seq<Pool>, steps: seq<Step>, n: nat)
    requires IsRun(states, steps) && n <= |steps|
    requires forall k :: 0 <= k < n ==> Useful(states[k], steps[k])
    ensures Work(states[n]) + n <= Work(states[0])
  {
    hide Work, Next, Enabled, Harmful, Useful;
    if n > 0 {
      BoundedService(states, steps, n - 1);
      RunKeeps(states, steps, n - 1);
      WorkFalls(states[n - 1], steps[n - 1]);
    }
  }

  // --------------------------------------------------------------------------- order

  /** The jobs queued in the first n steps of a run, and the jobs started in them. */
  function Pushed(states: seq<Pool>, steps: seq<Step>, n: nat): seq<nat>
    requires n <= |steps| < |states|
    requires forall k :: 0 <= k < n ==> Enabled(states[k], steps[k])
  {
    if n == 0 then []
    else Pushed(states, steps, n - 1) + if steps[n - 1].Push? then [Subject(states[n - 1], steps[n - 1])] else []
  }

  function Started(states: seq<Pool>, steps: seq<Step>, n: nat): seq<nat>
    requires n <= |steps| < |states|
    requires forall k :: 0 <= k < n && steps[k].Pop? ==>
               steps[k].t < |states[k + 1].threads| && states[k + 1].threads[steps[k].t].Running?
  {
    if n == 0 then []
    else
      var before := Started(states, steps, n - 1);
      if steps[n - 1].Pop? then before + [states[n].threads[steps[n - 1].t].job] else before
  }

  /** Jobs start in the order in which they were queued, none skipped, as long as none is
      cancelled while queued. */
  lemma {:induction false} FirstInFirstOut(states: seq<Pool>, steps: seq<Step>, n: nat)
    requires IsRun(states, steps) && n <= |steps|
    requires forall k :: 0 <= k < n && steps[k].TryCancel? ==> Subject(states[k], steps[k]) !in states[k].queue
    ensures forall k :: 0 <= k < n && steps[k].Pop? ==>
              steps[k].t < |states[k + 1].threads| && states[k + 1].threads[steps[k].t].Running?
    ensures states[0].queue + Pushed(states, steps, n) == Started(states, steps, n) + states[n].queue
  {
    if n == 0 {
      assert states[0].queue + [] == [] + states[0].queue;
    } else {
      FirstInFirstOut(states, steps, n - 1);
      var p, q, s := states[n - 1], states[n], steps[n - 1];
      match s
      case Pop(t) =>
        PopStarts(p, t);
        Shift(states[0].queue + Pushed(states, steps, n - 1), Started(states, steps, n - 1), q.threads[t].job, q.queue);
      case Push(t) =>
        PushQueues(p, t);
        Append(states[0].queue, Pushed(states, steps, n - 1), Started(states, steps, n - 1), p.queue, p.threads[t].job);
      case _ => assert q.queue == p.queue;
    }
  }

  lemma Shift(all: seq<nat>, started: seq<nat>, j: nat, rest: seq<nat>)
    requires all == started + ([j] + rest)
    ensures all == (started + [j]) + rest && all + [] == all
  { }

  lemma Append(first: seq<nat>, pushed: seq<nat>, started: seq<nat>, queue: seq<nat>, j: nat)
    requires first + pushed == started + queue
    ensures first + (pushed + [j]) == started + (queue + [j])
  {
    assert first + (pushed + [j]) == (first + pushed) + [j] == (started + queue) + [j];
  }
}
