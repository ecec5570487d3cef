/** Who sleeps in the thread pool (util/threadpool.c): workers wait on a condition while the
    list is empty, and do_job signals it once, after it has let go of the job.  A worker
    that queues its own job again signals nobody. */
module PoolWakeup {
  import opened ThreadPool

  /** The first threads are the workers, the others call do_job and cancel_job.  `owing`
      are the callers that have not signalled the condition yet. */
  datatype Wake = Wake(pool: Pool, workers: nat, asleep: set<nat>, owing: set<nat>)

  datatype Move =
    | Base(step: Step)
    | Sleep(t: nat)
    | Ring(t: nat, woken: nat)  // wakes one of the workers that wait, if any
    | Spurious(t: nat)

  predicate Role(w: Wake, s: Step) {
    match s
    case Signal(t, _) => t >= w.workers
    case Cancel(t, _) => t >= w.workers
    case Pop(t) => t < w.workers
    case _ => true
  }

  ghost predicate Can(w: Wake, m: Move) {
    && w.workers <= |w.pool.threads|
    && match m
       case Base(s) => Enabled(w.pool, s) && Role(w, s) && s.t !in w.asleep && s.t !in w.owing
       case Sleep(t) => t < w.workers && t !in w.asleep && w.pool.threads[t].Idle? && w.pool.queue == []
       case Ring(t, u) => t in w.owing && (w.asleep != {} ==> u in w.asleep)
       case Spurious(t) => t in w.asleep
  }

  /** With this step a caller is through with the job in do_job. */
  predicate Leaves(w: Wake, s: Step)
    requires s.t < |w.pool.threads|
  {
    s.t >= w.workers &&
    (s.Push? || (s.Count? && w.pool.threads[s.t].Signalling? && w.pool.threads[s.t].seen != 0))
  }

  function After(w: Wake, m: Move): Wake
    requires Can(w, m)
  {
    match m
    case Base(s) => w.(pool := Next(w.pool, s), owing := w.owing + if Leaves(w, s) then {s.t} else {})
    case Sleep(t) => w.(asleep := w.asleep + {t})
    case Ring(t, u) => w.(owing := w.owing - {t}, asleep := w.asleep - {u})
    case Spurious(t) => w.(asleep := w.asleep - {t})
  }

  /** Work that is queued has somebody to see to it: a worker that is awake, or a caller
      that is about to wake one. */
  ghost predicate Attended(w: Wake) {
    w.pool.queue != [] ==> w.owing != {} || exists t :: 0 <= t < w.workers && t !in w.asleep
  }

  ghost predicate WakeInv(w: Wake) {
    && 0 < w.workers <= |w.pool.threads| && (forall t <- w.asleep :: t < w.workers)
    && Attended(w)
  }

  lemma MoveKeeps(w: Wake, m: Move)
    requires WakeInv(w) && Can(w, m)
    ensures WakeInv(After(w, m))
  {
    var v := After(w, m);
    match m
    case Base(s) =>
      assert |v.pool.threads| == |w.pool.threads|;
      if s.Push? && s.t >= w.workers { assert s.t in v.owing; }
    case Sleep(t) =>
    case Ring(t, u) =>
      if w.asleep == {} { assert 0 !in v.asleep; } else { assert u !in v.asleep; }
    case Spurious(t) => assert t !in v.asleep;
  }

  /** Over every run, from any state in which nothing is queued: no job waits in the list
      while every worker sleeps and nobody is about to wake one. */
  lemma {:induction false} WorkIsAttended(states: seq<Wake>, moves: seq<Move>, k: nat)
    requires |states| == |moves| + 1 && k <= |moves|
    requires 0 < states[0].workers <= |states[0].pool.threads| && states[0].pool.queue == []
    requires forall t <- states[0].asleep :: t < states[0].workers
    requires forall n :: 0 <= n < |moves| ==> Can(states[n], moves[n]) && states[n + 1] == After(states[n], moves[n])
    ensures WakeInv(states[k])
  {
    if k > 0 {
      WorkIsAttended(states, moves, k - 1);
      MoveKeeps(states[k - 1], moves[k - 1]);
    }
  }

  /** What the moves do, and that an idle worker is free to make its own. */
  lemma WorkersMove(w: Wake, t: nat)
    requires WakeInv(w) && t < w.workers && t !in w.asleep && w.pool.threads[t].Idle? && t !in w.owing
    ensures w.pool.queue == [] ==> Can(w, Sleep(t)) && After(w, Sleep(t)) == w.(asleep := w.asleep + {t})
    ensures w.pool.queue != [] && WellFormed(w.pool) ==>
              Can(w, Base(Pop(t))) && After(w, Base(Pop(t))).pool.threads[t] == Running(w.pool.queue[0])
  { }

  /** A caller that still has to signal can do so, and wakes a worker if any sleeps. */
  lemma CallersRing(w: Wake, t: nat) returns (u: nat)
    requires WakeInv(w) && t in w.owing
    ensures Can(w, Ring(t, u)) && t !in After(w, Ring(t, u)).owing
    ensures w.asleep != {} ==> u in w.asleep && u !in After(w, Ring(t, u)).asleep
  {
    if w.asleep != {} { u :| u in w.asleep; } else { u := 0; }
  }
}
