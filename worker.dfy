/** The termination rule of worker_thread (thread_pool.c:4-22): a worker runs until the job it
    pops has no function while the pool is shutting down. */
module Worker {
  import opened ThreadPoolTypes
  import Ring

  datatype WorkerState = Running | Terminated

  /** One pass of the worker loop, given the job queue_pop returned and the shutdown flag as the
      worker reads it after the pop. A job with a function is run and the loop goes on; a job
      without one is skipped, unless shutdown is set, in which case the loop ends. */
  function Step(job: Job, shutdown: bool): (next: WorkerState)
    ensures !shutdown ==> next == Running
    ensures job.callable.Some? ==> next == Running
    ensures shutdown && job == EmptyJob ==> next == Terminated
  {
    if job.callable.None? && shutdown then Terminated else Running
  }

  /** The jobs whose function one pass calls: the popped job if it has a function. */
  function Called(job: Job): seq<Job>
  {
    if job.callable.Some? then [job] else []
  }

  /** A worker stops after a pop exactly when the pool is shutting down and the queue was
      either empty (the pop returned the `{NULL, NULL}` job) or held a job without a function
      at its head; on a running pool every pop leaves the worker running. */
  lemma StopRule(s: Ring.RingState)
    requires Ring.Valid(s) && (s.count > 0 || s.shutdown)
    ensures Step(Ring.Pop(s).1, Ring.Pop(s).0.shutdown) == Terminated
        <==> s.shutdown && (Ring.Contents(s) == [] || Ring.Contents(s)[0].callable.None?)
  {
  }

  /** What one worker does with the queued jobs once shutdown is set: the jobs it calls, in
      queue order, and the jobs it leaves in the queue when it stops. */
  function Drain(queued: seq<Job>): (r: (seq<Job>, seq<Job>))
    ensures |r.0| + |r.1| == |queued| - (if |r.0| < |queued| then 1 else 0)
    decreases |queued|
  {
    if queued == [] then ([], [])
    else if Step(queued[0], true) == Terminated then ([], queued[1..])
    else
      var (ran, left) := Drain(queued[1..]);
      (Called(queued[0]) + ran, left)
  }

  /** After shutdown a worker calls, in queue order, every job before the first one without a
      function; it takes that one off the queue and stops, leaving the jobs behind it; with no
      such job it calls them all and stops on the `{NULL, NULL}` job once the queue is empty. */
  lemma {:induction false} DrainShape(queued: seq<Job>)
    ensures |Drain(queued).0| <= |queued| && Drain(queued).0 == queued[..|Drain(queued).0|]
    ensures forall j :: j in Drain(queued).0 ==> j.callable.Some?
    ensures |Drain(queued).0| < |queued| ==>
      queued[|Drain(queued).0|].callable.None? && Drain(queued).1 == queued[|Drain(queued).0| + 1..]
    ensures |Drain(queued).0| == |queued| ==> Drain(queued).1 == []
    decreases |queued|
  {
    if queued != [] && Step(queued[0], true) == Running {
      DrainShape(queued[1..]);
      var (ran, left) := Drain(queued[1..]);
      assert Drain(queued).0 == [queued[0]] + ran;
      assert queued[..|ran| + 1] == [queued[0]] + queued[1..][..|ran|];
      if |ran| < |queued| - 1 {
        assert queued[1..][|ran| + 1..] == queued[|ran| + 2..];
      }
    }
  }

  /** Regrouping the calls recorded so far with those still to come. */
  lemma CallsRegroup(done: seq<Job>, next: seq<Job>, later: seq<Job>)
    ensures done + next + later == done + (next + later)
    ensures done + [] == done
  {
  }

  /** One pop after shutdown followed by one pass of the loop does the first step of Drain:
      if the worker stops, the pop has left what Drain leaves and nothing was called;
      otherwise it has called what Drain calls first, and Drain of what remains does the rest. */
  lemma {:induction false} DrainAfterPop(s: Ring.RingState, s': Ring.RingState, job: Job)
    requires Ring.Valid(s) && s.shutdown && (s', job) == Ring.Pop(s)
    ensures Ring.Valid(s') && s'.shutdown && s'.count <= s.count
    ensures Step(job, true) == Terminated ==> Drain(Ring.Contents(s)) == ([], Ring.Contents(s'))
    ensures Step(job, true) == Running ==> s'.count < s.count
    ensures Step(job, true) == Running ==>
      Drain(Ring.Contents(s)).0 == Called(job) + Drain(Ring.Contents(s')).0 &&
      Drain(Ring.Contents(s)).1 == Drain(Ring.Contents(s')).1
  {
    var queued := Ring.Contents(s);
    if queued != [] {
      assert job == queued[0] && Ring.Contents(s') == queued[1..];
    }
  }

  /** After shutdown a worker still runs every queued job, in order, and leaves the queue
      empty, as long as each of them has a function. */
  lemma {:induction false} DrainRunsAll(queued: seq<Job>)
    requires forall j :: j in queued ==> j.callable.Some?
    ensures Drain(queued) == (queued, [])
    decreases |queued|
  {
    if queued != [] {
      assert queued[0] in queued;
      assert forall j :: j in queued[1..] ==> j in queued;
      DrainRunsAll(queued[1..]);
      assert queued == [queued[0]] + queued[1..];
    }
  }
}
