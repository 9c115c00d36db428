/** The queue operations of thread_pool.c on a pool object updated in place. Each C function
    takes a `threadpool_t *` that may be NULL, so each is a module-level member over `Pool?`;
    the blocking waits on the condition variable become preconditions. */
module ThreadPool {
  import opened ThreadPoolTypes
  import Ring
  import Worker

  /** threadpool_t, without its lock, condition variable and thread identifiers. */
  class Pool {
    const queue: array<Job>
    var head: int
    var tail: int
    var count: int
    var shutdown: bool

    /** Storage for a pool that has not been through thread_pool_init: the queue array exists,
        the indices and the flag hold nothing a caller may rely on. */
    constructor ()
      ensures fresh(queue) && queue.Length == QUEUE_SIZE
    {
      queue := new Job[QUEUE_SIZE](_ => EmptyJob);
    }

    /** The fields as a value of the queue's specification. */
    ghost function State(): Ring.RingState
      reads this, queue
    {
      Ring.RingState(queue[..], head, tail, count, shutdown)
    }

    ghost predicate Valid()
      reads this, queue
    {
      Ring.Valid(State())
    }

    /** The queued jobs, oldest first. */
    ghost function Contents(): seq<Job>
      reads this, queue
      requires Valid()
    {
      Ring.Contents(State())
    }
  }

  /** thread_pool_init, without the lock, condition variable and worker threads. */
  method ThreadPoolInit(pool: Pool?)
    requires pool != null ==> pool.queue.Length == QUEUE_SIZE
    modifies pool
    ensures pool != null ==> pool.State() == Ring.Init(old(pool.State()))
    ensures pool != null ==> pool.head == 0 && pool.tail == 0 && pool.count == 0 && !pool.shutdown
    ensures pool != null ==> pool.Valid() && pool.Contents() == []
  {
    if pool == null { return; }
    pool.head := 0;
    pool.tail := 0;
    pool.count := 0;
    pool.shutdown := false;
  }

  /** queue_size: the number of queued jobs, or -1 for a NULL pool. */
  function QueueSize(pool: Pool?): (r: int)
    reads pool, if pool != null then {pool.queue} else {}
    ensures pool == null ==> r == -1
    ensures pool != null ==> r == pool.count
    ensures pool != null && pool.Valid() ==> 0 <= r <= QUEUE_SIZE && r == |pool.Contents()|
  {
    if pool == null then -1 else pool.count
  }

  /** queue_empty: 1 when no job is queued, 0 otherwise, -1 for a NULL pool. */
  function QueueEmpty(pool: Pool?): (r: int)
    reads pool, if pool != null then {pool.queue} else {}
    ensures pool == null <==> r == -1
    ensures pool != null ==> (r == 1 <==> pool.count == 0) && (r == 0 <==> pool.count != 0)
    ensures pool != null && pool.Valid() ==> (r == 1 <==> pool.Contents() == [])
  {
    if pool == null then -1 else if pool.count == 0 then 1 else 0
  }

  /** queue_full: 1 when all QUEUE_SIZE slots hold a job, 0 otherwise, -1 for a NULL pool. */
  function QueueFull(pool: Pool?): (r: int)
    reads pool, if pool != null then {pool.queue} else {}
    ensures pool == null <==> r == -1
    ensures pool != null ==> (r == 1 <==> pool.count == QUEUE_SIZE) && (r == 0 <==> pool.count != QUEUE_SIZE)
    ensures pool != null && pool.Valid() ==> (r == 1 <==> |pool.Contents()| == QUEUE_SIZE)
  {
    if pool == null then -1 else if pool.count == QUEUE_SIZE then 1 else 0
  }

  /** queue_front: the index of the slot it points into (the oldest job), or None for NULL. */
  function QueueFront(pool: Pool?): (r: Option<nat>)
    requires pool != null ==> pool.Valid()
    reads pool, if pool != null then {pool.queue} else {}
    ensures r.Some? <==> pool != null && pool.Contents() != []
    ensures r.Some? ==> r.value == pool.head && r.value < pool.queue.Length
    ensures r.Some? ==> pool.queue[r.value] == pool.Contents()[0]
  {
    if pool == null then None
    else if QueueEmpty(pool) != 0 then None
    else
      Ring.EndSlots(pool.State());
      Some(pool.head)
  }

  /** queue_back: the index of the slot it points into (the newest job), or None for NULL. */
  function QueueBack(pool: Pool?): (r: Option<nat>)
    requires pool != null ==> pool.Valid()
    reads pool, if pool != null then {pool.queue} else {}
    ensures r.Some? <==> pool != null && pool.Contents() != []
    ensures r.Some? ==> r.value == (pool.head + pool.count - 1) % QUEUE_SIZE && r.value < pool.queue.Length
    ensures r.Some? ==> pool.queue[r.value] == pool.Contents()[|pool.Contents()| - 1]
  {
    if pool == null then None
    else if QueueEmpty(pool) != 0 then None
    else
      Ring.EndSlots(pool.State());
      Some((pool.tail - 1 + QUEUE_SIZE) % QUEUE_SIZE)
  }

  /** queue_push, from the moment its wait for a free slot (or for shutdown) has ended. */
  method QueuePush(pool: Pool?, job: Job)
    requires pool != null ==> pool.Valid() && (pool.count < QUEUE_SIZE || pool.shutdown)
    modifies pool, if pool != null then {pool.queue} else {}
    ensures pool != null ==> pool.State() == Ring.Push(old(pool.State()), job)
    ensures pool != null ==> pool.Valid() && pool.shutdown == old(pool.shutdown)
    ensures pool != null && old(pool.shutdown) ==> unchanged(pool, pool.queue)
    ensures pool != null && !old(pool.shutdown) ==>
      && pool.queue[old(pool.tail)] == job
      && (forall i :: 0 <= i < QUEUE_SIZE && i != old(pool.tail) ==> pool.queue[i] == old(pool.queue[i]))
      && pool.tail == (old(pool.tail) + 1) % QUEUE_SIZE
      && pool.count == old(pool.count) + 1
      && pool.head == old(pool.head)
      && pool.Contents() == old(pool.Contents()) + [job]
  {
    if pool == null { return; }
    if pool.shutdown { return; }
    pool.queue[pool.tail] := job;
    pool.tail := (pool.tail + 1) % QUEUE_SIZE;
    pool.count := pool.count + 1;
  }

  /** thread_pool_add_job: hands the job to queue_push. */
  method ThreadPoolAddJob(pool: Pool?, job: Job)
    requires pool != null ==> pool.Valid() && (pool.count < QUEUE_SIZE || pool.shutdown)
    modifies pool, if pool != null then {pool.queue} else {}
    ensures pool != null ==> pool.State() == Ring.Push(old(pool.State()), job)
    ensures pool != null ==> pool.Valid()
    ensures pool != null ==> pool.Contents() == if old(pool.shutdown) then old(pool.Contents()) else old(pool.Contents()) + [job]
  {
    QueuePush(pool, job);
  }

  /** queue_pop, from the moment its wait for a job (or for shutdown) has ended. */
  method QueuePop(pool: Pool?) returns (job: Job)
    requires pool != null ==> pool.Valid() && (pool.count > 0 || pool.shutdown)
    modifies pool
    ensures pool == null ==> job == EmptyJob
    ensures pool != null ==> (pool.State(), job) == Ring.Pop(old(pool.State()))
    ensures pool != null ==> pool.Valid() && pool.shutdown == old(pool.shutdown)
    ensures pool != null && old(pool.count) == 0 ==> job == EmptyJob && unchanged(pool)
    ensures pool != null && old(pool.count) > 0 ==>
      && job == old(pool.queue[pool.head])
      && pool.head == (old(pool.head) + 1) % QUEUE_SIZE
      && pool.count == old(pool.count) - 1
      && pool.tail == old(pool.tail)
      && job == old(pool.Contents())[0]
      && pool.Contents() == old(pool.Contents())[1..]
  {
    if pool == null { return EmptyJob; }
    if pool.shutdown && QueueEmpty(pool) != 0 { return EmptyJob; }
    job := pool.queue[pool.head];
    pool.head := (pool.head + 1) % QUEUE_SIZE;
    pool.count := pool.count - 1;
  }

  /** worker_thread on a pool whose shutdown flag is set, with calling a job's function
      recorded as appending the job to `executed`. Before shutdown the loop never ends in a
      sequential run: it blocks in queue_pop once the queue is empty. */
  method WorkerThread(pool: Pool) returns (executed: seq<Job>)
    requires pool.Valid() && pool.shutdown
    modifies pool
    ensures pool.Valid() && pool.shutdown
    ensures (executed, pool.Contents()) == Worker.Drain(old(pool.Contents()))
  {
    executed := [];
    ghost var st := pool.State();
    ghost var goal := Worker.Drain(Ring.Contents(st));
    ghost var rest := goal;
    while true
      invariant st == pool.State() && Ring.Valid(st) && st.shutdown
      invariant rest == Worker.Drain(Ring.Contents(st))
      invariant goal.0 == executed + rest.0 && goal.1 == rest.1
      decreases st.count
    {
      var job := QueuePop(pool);
      Worker.DrainAfterPop(st, pool.State(), job);
      st := pool.State();
      Worker.CallsRegroup(executed, Worker.Called(job), Worker.Drain(Ring.Contents(st)).0);
      if Worker.Step(job, pool.shutdown) == Worker.Terminated {
        break;
      }
      rest := Worker.Drain(Ring.Contents(st));
      executed := executed + Worker.Called(job);
    }
  }
}
