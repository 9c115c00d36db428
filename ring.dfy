/** The circular job queue of threadpool_t (thread_pool.h:37-39) as a value, with the
    effect of queue_push, queue_pop and the resets of thread_pool_init as functions on it.
    These functions specify the in-place methods of module ThreadPool. */
module Ring {
  import opened ThreadPoolTypes

  /** `queue[QUEUE_SIZE]`, `head`, `tail`, `count` and `shutdown`. */
  datatype RingState = RingState(slots: seq<Job>, head: int, tail: int, count: int, shutdown: bool)

  /** The ring invariant: indices in range, `count` within capacity, and `tail` exactly
      `count` slots after `head`, modulo the capacity. */
  predicate Valid(s: RingState)
  {
    |s.slots| == QUEUE_SIZE &&
    0 <= s.head < QUEUE_SIZE && 0 <= s.tail < QUEUE_SIZE &&
    0 <= s.count <= QUEUE_SIZE &&
    s.tail == (s.head + s.count) % QUEUE_SIZE
  }

  /** The `n` slots that start at index `start`, wrapping around the end of the array. */
  function Window(slots: seq<Job>, start: int, n: nat): (w: seq<Job>)
    requires |slots| == QUEUE_SIZE && 0 <= start < QUEUE_SIZE
    ensures |w| == n
  {
    seq(n, i requires 0 <= i < n => slots[(start + i) % QUEUE_SIZE])
  }

  /** The queued jobs, oldest first. */
  function Contents(s: RingState): seq<Job>
    requires Valid(s)
  {
    Window(s.slots, s.head, s.count)
  }

  /** Reduction modulo QUEUE_SIZE of an index that has gone at most once around the ring. */
  lemma WrapOnce(x: int)
    requires 0 <= x < 2 * QUEUE_SIZE
    ensures x % QUEUE_SIZE == if x < QUEUE_SIZE then x else x - QUEUE_SIZE
  {
  }

  /** Advancing `tail` by one slot keeps it `count + 1` slots after `head`. */
  lemma AdvanceTail(head: int, count: int, tail: int)
    requires 0 <= head < QUEUE_SIZE && 0 <= count < QUEUE_SIZE && tail == (head + count) % QUEUE_SIZE
    ensures (tail + 1) % QUEUE_SIZE == (head + count + 1) % QUEUE_SIZE
  {
    WrapOnce(head + count);
    WrapOnce(head + count + 1);
    WrapOnce(tail + 1);
  }

  /** Advancing `head` by one slot keeps `tail` exactly `count - 1` slots after it. */
  lemma AdvanceHead(head: int, count: int, tail: int)
    requires 0 <= head < QUEUE_SIZE && 0 < count <= QUEUE_SIZE && tail == (head + count) % QUEUE_SIZE
    ensures tail == ((head + 1) % QUEUE_SIZE + count - 1) % QUEUE_SIZE
  {
    WrapOnce(head + 1);
    WrapOnce(head + count);
    WrapOnce((head + 1) % QUEUE_SIZE + count - 1);
  }

  /** Writing the slot just past a window of fewer than QUEUE_SIZE slots extends the window
      by that slot and leaves the window's own slots alone. */
  lemma WindowExtend(slots: seq<Job>, start: int, n: nat, job: Job)
    requires |slots| == QUEUE_SIZE && 0 <= start < QUEUE_SIZE && n < QUEUE_SIZE
    ensures Window(slots[(start + n) % QUEUE_SIZE := job], start, n + 1) == Window(slots, start, n) + [job]
  {
    var end := (start + n) % QUEUE_SIZE;
    WrapOnce(start + n);
    var w, w' := Window(slots, start, n), Window(slots[end := job], start, n + 1);
    forall i | 0 <= i < n + 1
      ensures w'[i] == (w + [job])[i]
    {
      WrapOnce(start + i);
    }
  }

  /** Moving the start of a non-empty window one slot on drops its first job. */
  lemma WindowAdvance(slots: seq<Job>, start: int, n: nat)
    requires |slots| == QUEUE_SIZE && 0 <= start < QUEUE_SIZE && 0 < n <= QUEUE_SIZE
    ensures Window(slots, (start + 1) % QUEUE_SIZE, n - 1) == Window(slots, start, n)[1..]
  {
    var next := (start + 1) % QUEUE_SIZE;
    WrapOnce(start + 1);
    var w, w' := Window(slots, start, n), Window(slots, next, n - 1);
    forall i | 0 <= i < n - 1
      ensures w'[i] == w[i + 1]
    {
      WrapOnce(next + i);
      WrapOnce(start + i + 1);
    }
  }

  /** The field resets of thread_pool_init: indices and counter to zero, shutdown cleared.
      The slots keep whatever they held. */
  function Init(s: RingState): (r: RingState)
    requires |s.slots| == QUEUE_SIZE
    ensures Valid(r) && Contents(r) == [] && !r.shutdown
    ensures r.head == 0 && r.tail == 0 && r.count == 0
    ensures r.slots == s.slots
  {
    s.(head := 0, tail := 0, count := 0, shutdown := false)
  }

  /** The state queue_push leaves on a running pool with a free slot. */
  function Enqueued(s: RingState, job: Job): RingState
    requires Valid(s) && s.count < QUEUE_SIZE
  {
    s.(slots := s.slots[s.tail := job], tail := (s.tail + 1) % QUEUE_SIZE, count := s.count + 1)
  }

  /** The enqueued state keeps the ring invariant and holds the old jobs followed by the new one. */
  lemma EnqueuedAppends(s: RingState, job: Job)
    requires Valid(s) && s.count < QUEUE_SIZE
    ensures Valid(Enqueued(s, job)) && Contents(Enqueued(s, job)) == Contents(s) + [job]
  {
    WindowExtend(s.slots, s.head, s.count, job);
    AdvanceTail(s.head, s.count, s.tail);
  }

  /** queue_push once its wait for a free slot has ended: a no-op after shutdown, otherwise the
      job goes into slot `tail`, which then advances, and `count` grows by one. */
  function Push(s: RingState, job: Job): (r: RingState)
    requires Valid(s) && (s.count < QUEUE_SIZE || s.shutdown)
    ensures Valid(r) && r.shutdown == s.shutdown
    ensures s.shutdown ==> r == s
    ensures !s.shutdown ==> r.count == s.count + 1
    ensures Contents(r) == if s.shutdown then Contents(s) else Contents(s) + [job]
  {
    if s.shutdown then s
    else
      EnqueuedAppends(s, job);
      Enqueued(s, job)
  }

  /** queue_pop once its wait for a job has ended: the `{NULL, NULL}` job and no change when
      shutdown is set and the queue is empty, otherwise the job at `head`, which then advances,
      and `count` shrinks by one, whether or not shutdown is set. */
  function Pop(s: RingState): (r: (RingState, Job))
    requires Valid(s) && (s.count > 0 || s.shutdown)
    ensures Valid(r.0) && r.0.shutdown == s.shutdown && r.0.slots == s.slots
    ensures s.count == 0 ==> r == (s, EmptyJob)
    ensures s.count > 0 ==> r.1 == Contents(s)[0] && Contents(r.0) == Contents(s)[1..]
  {
    if s.shutdown && s.count == 0 then (s, EmptyJob)
    else
      WindowAdvance(s.slots, s.head, s.count);
      AdvanceHead(s.head, s.count, s.tail);
      (s.(head := (s.head + 1) % QUEUE_SIZE, count := s.count - 1), s.slots[s.head])
  }

  /** The slot queue_back reads, `(tail - 1 + QUEUE_SIZE) % QUEUE_SIZE`, holds the newest job,
      and the slot queue_front reads, `head`, the oldest. */
  lemma {:induction false} EndSlots(s: RingState)
    requires Valid(s) && s.count > 0
    ensures (s.tail - 1 + QUEUE_SIZE) % QUEUE_SIZE == (s.head + s.count - 1) % QUEUE_SIZE
    ensures 0 <= (s.tail - 1 + QUEUE_SIZE) % QUEUE_SIZE < QUEUE_SIZE
    ensures Contents(s)[s.count - 1] == s.slots[(s.tail - 1 + QUEUE_SIZE) % QUEUE_SIZE]
    ensures Contents(s)[0] == s.slots[s.head]
  {
    WrapOnce(s.head + s.count);
    WrapOnce(s.head + s.count - 1);
    WrapOnce(s.tail - 1 + QUEUE_SIZE);
  }

  /** Appending the first job and then the others appends them all. */
  lemma AppendFirst(queued: seq<Job>, jobs: seq<Job>)
    requires jobs != []
    ensures queued + [jobs[0]] + jobs[1..] == queued + jobs
  {
    assert [jobs[0]] + jobs[1..] == jobs;
  }

  /** Several pushes in a row, none of which has to wait: on a running pool they append their
      jobs in order; after shutdown they leave the queue as it was. */
  function PushAll(s: RingState, jobs: seq<Job>): (r: RingState)
    requires Valid(s) && (s.shutdown || s.count + |jobs| <= QUEUE_SIZE)
    ensures Valid(r) && r.shutdown == s.shutdown
    ensures s.shutdown ==> r == s
    ensures r.count == if s.shutdown then s.count else s.count + |jobs|
    ensures Contents(r) == if s.shutdown then Contents(s) else Contents(s) + jobs
    decreases |jobs|
  {
    if jobs == [] then s
    else
      var s' := Push(s, jobs[0]);
      assert Contents(s') == if s.shutdown then Contents(s) else Contents(s) + [jobs[0]];
      AppendFirst(Contents(s), jobs);
      PushAll(s', jobs[1..])
  }

  /** `k` pops in a row from a queue that holds at least `k` jobs, with the jobs they return. */
  function PopN(s: RingState, k: nat): (r: (RingState, seq<Job>))
    requires Valid(s) && k <= s.count
    ensures Valid(r.0) && r.0.shutdown == s.shutdown
    ensures r.1 == Contents(s)[..k] && Contents(r.0) == Contents(s)[k..]
    decreases k
  {
    if k == 0 then (s, [])
    else
      var (s', job) := Pop(s);
      var (s'', jobs) := PopN(s', k - 1);
      (s'', [job] + jobs)
  }

  /** FIFO: on a running pool, jobs pushed into an empty queue come back out of as many pops
      in exactly the order they went in, each once, and the queue is empty again. */
  lemma FifoOrder(s: RingState, jobs: seq<Job>)
    requires Valid(s) && !s.shutdown && s.count == 0 && |jobs| <= QUEUE_SIZE
    ensures PushAll(s, jobs).count == |jobs|
    ensures PopN(PushAll(s, jobs), |jobs|).1 == jobs
    ensures Contents(PopN(PushAll(s, jobs), |jobs|).0) == []
  {
  }
}
