# Thread-pool job queue

A model of the bounded job queue of a small POSIX thread pool written in C, and of the rule
by which its worker threads stop. The pool keeps a fixed array of `QUEUE_SIZE = 10` jobs used
as a circular buffer, indexed by `head` (oldest job) and `tail` (next free slot), with a counter
`count` and a `shutdown` flag. A job is a function pointer and an opaque argument pointer.

- `thread_pool_types.dfy` (module `ThreadPoolTypes`): `QUEUE_SIZE`, `Job` with optional
  (possibly NULL) function and argument addresses, and the `{NULL, NULL}` job `EmptyJob`.
- `ring.dfy` (module `Ring`): the queue state as a value (`RingState`), its ring invariant
  `Valid` (`0 <= count <= QUEUE_SIZE` and `tail == (head + count) % QUEUE_SIZE`), the queued
  jobs in order (`Contents`), and the effect of `thread_pool_init`, `queue_push` and
  `queue_pop` as functions (`Init`, `Push`, `Pop`), with FIFO lemmas over runs of pushes and pops.
- `worker.dfy` (module `Worker`): the termination rule of `worker_thread` as a step function,
  and `Drain`, what one worker does with the queue once shutdown is set.
- `thread_pool.dfy` (module `ThreadPool`): class `Pool` with the queue as an `array<Job>` and
  the index, counter and flag fields, and the C functions as members that take a possibly-NULL
  pool: methods that update the pool in place (`ThreadPoolInit`, `QueuePush`,
  `ThreadPoolAddJob`, `QueuePop`, `WorkerThread`), each proved against the `Ring` or `Worker`
  function it realises, and read-only functions (`QueueSize`, `QueueEmpty`, `QueueFull`,
  `QueueFront`, `QueueBack`).

The model is sequential. The loops that block on the condition variable become preconditions:
a push may start only when the queue has a free slot or shutdown is set, a pop only when the
queue holds a job or shutdown is set. C's `int` results of the queries are kept as `int`
(`-1` for a NULL pool, `1`/`0` for true/false). `queue_front` and `queue_back` return a pointer
into the queue array; the model returns the index of that slot.

Two behaviours of the code that the model keeps:

- After shutdown `queue_pop` still hands out queued jobs and returns the `{NULL, NULL}` job
  only once the queue is empty, so workers run the jobs still queued (`Ring.Pop`,
  `Worker.Drain`).
- A worker stops on any popped job whose function is NULL while shutdown is set, including a
  queued job that was submitted with a NULL function; the jobs behind it are left for the other
  workers (`Worker.Drain`). Before shutdown such a job is skipped (`Worker.Step`).

## Model

| member | source | states |
|---|---|---|
| Ring.Init | thread_pool.c:61-64 | the resets leave head, tail and count at 0 and shutdown clear, so the ring invariant holds and the queue is empty; the slots are untouched |
| Ring.Push | thread_pool.c:136-143 | on a running pool the jobs queued afterwards are the old ones followed by the new job; after shutdown the state is unchanged (job dropped); the ring invariant is kept |
| Ring.EnqueuedAppends | thread_pool.c:141-143 | writing slot `tail`, advancing `tail` modulo QUEUE_SIZE and incrementing `count` appends the job to the queued sequence and keeps the ring invariant |
| Ring.AdvanceTail | thread_pool.c:142 | `(tail + 1) % QUEUE_SIZE` stays `count + 1` slots after `head` |
| Ring.WindowExtend | thread_pool.c:141 | writing the slot just past the queued jobs of a non-full queue leaves every queued job in place and adds the new one last |
| Ring.AdvanceHead | thread_pool.c:166-167 | after `head` advances modulo QUEUE_SIZE and `count` drops by one, `tail` is still `count` slots after `head` |
| Ring.WindowAdvance | thread_pool.c:165-166 | advancing `head` by one slot removes exactly the oldest queued job and keeps the others in order |
| Ring.Pop | thread_pool.c:159-167 | on an empty queue after shutdown: the `{NULL, NULL}` job and no change; otherwise, shutdown or not, the oldest queued job, and the queue loses exactly that job; the ring invariant is kept |
| Ring.EndSlots | thread_pool.c:107-121 | slot `head` holds the oldest queued job and slot `(tail - 1 + QUEUE_SIZE) % QUEUE_SIZE`, which equals `(head + count - 1) % QUEUE_SIZE`, the newest |
| Ring.PushAll | thread_pool.c:128-146 | consecutive pushes on a running pool append their jobs in order and raise `count` by their number, keeping the ring invariant; after shutdown they leave the state exactly as it was |
| Ring.PopN | thread_pool.c:148-172 | k consecutive pops return the k oldest jobs in queue order and leave the rest queued |
| Ring.FifoOrder | thread_pool.c:128-172 | up to QUEUE_SIZE jobs pushed into an empty queue come back from as many pops in push order, none lost or duplicated, and the queue ends empty |
| Worker.Step | thread_pool.c:11-18 | one pass of the loop: a worker never stops while shutdown is clear, never stops on a job that has a function, and stops on the `{NULL, NULL}` job once shutdown is set |
| Worker.Drain | thread_pool.c:7-19 | after shutdown a worker loses no job: every queued job is either called or left queued, except the one NULL-function job it stops on |
| Worker.StopRule | thread_pool.c:4-22 | a worker stops after a pop exactly when shutdown is set and the queue was empty or had a NULL-function job at its head; on a running pool it never stops |
| Worker.DrainShape | thread_pool.c:7-19 | after shutdown a worker calls, in queue order, every job before the first one with a NULL function and only those, consumes that one and stops leaving the jobs behind it queued, or calls them all and stops when the queue is empty |
| Worker.DrainAfterPop | thread_pool.c:8-18 | one pop plus one pass of the loop performs the first step of `Drain` |
| Worker.DrainRunsAll | thread_pool.c:7-19 | when every queued job has a function, a worker after shutdown runs all of them in order and leaves the queue empty |
| ThreadPool.Pool.constructor | thread_pool.h:33-40 | a pool's storage has a queue array of exactly QUEUE_SIZE slots |
| ThreadPool.ThreadPoolInit | thread_pool.c:56-64 | a non-NULL pool gets head, tail, count 0 and shutdown clear, so it is a valid empty queue; NULL is ignored |
| ThreadPool.QueueSize | thread_pool.c:89-94 | -1 for NULL, otherwise `count`, which is the number of queued jobs and lies in 0..QUEUE_SIZE |
| ThreadPool.QueueEmpty | thread_pool.c:95-100 | -1 exactly for NULL; otherwise 1 exactly when no job is queued, else 0 |
| ThreadPool.QueueFull | thread_pool.c:101-106 | -1 exactly for NULL; otherwise 1 exactly when QUEUE_SIZE jobs are queued, else 0 |
| ThreadPool.QueueFront | thread_pool.c:107-113 | no slot for NULL or an empty queue; otherwise slot `head`, which holds the oldest queued job |
| ThreadPool.QueueBack | thread_pool.c:114-121 | no slot for NULL or an empty queue; otherwise slot `(tail - 1 + QUEUE_SIZE) % QUEUE_SIZE`, which is slot `(head + count - 1) % QUEUE_SIZE` and holds the newest queued job |
| ThreadPool.QueuePush | thread_pool.c:128-146 | on a running pool: job stored at the old `tail`, `tail` advanced modulo QUEUE_SIZE, `count` up by one, `head` and every other slot unchanged, job appended to the queue; after shutdown or for NULL: nothing changes |
| ThreadPool.ThreadPoolAddJob | thread_pool.c:24-28 | has exactly the effect of `queue_push` |
| ThreadPool.QueuePop | thread_pool.c:148-172 | NULL pool, or empty queue after shutdown: the `{NULL, NULL}` job and no change; otherwise the job at the old `head`, `head` advanced modulo QUEUE_SIZE, `count` down by one, the oldest job removed, even after shutdown |
| ThreadPool.WorkerThread | thread_pool.c:4-22 | after shutdown the worker loop calls exactly the jobs `Worker.Drain` runs, in order, and leaves exactly the jobs it leaves |

## Left out

- Mutex, condition variable, `pthread_cond_wait` loops, signal and broadcast calls
  (thread_pool.c:131-134, 144-145, 154-157, 168-169): concurrency; the waits are preconditions.
- ThreadPool.QueuePush: requires a free slot or shutdown instead of blocking until one of them holds.
- ThreadPool.QueuePop: requires a queued job or shutdown instead of blocking until one of them holds.
- ThreadPool.WorkerThread: modelled only once shutdown is set, because before that the loop does
  not end in a sequential run; a single pass before shutdown is `Worker.Step` with `shutdown`
  false. Another thread setting `shutdown` between two pops, and the unlocked read of `shutdown`
  at thread_pool.c:11, are not modelled.
- Calling `job.function(job.arg)` (thread_pool.c:17): a call through a function pointer; the
  model records the job as called instead.
- Thread creation in `thread_pool_init`, `thread_pool_shutdown`, `thread_pool_destroy` and
  `thread_pool_wait` (thread_pool.c:30-54, 66-84): thread creation, joining and blocking; their
  only sequential effect on the queue state is setting `shutdown`.
- `queue_destroy` (thread_pool.c:123-126): its body does nothing for a non-NULL pool.
- `queue_init` is declared in thread_pool.h but defined nowhere; `POOL_SIZE`, the thread
  identifiers and the file-scope pointer `pool` of thread_pool.h are not part of this model.
- test_thread_pool.c: a demonstration program of printing, sleeping and allocation.
- Integer width: `head`, `tail` and `count` stay within 0..10, so C `int` overflow cannot arise.
- A job pushed with NULL function and NULL argument is, once popped, the same value as the
  `{NULL, NULL}` job, as in the C code.
