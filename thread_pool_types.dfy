/** Constants and the job record of thread_pool.h. */
module ThreadPoolTypes {

  /** Capacity of the circular job queue (QUEUE_SIZE). */
  const QUEUE_SIZE: int := 10

  datatype Option<T> = None | Some(value: T)

  /** A C pointer that is not NULL; NULL is modelled as `None`. */
  type Address = nat

  /** threadpool_job_t: a function pointer and its opaque argument.
      The pool never calls through or inspects either, so both are plain addresses. */
  datatype Job = Job(callable: Option<Address>, arg: Option<Address>)

  /** The `{NULL, NULL}` job that queue_pop hands out when there is nothing left to do. */
  const EmptyJob: Job := Job(None, None)
}
