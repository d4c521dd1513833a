/** The record of cache and store operations, in the order they happen. The cache
    wrapper and the authors repository share one log and each of their operations
    appends its own step, so the order of the steps a service performs follows from
    the order of its calls. */
module StepLog {
  import opened Wrappers

  /** One cache or store operation, named by the Redis key or table it touches. */
  datatype Step =
    | CacheGet(key: string)
    | CacheSet(key: string, expiry: Option<nat>)
    | CacheDelete(key: string)
    | StoreRead
    | StoreWrite

  class Log {
    ghost var steps: seq<Step>

    constructor ()
      ensures steps == []
    {
      steps := [];
    }
  }
}
