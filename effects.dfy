/** The observable steps of a load, in the order they happen: network requests, timer
    waits, cache reads and writes, failure-flag writes, confirmation prompts and the final
    launch or error screen. Progress-bar text is not part of the trace. */
module Effects {
  import opened Config
  import opened Cache

  datatype Effect =
    | Request(url: string)
    | Delay(ms: nat)
    | CacheLoad(fileName: string)
    | CacheSave(record: CacheRecord)
    | SetFailed(tag: string)
    | Confirm(ageDays: int, accepted: bool)
    | Launch(payload: Bytes)
    | TerminalError(detail: string)

  predicate NoRequests(effects: seq<Effect>) {
    forall i :: 0 <= i < |effects| ==> !effects[i].Request?
  }

  /** The number of network requests in a trace. */
  function RequestCount(effects: seq<Effect>): nat {
    if effects == [] then 0
    else RequestCount(effects[..|effects| - 1]) + (if effects[|effects| - 1].Request? then 1 else 0)
  }

  /** An effect that ends a load: the client starts or the error screen is shown. */
  predicate IsFinal(e: Effect) { e.Launch? || e.TerminalError? }
}
