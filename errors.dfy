/**
 * The exceptions the aggregation command raises, as values. A `uassert`
 * (a user-facing error) and a `massert` (a peer that broke the protocol) carry
 * their numeric location codes; the stale-config exception carries the reply
 * that triggered it.
 */
module Errors {
  import opened Documents

  datatype Error =
    | UserError(code: int)        // uassert / uasserted
    | ProtocolError(code: int)    // massert: a shard or the merger did not honour the protocol
    | TypeMismatch                // a BSON accessor (Obj, Long, String) met a field of the wrong type
    | StaleConfig(reply: Document) // RecvStaleConfigException

  datatype Result<T> = Success(value: T) | Failure(error: Error)

  /** Outcome of a check that either passes or raises. */
  datatype Check = Pass | Fail(error: Error)
}
