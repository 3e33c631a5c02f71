/** Failure-compatible result types and the error taxonomy of the exchange adapters. */
module Outcomes {

  /** The distinguishable kinds of failure an adapter call can end with. */
  datatype Error =
    | TransportError                // non-success HTTP reply, or a non-empty `error` list in the envelope
    | AllEndpointsUnavailable       // every on-chain endpoint of a raced query rejected
    | CanonicalizationMismatch      // derived normalized pair differs from the normalization oracle
    | MalformedRawRecord            // a raw record or table lacks a field or component it must have
    | UnsupportedExchange(name: string)  // the dispatcher was given a name outside its enumeration

  datatype Option<+T> = None | Some(value: T)

  /** Either the value an adapter call produced, or the error that aborted it. */
  datatype Result<+T> = Success(value: T) | Failure(error: Error) {

    predicate IsFailure() {
      Failure?
    }

    function PropagateFailure<U>(): Result<U>
      requires Failure?
    {
      Failure(error)
    }

    function Extract(): T
      requires Success?
    {
      value
    }
  }
}
