/** How the services report results: optional values, thrown values and
    settled calls. */
module Outcomes {

  /** A JavaScript value that may be `undefined`. */
  datatype Option<T> = None | Some(value: T)

  /** What a `throw` carries: an `Error` object with its message, or any
      other value. */
  datatype Thrown = Error(message: string) | NonError

  /** A settled call: the value it produced, or what it threw. */
  datatype Outcome<T> = Ok(value: T) | Fail(error: Thrown)

  /** `error instanceof Error ? error.message : fallback`. */
  function MessageOr(t: Thrown, fallback: string): string
  {
    match t
    case Error(m) => m
    case NonError => fallback
  }
}
