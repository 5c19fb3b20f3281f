/** Failure-compatible wrappers and the exceptions the core can raise. */
module Wrappers {

  datatype Option<+T> = None | Some(value: T)

  datatype Result<+R, +E> = Success(value: R) | Failure(error: E)

  /** The PHP exception classes thrown by the modelled code. */
  datatype Exception =
    | UnresolvableDependencies(pending: seq<string>)  // UnresolvableDependenciesException, with the names left unresolved
    | RuntimeException(message: string)
    | InvalidArgumentException(message: string)
}
