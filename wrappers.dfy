/** Failure-carrying values shared by the other modules. */
module Wrappers {

  /** A value that may be absent (TypeScript's `T | void` / `undefined`). */
  datatype Option<+T> = None | Some(value: T)

  /** The result of an operation that either returns normally or throws with a message. */
  datatype Outcome<+E> = Pass | Fail(error: E)
}
