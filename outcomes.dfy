/** Values shared by every module: what a Go `error` return carries, and an optional value. */
module Outcomes {

  /** The result of a Go function returning `error`: `nil`, or an error whose text is `msg`. */
  datatype Outcome = Ok | Err(msg: string)

  datatype Option<T> = None | Some(value: T)
}
