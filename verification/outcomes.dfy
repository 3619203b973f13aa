/** Failure-carrying result types shared by the tree and the containers. */
module Outcomes {

  /** A value that may be absent; the counterpart of a `None` return. */
  datatype Option<+T> = None | Some(value: T)

  /** The conditions the tree layer raises to its callers. `AlreadyExists`
      never escapes the tree layer, so it has no constructor here. */
  datatype TreeError =
    | NotFound(path: string)     // a path could not be stat'ed
    | OutOfRange(path: string)   // a queried path is not under the tree's root

  /** Either a value or the condition that was raised instead. */
  datatype Result<+T> = Ok(value: T) | Err(error: TreeError)
}
