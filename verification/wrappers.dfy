/** The optional-value type shared by the game and player modules. */
module Wrappers {

  /** A value that may be absent: JavaScript's `null`/`undefined` results. */
  datatype Option<+T> = None | Some(value: T)
}
