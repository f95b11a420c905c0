/** Failure-carrying result used wherever the scripts catch an exception. */
module Wrappers {

  datatype Option<+T> = None | Some(value: T)
}
