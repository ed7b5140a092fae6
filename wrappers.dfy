/** The optional value used for computations that may not finish. */
module Wrappers {
  datatype Option<+T> = None | Some(value: T)
}
