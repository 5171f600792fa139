/** Types shared by the components. */
module Basics {

  type byte = x: int | 0 <= x < 256

  /** A value, or its absence: an empty optional, or an exception whose text
      does not matter here. */
  datatype Option<+T> = None | Some(value: T)
}
