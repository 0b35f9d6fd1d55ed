/** Option, the value-or-nothing type used for Python's `None` results and for
    decoders that can fail. */
module Wrappers {
  datatype Option<+T> = None | Some(value: T)
}
