/** A minimal optional-value datatype, standing in for Python's `Optional`. */
module Wrappers {

  datatype Option<+T> = None | Some(value: T)
}
