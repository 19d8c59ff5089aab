/** The optional-value type used throughout the model for Python's `None`-or-value. */
module Wrappers {

  datatype Option<+T> = None | Some(value: T)
}
