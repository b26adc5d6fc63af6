/** The optional value used for Python's `None` and for a validator that rejects. */
module Wrappers {

  datatype Option<+T> = None | Some(value: T)
}
