/** Option values: the model's stand-in for Python's `None` and JavaScript's `undefined`. */
module Wrappers {

  datatype Option<+T> = None | Some(value: T)
}
