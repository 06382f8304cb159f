/** The optional value used wherever the worker meets `null`, `undefined` or a thrown error. */
module Wrappers {
  datatype Option<+T> = None | Some(value: T)
}
