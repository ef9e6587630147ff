/** The optional value used wherever the source may see `undefined` or a failed call. */
module Wrappers {

  datatype Option<+T> = None | Some(value: T)
}
