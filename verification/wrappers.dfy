/** The optional value used wherever the source returns `undefined` or skips an action. */
module Wrappers {

  datatype Option<+T> = None | Some(value: T)
}
