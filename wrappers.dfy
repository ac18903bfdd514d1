/** The optional value a lookup may lack: JavaScript's `undefined` or `null`. */
module Wrappers {
  datatype Option<+T> = None | Some(value: T)
}
