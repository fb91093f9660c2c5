/** A present-or-absent value: the model of a lookup that may yield `undefined`. */
module Wrappers {

  datatype Option<+T> = None | Some(value: T)
}
