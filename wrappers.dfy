/** The optional value used wherever JavaScript yields `undefined` or the
    handler's `try` block ends in its `catch`. */
module Wrappers {

  datatype Option<+T> = None | Some(value: T)
}
