/** The optional value returned by the regular-expression engine and by searches. */
module Wrappers {

  datatype Option<+T> = None | Some(value: T)
}
