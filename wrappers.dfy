/** The optional value the normaliser returns: a result, or nothing. */
module Wrappers {

  datatype Option<T> = None | Some(value: T)
}
