/** The optional value used for nullable component state and for fields the
    content document may leave out. */
module Wrappers {

  datatype Option<T> = None | Some(value: T)
}
