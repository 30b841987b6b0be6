/** The optional value used wherever a DOM query may find nothing. */
module Wrappers {

  datatype Option<T> = None | Some(value: T)
}
