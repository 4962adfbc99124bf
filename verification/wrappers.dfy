/** An optional value, for the places where the search may find nothing. */
module Wrappers {

  datatype Option<T> = None | Some(value: T)
}
