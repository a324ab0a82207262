/** The optional value the search and the target selector return when they find nothing. */
module Wrappers {
  datatype Option<T> = None | Some(value: T)
}
