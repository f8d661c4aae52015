/** The optional value used for the source's "nothing here" and "this raised" outcomes. */
module Wrappers {
  datatype Option<T> = None | Some(value: T)
}
