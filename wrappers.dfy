/** An optional value: JavaScript's "present or missing". */
module Wrappers {
  datatype Option<T> = None | Some(value: T)
}
