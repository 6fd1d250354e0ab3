/** The one optional value used across the model: a JavaScript `null`, a Go nil
    pointer, a SQL NULL or a missing map entry. */
module Wrappers {
  datatype Option<+T> = None | Some(value: T)
}
