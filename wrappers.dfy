/** The optional-value type used for every `Option` of the linted program. */
module Wrappers {
  datatype Option<+T> = None | Some(value: T)
}
