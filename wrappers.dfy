/** The optional-value type used by the model for "no match", "not found" and "panicked". */
module Wrappers {

  datatype Option<+T> = None | Some(value: T)

}
