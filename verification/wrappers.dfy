/** The optional-value datatype used for nullable fields of the model. */
module Wrappers {

  /** `None` stands for a nil pointer; `Some(v)` for a pointer to `v`. */
  datatype Option<+T> = None | Some(value: T)
}
