/** The optional value used for the nullable fields of the condition records. */
module Wrappers {

  /** `None` stands for C#'s `null`; `Some(v)` for a present value. */
  datatype Option<+T> = None | Some(value: T)
}
