/** Small failure-carrying datatypes shared by the rest of the model. */
module Wrappers {

  /** An optional value: a dictionary key that may be absent, an environment
      variable that may be unset, a chat input that may be empty. */
  datatype Option<+T> = None | Some(value: T)

  /** The outcome of a call that may raise a Python exception: either the
      returned value, or the exception's message (its `str(e)`). */
  datatype Call<+T> = Returned(value: T) | Raised(message: string)
}
