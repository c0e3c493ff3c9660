/** Small failure-carrying datatypes shared by the whole model. */
module Wrappers {

  /**
   * Presence or absence of a value: the model's stand-in for a JavaScript
   * property that may be `undefined` or `null`.
   */
  datatype Option<+T> = None | Some(value: T)

  /** The result of awaiting a call into a foreign library: it either resolves to a value or throws. */
  datatype Attempt<+T> = Done(value: T) | Threw
}
