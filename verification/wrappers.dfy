/** The optional-value datatype used for JavaScript's `undefined`. */
module Wrappers {

  /** `None` stands for `undefined` (or a lookup that found nothing). */
  datatype Option<+T> = None | Some(value: T)
}
