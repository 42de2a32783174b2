/** Absence markers shared by the model. */
module Wrappers {

  /** `None` stands for JavaScript `null`, or `undefined` where a lookup misses. */
  datatype Option<+T> = None | Some(value: T)
}
