/** Small shared datatypes. */
module Common {

  /** A value that may be missing: JavaScript's `undefined` (or `null`) versus a value. */
  datatype Option<+T> = None | Some(value: T)
}
