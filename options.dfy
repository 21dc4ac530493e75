/** The absent-or-present value used wherever the source tests a value that may be `null`. */
module Options {
  datatype Option<+T> = None | Some(value: T)
}
