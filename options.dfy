/** The optional value used wherever the C++ code reports failure with `false` or an exception. */
module Options {
  datatype Option<+T> = None | Some(value: T)
}
