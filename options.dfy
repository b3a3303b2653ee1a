/** The absent-or-present value that stands for a Go interface result that may be nil. */
module Options {

  datatype Option<+T> = None | Some(value: T)
}
