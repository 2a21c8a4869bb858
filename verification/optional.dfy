/** The absent-or-present value used wherever the source returns an error or a nil. */
module Optional {

  datatype Option<+T> = None | Some(value: T)
}
