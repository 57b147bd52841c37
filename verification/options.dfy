/** The absent-or-present value the authentication code returns in place of Python's `None`. */
module Options {

  datatype Option<+T> = None | Some(value: T)

}
