/** The optional value used where the original programs use `null` or `undefined`. */
module Options {
  datatype Option<+T> = None | Some(value: T)
}
