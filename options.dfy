/** The optional value used where the source returns a cell or `null`. */
module Options {
  datatype Option<+T> = None | Some(value: T)
}
