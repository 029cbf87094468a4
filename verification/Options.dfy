/** The optional value used throughout: the source's `null`, `undefined` and `None`. */
module Options {
  datatype Option<+T> = None | Some(value: T)
}
