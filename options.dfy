/** The optional value used wherever the source returns a reference that may be nil. */
module Options {

  datatype Option<T> = None | Some(value: T)
}
