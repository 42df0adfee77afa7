// The optional values of the model: Go's pointers that may be nil and lookups that may fail.
module Options {
  datatype Option<+T> = None | Some(value: T)
}
