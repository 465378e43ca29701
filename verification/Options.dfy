/** A value that may be absent, for null pointers and for calls that may fail. */
module Options {

  datatype Option<T> = None | Some(value: T)
}
