/** A value that may be absent: a null pointer, npos, a failed read. */
module Options {

  datatype Option<T> = None | Some(value: T)
}
