/** A value that may be absent: a missing key, a missing row, a statement that failed. */
module Options {
  datatype Option<T> = None | Some(value: T)
}
