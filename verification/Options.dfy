/** A value that may be missing, such as a null handle or an unset index. */
module Options {
  datatype Option<T> = None | Some(value: T)
}
