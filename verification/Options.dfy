/** A value that may be missing: an error return, a null pointer, a kernel that stopped. */
module Options {
  datatype Option<T> = None | Some(value: T)
}
