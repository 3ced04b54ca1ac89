/** A value that may be missing: an absent attribute, a failed search, an exception. */
module Options {
  datatype Option<T> = None | Some(value: T)
}
