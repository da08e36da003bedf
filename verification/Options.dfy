/** A value or its absence: the source's NULL results. */
module Options {
  datatype Option<T> = None | Some(value: T)
}
