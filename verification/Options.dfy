/** A value or nothing, for what a search may not find. */
module Options {
  datatype Option<T> = None | Some(value: T)
}
