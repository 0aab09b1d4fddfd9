/** Python's `None`-or-value, used for the optional timestamps and the lock index. */
module Options {
  datatype Option<T> = None | Some(value: T)
}
