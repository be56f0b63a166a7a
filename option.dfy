/** Python's `None`-or-value, for results that may be absent. */
module Optional {

  datatype Option<T> = None | Some(value: T)
}
