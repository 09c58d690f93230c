/** The `null`-or-value results of the history store's queries. */
module Options {
  datatype Option<T> = None | Some(value: T)
}
