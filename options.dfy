/** An optional value, for lookups that may find nothing (`querySelector`, `getItem`). */
module Options {
  datatype Option<T> = None | Some(value: T)
}
