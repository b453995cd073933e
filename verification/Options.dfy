/** Values that may be absent: a nullable column, an unset key, a refused operation. */
module Options {
  datatype Option<T> = None | Some(value: T)
}
