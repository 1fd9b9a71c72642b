/** A value that may be absent: the Go list stores `interface{}` values, and
    `nil` is the absent value an empty head node holds. */
module Options {
  datatype Option<T> = None | Some(value: T)
}
