/** A value that may be absent: Go's `(value, ok)` and nil-or-value returns. */
module Optional {

  datatype Option<T> = None | Some(value: T)
}
