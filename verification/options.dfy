/** An optional value: a JSON field that may be absent, a pattern that may
    not match. */
module Options {
  datatype Option<+T> = None | Some(value: T)
}
