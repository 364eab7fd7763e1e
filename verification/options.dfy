/** An optional value: the `undefined` of a missing result or an absent
    argument. */
module Options {
  datatype Option<T> = None | Some(value: T)
}
