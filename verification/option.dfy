/** An optional value, for a request body that may fail to decode, a
    lookup that may find nothing, and a message that may not parse. */
module Options {
  datatype Option<T> = None | Some(value: T)
}
