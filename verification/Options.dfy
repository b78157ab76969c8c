/** Results that may be absent: NULL pointers, failed lookups, unmapped addresses. */
module Options {

  datatype Option<T> = None | Some(value: T)
}
