/** A value or none, as the JavaScript sources use null. */
module Options {
  datatype Option<T> = None | Some(value: T)
}
