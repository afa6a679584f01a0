/** An optional value: JavaScript's `undefined` (or an absent argument) beside a present one. */
module Options {
  datatype Option<T> = None | Some(value: T)
}
