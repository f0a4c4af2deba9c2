/** JavaScript's `undefined`/`null` alongside a present value. */
module Optional {
  datatype Option<+T> = None | Some(value: T)
}
