/** An optional value: stands for JavaScript's `null` / `undefined` beside a present value. */
module Optional {
  datatype Option<+T> = None | Some(value: T)
}
