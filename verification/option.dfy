/** An optional value: `None` stands for JavaScript's `undefined`/`null` or
    for a failed read, `Some` for a present value. */
module Optional {
  datatype Option<+T> = None | Some(value: T)
}
