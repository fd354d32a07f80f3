/** An optional value: JavaScript's `undefined`/`null` and Python's `None` on one side, a value on the other. */
module Optional {

  datatype Option<+T> = None | Some(value: T)
}
