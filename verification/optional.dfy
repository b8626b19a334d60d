/** An optional value: the model's rendering of Python's `None`-or-value returns. */
module Optional {

  datatype Option<+T> = None | Some(value: T)
}
