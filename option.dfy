/** An optional value: the model's stand-in for Python's `None` results. */
module Options {

  datatype Option<+T> = None | Some(value: T)
}
