/** An optional value: the model's stand-in for Python's `None` and for a call that raised. */
module Options {

  datatype Option<T> = None | Some(value: T)
}
