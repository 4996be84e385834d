/** Result types shared by the model. */
module Results {

  datatype Option<+T> = None | Some(value: T)

  /** The outcome of a Go call that returns `(value, error)`. `Panic` stands for a
      run-time panic (an index out of range, a nil dereference): the call does not
      return at all, and an HTTP handler that reaches it answers nothing.  */
  datatype Result<+T, +E> = Ok(value: T) | Err(error: E) | Panic
}
