// Shared datatypes for the models.

module Common {

  /** A value that may be missing (Python's None, or a call that raises). */
  datatype Option<T> = None | Some(value: T)
}
