/** Option and Result types, and the exceptions the record raises. */
module Results {

  datatype Option<T> = None | Some(value: T)

  /** The exception classes raised by the record. Python's single
      `ValueError` class is split by cause. */
  datatype Error =
    | MalformedAddress  // ValueError: index discipline violated, or '.' inside a name
    | NotAList          // ValueError: set_field given something that is not a list
    | FieldNotFound     // ValueError: add_to_field on a missing field without create_if_necessary
    | KeyError
    | IndexError
    | TypeError

  /** The outcome of an operation that may raise. */
  datatype Result<T> = Ok(value: T) | Err(error: Error) {
    predicate IsFailure() { Err? }

    function PropagateFailure<U>(): Result<U>
      requires Err?
    {
      Err(error)
    }

    function Extract(): T
      requires Ok?
    {
      value
    }
  }
}
