/** Optional values and error-carrying results: the model's stand-ins for
    `undefined` / `null` and for thrown `Error`s. */
module Wrappers {

  datatype Option<T> = None | Some(value: T)

  /** A computation that either produces a value or fails with the message
      the source would have thrown. */
  datatype Result<T> = Ok(value: T) | Err(error: string)
  {
    predicate IsFailure() { Err? }

    function PropagateFailure<U>(): Result<U>
      requires Err?
    {
      Err(error)
    }

    function Extract(): T
      requires Ok?
    {
      value
    }
  }
}
