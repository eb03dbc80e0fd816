/** Optional values and the exceptions of the Java source, as values. */
module Wrappers {
  datatype Option<T> = None | Some(value: T)

  /** The value a Java method returns, or the message of the exception it throws. */
  datatype Result<T> = Ok(value: T) | Err(msg: string)
  {
    /** An exception propagates through `:-`. */
    predicate IsFailure() { Err? }

    function PropagateFailure<U>(): Result<U>
      requires Err?
    {
      Err(msg)
    }

    function Extract(): T
      requires Ok?
    {
      value
    }
  }

  /** The outcome of a Java method that returns nothing or throws. */
  datatype Outcome = Pass | Fail(msg: string)
}
