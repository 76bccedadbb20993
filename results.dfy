/**
 * The Python exceptions that end a run of the tool, and the Option / Result
 * types the model uses in their place.
 */
module Results {

  datatype Option<+T> = None | Some(value: T)

  /** The exception a Python operation of the tool raises. */
  datatype Error =
    | Exit(message: string)   // sys.exit(message)
    | NameError(name: string) // a name that was never imported
    | IndexError
    | KeyError
    | ValueError
    | AssertionError
    | AttributeError          // an attribute read on None
    | TypeError               // a None passed where a string is needed
    | StopIteration           // next() on an exhausted iterator without a default
    | ZeroDivisionError
    | FileNotFound(path: string)

  datatype Result<+T> = Ok(value: T) | Err(error: Error) {
    predicate IsFailure() { Err? }
    function PropagateFailure<U>(): Result<U> requires Err? { Err(error) }
    function Extract(): T requires Ok? { value }
  }
}
