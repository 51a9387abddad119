/** The Python exceptions the article generator lets escape, and the two
    failure-compatible wrappers the model uses in their place. */
module Errors {

  /** An exception raised by the source (or by the Python built-ins it calls). */
  datatype Exception =
    | IndexError                        // list index out of range
    | FileNotFoundError(path: string)   // open() on a name that is not a file
    | KeyError(key: string)             // dictionary lookup of a missing key
    | ValueError(text: string)          // int() on text that is not an integer
    | ArgumentTypeError(message: string) // raised by an argparse `type=` validator
    | ArgumentError(message: string)    // raised by the command-line dispatch
    | TclError                          // a Tk number variable whose text is not a number
    | TypeError                         // a call with a missing positional argument

  /** The outcome of a computation that may raise. */
  datatype Result<+T> = Ok(value: T) | Err(error: Exception)
  {
    predicate IsFailure()
    {
      Err?
    }

    function PropagateFailure<U>(): Result<U>
      requires Err?
    {
      Err(error)
    }

    function Extract(): T
      requires Ok?
    {
      value
    }
  }

  /** A value that may be absent (Python's `None`). */
  datatype Option<+T> = None | Some(value: T)

  /** Python truthiness of an optional string: `None` and `''` are false. */
  predicate Truthy(s: Option<string>)
  {
    s.Some? && s.value != ""
  }
}
