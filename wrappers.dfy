/** The optional and exceptional results the pipeline's Python code produces. */
module Wrappers {

  /** A value that may be missing: a parser that fails, a model call that fails. */
  datatype Option<+T> = None | Some(value: T)

  /** The Python exceptions that the modelled code lets escape. */
  datatype PyError =
    | TypeError       // subscripting or testing membership in something that is not a dict
    | AttributeError  // calling a str method on something that is not a str

  /** The result of a Python call: a value, or an exception raised to the caller. */
  datatype Outcome<+T> = Ok(value: T) | Raised(error: PyError)
}
