/** Outcomes of the operations: a value, or the Python exception the code
    would raise instead (none of the modelled operations catches one). */
module Errors {

  datatype Option<+T> = None | Some(value: T)

  /** The exceptions the modelled code can raise on its own inputs. */
  datatype PyError =
    | IndexError         // pixel access outside an image
    | ZeroDivisionError  // similarity ratio of an empty candidate image
    | ValueError         // int() of a filename character that is not a digit

  datatype Result<+T> = Ok(value: T) | Err(error: PyError)
}
