/** Option and Result, plus the Python exceptions and prompts the scripts can end in. */
module Wrappers {

  datatype Option<T> = None | Some(value: T)

  /** What a script run ends in when it does not finish normally. */
  datatype Error =
    | ValueError(reason: string)   // e.g. unpacking a list of the wrong length, int() of bad text
    | TypeError(reason: string)    // e.g. joining integers, ordering None against an int
    | KeyError(key: string)        // a missing dictionary key or DataFrame column
    | Prompt(reason: string)       // the script stops at input('ENTER') for the operator
    | Raised(reason: string)       // a bare `raise Exception(...)` in the script

  datatype Result<T> = Ok(value: T) | Err(error: Error)
}
