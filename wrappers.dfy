/** Failure-carrying results shared by every module of the model.
    Python's raised exceptions and the client's thrown errors become `Err` values. */
module Wrappers {

  datatype Option<+T> = None | Some(value: T)

  /** The errors the modelled code raises, each carrying its message. */
  datatype Error =
    | ValueError(message: string)          // Python ValueError
    | InvalidMarkedVerse(message: string)  // biblemark.exceptions InvalidMarkedVerse
    | UnknownBook(id: string)              // parse_book on an id the catalogue lacks
    | BadRequest(description: string)      // flask abort(400, ...)
    | ClientError(message: string)         // JavaScript `throw new Error(...)`
    | TypeError(message: string)           // JavaScript property access on null/undefined
    | ZeroDivisionError                    // Python division by zero

  datatype Result<+T> = Ok(value: T) | Err(error: Error)

  /** A check that either passes or fails with an error. */
  datatype Outcome = Pass | Fail(error: Error)
}
