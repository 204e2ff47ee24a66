/** Failure values shared by the crossword model: the exceptions of the
    TypeScript code become values returned by the operations that throw them. */
module Errors {

  datatype Option<T> = None | Some(value: T)

  /** Outcome of an operation that returns a value or throws. */
  datatype Result<T> = Ok(value: T) | Err(error: CWError)

  /** Outcome of an operation that returns nothing or throws. */
  datatype Outcome = Pass | Fail(error: CWError)

  /** The errors the core throws. */
  datatype CWError =
    | EmptyWord           // CWEmptyWordError: a Word built from empty text
    | IndexOutOfBounds    // CWIndexOutOfBoundsError: a character index outside the word
    | InvalidCharLength   // CWInvalidCharLengthError: not exactly one UTF-16 code unit
    | InvalidCharType     // CWInvalidCharTypeError: not a letter a-z once lower-cased
    | DataError           // CWDataError: the dictionary could not answer
    | NoSolution          // Error("No solution found") of the fill generator
    | RowsNotFilled       // Error("Unable to fill every row ...") of the greedy placer
}
