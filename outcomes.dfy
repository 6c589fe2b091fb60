/** Values standing for Python's `None` and for calls that may raise. */
module Outcomes {

  /** A Python value that may be `None`. */
  datatype Option<+T> = None | Some(value: T)

  /** The exceptions the modelled code raises or catches. */
  datatype Exception =
    | ValueError      // raised by the code itself (bad directory, missing API key)
    | KeyError        // a missing dictionary key or dataframe column
    | OSError         // a failed file-system call (a missing output directory, say)
    | ServiceError    // anything raised by an external client (S3, Textract, LanceDB, OpenAI)

  /** The result of a call that either returns a value or raises. */
  datatype Outcome<+T> = Ok(value: T) | Raised(exception: Exception)
}
