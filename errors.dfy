/**
 * The two exceptions the core raises, as values.
 * SugoMessageException carries the rejected message; SugoServerException
 * carries the batch the server refused.
 */
module Errors {
  import opened Json

  datatype SugoError =
    | BadMessage(message: Object)
    | Refused(batch: seq<Object>)

  /** A call that returns normally (`Pass`) or throws (`Fail`). */
  datatype Outcome = Pass | Fail(error: SugoError)
}
