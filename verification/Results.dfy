/** Optional values, and the outcomes of the steps that the server may refuse. */
module Results {

  datatype Option<+T> = None | Some(value: T)

  /** The status of a SCIM error, which RFC 7644 section 3.12 takes from the HTTP client and server errors. */
  type ErrorStatus = status: nat | status >= 400 witness 400

  /** Why the server refuses a step; `Rejected` stands for the failures raised outside of the model. */
  datatype Failure =
    | NotFound
    | PreconditionFailed
    | UniquenessTaken
    | InvalidCursor
    | NotSupported
    | DuplicateBulkId(bulkId: string)
    | CircularReference(bulkId: string)
    | NotCreated(bulkId: string)
    | Rejected(code: ErrorStatus)
  {
    function Status(): ErrorStatus {
      match this
      case NotFound => 404
      case PreconditionFailed => 412
      case UniquenessTaken => 409
      case InvalidCursor => 400
      case NotSupported => 501
      case DuplicateBulkId(_) => 400
      case CircularReference(_) => 409
      case NotCreated(_) => 409
      case Rejected(code) => code
    }
  }

  datatype Result<+T> = Ok(value: T) | Err(failure: Failure) {
    predicate IsFailure() {
      Err?
    }

    function PropagateFailure<U>(): Result<U>
      requires Err?
    {
      Err(failure)
    }

    function Extract(): T
      requires Ok?
    {
      value
    }
  }
}
