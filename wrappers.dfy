/** Optional values and the request-level results of the service's endpoints. */
module Wrappers {

  /** A value that may be absent: a missing JSON field, query parameter or file. */
  datatype Option<+T> = None | Some(value: T) {

    /** The value, or `default` when absent (Python's `dict.get(key, default)`). */
    function GetOr(default: T): T {
      match this
      case Some(v) => v
      case None => default
    }
  }

  /** The errors an endpoint can answer with instead of a result. */
  datatype ApiError = MissingMessage | InvalidCategory | QuestionNotFound {

    /** The text of the `error` field of the JSON reply. */
    function Message(): string {
      match this
      case MissingMessage => "Missing message"
      case InvalidCategory => "Invalid or missing category"
      case QuestionNotFound => "Question not found"
    }

    /** The HTTP status the endpoint replies with. */
    function Status(): nat {
      match this
      case MissingMessage => 400
      case InvalidCategory => 400
      case QuestionNotFound => 404
    }
  }

  /** Either the endpoint's successful result or the error it reports. */
  datatype Result<+T> = Ok(value: T) | Err(error: ApiError)
}
