/** Values shared by the whole storage client: optional values, results of calls that can
    raise, and the closed set of faults those calls raise. */
module Common {

  datatype Option<+T> = None | Some(value: T) {
    function GetOr(default: T): T {
      match this
      case Some(v) => v
      case None => default
    }
  }

  /** Either the value a call returned or the fault it raised. A remote call that is not
      part of this model is given to the model as a `Result` of its response. */
  datatype Result<+T> = Success(value: T) | Failure(error: Fault)

  /** Bytes of an object body or of a chunk. */
  type Bytes = seq<bv8>

  /** Every exception kind the modelled code raises or lets through. */
  datatype Fault =
    // GoogleCloudException: a storage API call answered with an unexpected status
    | GoogleCloud(message: string)
    // google.auth TransportError and RefreshError
    | AuthTransport
    | AuthRefresh
    // aiohttp ClientPayloadError, ClientConnectorError, ClientOSError
    | ClientPayload
    | ClientConnector
    | ClientOS
    // aiohttp ContentTypeError: a body that was expected to be JSON is not
    | ContentType
    // HTTP errors that guillotina hands back to its caller
    | Gone(info: string)
    | PreconditionFailed(reason: string)
    | NotFound(reason: string)
    | FileNotFound(message: string)
    | DeleteStorage
    // google.api_core errors raised by the storage SDK
    | ApiNotFound
    | ApiForbidden
    | ApiConflict
    | ApiTooManyRequests
    | ApiServiceUnavailable
    // googleapiclient HttpError (legacy implementation)
    | HttpError
    // Python built-in exceptions
    | AttributeError(message: string)
    | KeyError(key: string)
    | ValueError(literal: string)
    | TypeError
    | IndexError
    | AssertionError

  /** RETRIABLE_EXCEPTIONS: the only faults the backoff decorators retry. */
  predicate Retriable(f: Fault) {
    || f.GoogleCloud?
    || f.AuthTransport?
    || f.AuthRefresh?
    || f.ClientPayload?
    || f.ClientConnector?
    || f.ClientOS?
  }
}
