/** The exceptions the DNS client throws, as values. */
module DnsErrors {

  datatype Error =
    // DnsQuery's constructor (argument checks)
    | TimeoutTooLong
    | TooManyRetries
    | NegativeRetries
    | ServerNotDotted
    | OctetOutOfRange
    | IncorrectArguments
    // DnsQuery.sendQuery
    | IndexOutOfBounds
    | NameTooLarge
    | RequestTimeout(maxRetries: int)
    | IdMismatch(responseId: int, requestId: int)
    // DnsResponse.validateResponse
    | NotAResponse
    | RecursionUnsupported
    | FormatError
    | ServerFailure
    | NameError
    | NotImplemented
    | Refused

  datatype Result<T> = Success(value: T) | Failure(error: Error)

  datatype Option<T> = None | Some(value: T)

  /** The outcome of a check that either passes or throws. */
  datatype Check = Pass | Fail(error: Error)
}
