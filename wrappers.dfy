/** Option and exception-carrying outcome types shared by the model. */
module Wrappers {

  /** A value that may be absent; `None` stands for a C# `null`. */
  datatype Option<+T> = None | Some(value: T)

  /** The .NET exceptions the protocol client lets escape to its caller. */
  datatype Exception =
    | GeneralException(message: string)      // `new Exception(message)`
    | ArgumentNullException(paramName: string)
    | HttpRequestException                   // the POST could not be sent or its reply not read
    | TaskCanceledException                  // the POST outlived `HttpClient.Timeout`
    | XmlException                           // the reply body is not well-formed XML

  /** The result of an operation that either returns a value or throws. */
  datatype Outcome<+T> = Return(value: T) | Throw(error: Exception)
}
