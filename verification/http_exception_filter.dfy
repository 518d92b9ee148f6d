/**
 * The global exception filter: every thrown value becomes a response whose
 * status and JSON body `{statusCode, message, timestamp}` agree.
 */
module HttpExceptionFilter {
  import opened JsonValues
  import opened Exceptions

  const INTERNAL_MESSAGE := "Internal server error"

  /** The body of an error response. `message` is a string or whatever structured value the exception carried. */
  datatype ErrorBody = ErrorBody(statusCode: int, message: Json, timestamp: string)

  /** The transport status together with the JSON body sent with it. */
  datatype ErrorReply = ErrorReply(status: int, body: ErrorBody)

  /**
   * The message of an HTTP exception: a string response verbatim, otherwise
   * the response's `message` property, with "Error" when that is null or undefined.
   */
  function MessageOf(response: ExceptionResponse): (m: Json)
    ensures response.TextResponse? ==> m == JString(response.text)
    ensures response.ObjectResponse? ==>
      match Member(response.fields, "message")
      case Some(v) => m == (if v.JNull? then JString("Error") else v)
      case None => m == JString("Error")
    ensures m != JNull
  {
    match response
    case TextResponse(text) => JString(text)
    case ObjectResponse(fields) =>
      match Member(fields, "message")
      case Some(JNull) => JString("Error")
      case Some(v) => v
      case None => JString("Error")
  }

  /**
   * `HttpExceptionFilter.catch`. One timestamp, taken when the error is
   * caught, goes into the body; the status of an HTTP exception is kept, and
   * every other thrown value becomes a 500 whose message reveals nothing of it.
   */
  function Catch(exception: Exception, timestamp: string): (r: ErrorReply)
    ensures r.body.statusCode == r.status
    ensures r.body.timestamp == timestamp
    ensures exception.HttpException? ==>
      r.status == exception.status && r.body.message == MessageOf(exception.response)
    ensures exception.Unexpected? ==>
      r.status == INTERNAL_SERVER_ERROR && r.body.message == JString(INTERNAL_MESSAGE)
  {
    match exception
    case HttpException(status, response) =>
      ErrorReply(status, ErrorBody(status, MessageOf(response), timestamp))
    case Unexpected(_) =>
      ErrorReply(INTERNAL_SERVER_ERROR, ErrorBody(INTERNAL_SERVER_ERROR, JString(INTERNAL_MESSAGE), timestamp))
  }

  /** The exceptions Nest builds from a message are reported with that message and their own status. */
  lemma CatchNestException(status: int, message: Json, name: string, timestamp: string)
    requires message != JNull
    ensures Catch(NestException(status, message, name), timestamp)
         == ErrorReply(status, ErrorBody(status, message, timestamp))
  {
    var fields := [("message", message), ("error", JString(name)), ("statusCode", JNumber(status as real))];
    assert Member(fields[..2], "message") == Member(fields[..1], "message");
  }

  /** The body of an unexpected error never depends on what was thrown. */
  lemma CatchHidesUnexpectedDetail(a: string, b: string, timestamp: string)
    ensures Catch(Unexpected(a), timestamp) == Catch(Unexpected(b), timestamp)
  {
  }
}
