/**
 * What the pipeline can throw. Nest's built-in HTTP exceptions carry a status
 * and a response object `{message, error, statusCode}` built from the message
 * they are given; anything else thrown (a TypeError, say) is `Unexpected`.
 * The status codes are those of section 15 of RFC 9110.
 */
module Exceptions {
  import opened JsonValues

  const BAD_REQUEST := 400            // section 15.5.1 of RFC 9110
  const UNAUTHORIZED := 401           // section 15.5.2
  const FORBIDDEN := 403              // section 15.5.4
  const NOT_FOUND := 404              // section 15.5.5
  const INTERNAL_SERVER_ERROR := 500  // section 15.6.1

  /** The value `getResponse()` returns: a plain string or an object. */
  datatype ExceptionResponse =
    | TextResponse(text: string)
    | ObjectResponse(fields: seq<(string, Json)>)

  datatype Exception =
    | HttpException(status: int, response: ExceptionResponse)
    | Unexpected(description: string)

  /** The exception `new XException(message)` builds for one of Nest's HTTP exception classes. */
  function NestException(status: int, message: Json, name: string): Exception {
    HttpException(status, ObjectResponse([
      ("message", message), ("error", JString(name)), ("statusCode", JNumber(status as real))]))
  }

  function BadRequest(message: Json): Exception {
    NestException(BAD_REQUEST, message, "Bad Request")
  }

  function Unauthorized(message: string): Exception {
    NestException(UNAUTHORIZED, JString(message), "Unauthorized")
  }

  function Forbidden(message: string): Exception {
    NestException(FORBIDDEN, JString(message), "Forbidden")
  }

  function NotFound(message: string): Exception {
    NestException(NOT_FOUND, JString(message), "Not Found")
  }

  /** Reading a property of `undefined`, as JavaScript reports it. */
  function UndefinedAccess(property: string): Exception {
    Unexpected("TypeError: Cannot read properties of undefined (reading '" + property + "')")
  }
}
