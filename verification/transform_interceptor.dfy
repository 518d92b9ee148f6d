/** The global interceptor that wraps every successful handler value in one envelope. */
module TransformInterceptor {

  datatype Meta = Meta(timestamp: string, success: bool)

  /** `{data, meta: {timestamp, success}}`. */
  datatype Envelope<+T> = Envelope(data: T, meta: Meta)

  /**
   * `TransformInterceptor.intercept`: the handler's value travels unchanged
   * under `data`; `meta` records the time of wrapping and always says success.
   */
  function Intercept<T>(data: T, timestamp: string): (r: Envelope<T>)
    ensures r.data == data
    ensures r.meta.success
    ensures r.meta.timestamp == timestamp
  {
    Envelope(data, Meta(timestamp, true))
  }
}
