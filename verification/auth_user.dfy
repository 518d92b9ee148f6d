/** The identity a successful authentication attaches to the request. */
module AuthUser {

  /** `{userId, roles}`, both already coerced to strings. */
  datatype Identity = Identity(userId: string, roles: seq<string>)
}
