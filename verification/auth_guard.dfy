/**
 * Authentication: pick the Authorization header, check its Bearer shape,
 * decode the token into an identity. Base64 decoding and `JSON.parse`
 * together are the partial function `parse` of a `TokenCodec`; formatting a
 * number as a string is its `numberText`.
 */
module AuthGuard {
  import opened Wrappers
  import opened JsonValues
  import opened Text
  import opened Exceptions
  import opened AuthUser

  const MISSING_HEADER := "Missing or invalid Authorization header"
  const INVALID_TOKEN := "Invalid token"
  const SCHEME := "Bearer"

  /** The library code behind `decodeToken`; `parse` is `None` where `JSON.parse` throws. */
  datatype TokenCodec = TokenCodec(parse: string -> Option<Json>, numberText: real -> string)

  /**
   * A request header value. The guard's `Array.isArray` branch is kept
   * although Node joins or drops repeated headers and delivers only
   * `set-cookie` as an array, so `Multiple` never arises for Authorization.
   */
  datatype HeaderValue = Single(text: string) | Multiple(values: seq<string>)

  type Headers = map<string, HeaderValue>

  /** `roles.map((r) => String(r))`; `None` when some element's coercion throws. */
  function RolesText(items: seq<Json>, numberText: real -> string): (r: Option<seq<string>>)
    ensures r.Some? <==> forall i :: 0 <= i < |items| ==> ToJsString(items[i], numberText).Some?
    ensures r.Some? ==>
      && |r.value| == |items|
      && forall i :: 0 <= i < |items| ==> ToJsString(items[i], numberText) == Some(r.value[i])
    decreases |items|
  {
    if |items| == 0 then Some([])
    else
      match (ToJsString(items[0], numberText), RolesText(items[1..], numberText))
      case (Some(first), Some(rest)) =>
        assert forall i :: 1 <= i < |items| ==> items[1..][i - 1] == items[i];
        Some([first] + rest)
      case (None, _) => None
      case (_, None) =>
        assert forall i :: 1 <= i < |items| ==> items[1..][i - 1] == items[i];
        None
  }

  /**
   * `decodeToken`: the parsed payload must have a truthy `userId` and an
   * array `roles`; both are coerced to strings. Every failure on the way (a
   * parse error, a `null` payload whose property access throws, a failed
   * shape check, a coercion that throws) is the one Unauthorized "Invalid token".
   */
  function DecodeToken(token: string, codec: TokenCodec): (r: Result<Identity, Exception>)
    ensures r.Failure? ==> r.error == Unauthorized(INVALID_TOKEN)
    ensures r.Success? ==>
      && codec.parse(token).Some?
      && var payload := codec.parse(token).value;
         && Truthy(Property(payload, "userId"))
         && Property(payload, "roles").Some? && Property(payload, "roles").value.JArray?
         && ToJsString(Property(payload, "userId").value, codec.numberText) == Some(r.value.userId)
         && var items := Property(payload, "roles").value.items;
            && |r.value.roles| == |items|
            && forall i :: 0 <= i < |items| ==> ToJsString(items[i], codec.numberText) == Some(r.value.roles[i])
    ensures codec.parse(token).Some? ==>
      var payload := codec.parse(token).value;
      && Truthy(Property(payload, "userId"))
      && Property(payload, "roles").Some? && Property(payload, "roles").value.JArray?
      && ToJsString(Property(payload, "userId").value, codec.numberText).Some?
      && (var items := Property(payload, "roles").value.items;
          forall i :: 0 <= i < |items| ==> ToJsString(items[i], codec.numberText).Some?)
      ==> r.Success?
  {
    match codec.parse(token)
    case None => Failure(Unauthorized(INVALID_TOKEN))
    case Some(payload) =>
      var userId := Property(payload, "userId");
      var roles := Property(payload, "roles");
      if !Truthy(userId) || !(roles.Some? && roles.value.JArray?) then Failure(Unauthorized(INVALID_TOKEN))
      else
        match (ToJsString(userId.value, codec.numberText), RolesText(roles.value.items, codec.numberText))
        case (Some(id), Some(names)) => Success(Identity(id, names))
        case _ => Failure(Unauthorized(INVALID_TOKEN))
  }

  /** The JSON array of the given strings. */
  function StringArray(names: seq<string>): (j: Json)
    ensures j.JArray? && |j.items| == |names|
    ensures forall i :: 0 <= i < |names| ==> j.items[i] == JString(names[i])
  {
    JArray(seq(|names|, i requires 0 <= i < |names| => JString(names[i])))
  }

  /**
   * Any object payload whose `userId` is a non-empty string and whose
   * `roles` is an array of strings decodes to exactly that user id and those
   * roles, in order, whatever other fields it has and in whatever order.
   */
  lemma DecodeTokenRoundTrip(token: string, codec: TokenCodec, fields: seq<(string, Json)>, userId: string, roles: seq<string>)
    requires userId != ""
    requires codec.parse(token) == Some(JObject(fields))
    requires Member(fields, "userId") == Some(JString(userId))
    requires Member(fields, "roles") == Some(StringArray(roles))
    ensures DecodeToken(token, codec) == Success(Identity(userId, roles))
  {
    var items := StringArray(roles).items;
    var names := RolesText(items, codec.numberText);
    assert names.Some?;
    assert names.value == roles;
  }

  /** The two fields of `{"userId": u, "roles": [...]}` as property lookup sees them. */
  lemma TwoFieldPayload(userId: Json, roles: Json)
    ensures var fields := [("userId", userId), ("roles", roles)];
      Member(fields, "userId") == Some(userId) && Member(fields, "roles") == Some(roles)
  {
    var fields := [("userId", userId), ("roles", roles)];
    assert Member(fields, "userId") == Member(fields[..1], "userId");
  }

  /** A falsy `userId` (`0`, `""`, `null`, `false`, or none at all) is rejected whatever the roles. */
  lemma DecodeTokenRejectsFalsyUserId(token: string, codec: TokenCodec, payload: Json)
    requires codec.parse(token) == Some(payload)
    requires Property(payload, "userId") in {None, Some(JNumber(0.0)), Some(JString("")), Some(JNull), Some(JBool(false))}
    ensures DecodeToken(token, codec) == Failure(Unauthorized(INVALID_TOKEN))
  {
  }

  /**
   * An empty array is truthy, and `String([])` is the empty string: the
   * shape check lets through an identity whose `userId` is empty.
   */
  lemma DecodeTokenAcceptsEmptyUserId(token: string, codec: TokenCodec)
    requires codec.parse(token) == Some(JObject([("userId", JArray([])), ("roles", JArray([]))]))
    ensures DecodeToken(token, codec) == Success(Identity("", []))
  {
    var fields := [("userId", JArray([])), ("roles", JArray([]))];
    assert Member(fields, "userId") == Member(fields[..1], "userId");
  }

  /** JavaScript truthiness of a header value: arrays are always truthy. */
  predicate HeaderTruthy(v: HeaderValue) {
    match v
    case Single(text) => text != ""
    case Multiple(_) => true
  }

  /**
   * `(headers['authorization'] || headers['Authorization']) ?? ''`: the
   * lower-case header when truthy, else the capitalised one when present,
   * else the empty string.
   */
  function ChooseHeader(headers: Headers): (v: HeaderValue)
    ensures "authorization" in headers && HeaderTruthy(headers["authorization"]) ==> v == headers["authorization"]
    ensures !("authorization" in headers && HeaderTruthy(headers["authorization"])) ==>
      v == (if "Authorization" in headers then headers["Authorization"] else Single(""))
  {
    if "authorization" in headers && HeaderTruthy(headers["authorization"]) then headers["authorization"]
    else if "Authorization" in headers then headers["Authorization"]
    else Single("")
  }

  /**
   * The header string: the first element of an array value. An empty array
   * has no first element, and calling `split` on `undefined` throws a TypeError.
   */
  function HeaderText(headers: Headers): (r: Result<string, Exception>)
    ensures r.Failure? <==> ChooseHeader(headers) == Multiple([])
    ensures r.Failure? ==> r.error == UndefinedAccess("split")
    ensures r.Success? ==>
      match ChooseHeader(headers)
      case Single(text) => r.value == text
      case Multiple(values) => r.value == values[0]
  {
    match ChooseHeader(headers)
    case Single(text) => Success(text)
    case Multiple(values) => if |values| == 0 then Failure(UndefinedAccess("split")) else Success(values[0])
  }

  /**
   * `const [type, token] = header.split(' ')` and the check on both: the
   * first piece must be exactly "Bearer" and the second must exist and be
   * non-empty. Pieces after the second are ignored.
   */
  function BearerToken(header: string): (r: Option<string>)
    ensures r.Some? ==> r.value != "" && ' ' !in r.value
  {
    var pieces := Split(header, ' ');
    if pieces[0] == SCHEME && |pieces| >= 2 && pieces[1] != "" then Some(pieces[1]) else None
  }

  /**
   * An accepted header is "Bearer", one space, the token, and then either
   * nothing or a space followed by anything.
   */
  lemma BearerTokenSound(header: string)
    requires BearerToken(header).Some?
    ensures var t := BearerToken(header).value;
      && |header| >= |SCHEME| + 1 + |t|
      && header[..|SCHEME| + 1 + |t|] == SCHEME + " " + t
      && (|header| == |SCHEME| + 1 + |t| || header[|SCHEME| + 1 + |t|] == ' ')
  {
    var pieces := Split(header, ' ');
    var t := pieces[1];
    JoinSplit(header, ' ');
    var n := |SCHEME| + 1 + |t|;
    if |pieces| == 2 {
      assert Join(pieces[1..], ' ') == t;
      assert header == SCHEME + " " + t;
    } else {
      var tail := Join(pieces[2..], ' ');
      assert Join(pieces[1..], ' ') == t + " " + tail;
      assert header == SCHEME + " " + t + " " + tail;
      assert header[n] == ' ';
    }
  }

  /**
   * Conversely every such header is accepted with that token: only the
   * case-sensitive scheme and single spaces are recognised.
   */
  lemma BearerTokenComplete(token: string, rest: string)
    requires token != "" && ' ' !in token
    requires rest == "" || rest[0] == ' '
    ensures BearerToken(SCHEME + " " + token + rest) == Some(token)
  {
    var header := SCHEME + " " + token + rest;
    assert header == SCHEME + [' '] + (token + rest);
    SplitAtFirstSeparator(SCHEME, token + rest, ' ');
    if rest == "" {
      assert token + rest == token;
      SplitWithoutSeparator(token, ' ');
    } else {
      assert token + rest == token + [' '] + rest[1..];
      SplitAtFirstSeparator(token, rest[1..], ' ');
    }
  }

  /** Two spaces, a lower-case scheme, or a missing token are all refused. */
  lemma BearerTokenIsStrict()
    ensures BearerToken("Bearer  abc") == None
    ensures BearerToken("bearer abc") == None
    ensures BearerToken("Bearer") == None
    ensures BearerToken("") == None
  {
    SplitAtFirstSeparator(SCHEME, " abc", ' ');
    SplitAtFirstSeparator("", "abc", ' ');
    SplitWithoutSeparator("bearer", ' ');
    SplitAtFirstSeparator("bearer", "abc", ' ');
    SplitWithoutSeparator(SCHEME, ' ');
  }

  /**
   * `AuthGuard.canActivate`: header selection, then the Bearer check, which
   * fails before any decoding, then `decodeToken`, whose identity becomes
   * the request's user.
   */
  function CanActivate(headers: Headers, codec: TokenCodec): (r: Result<Identity, Exception>)
    ensures HeaderText(headers).Failure? ==> r == Failure(UndefinedAccess("split"))
    ensures HeaderText(headers).Success? && BearerToken(HeaderText(headers).value).None? ==>
      r == Failure(Unauthorized(MISSING_HEADER))
    ensures HeaderText(headers).Success? && BearerToken(HeaderText(headers).value).Some? ==>
      r == DecodeToken(BearerToken(HeaderText(headers).value).value, codec)
    ensures r.Success? ==> HeaderText(headers).Success? && BearerToken(HeaderText(headers).value).Some?
    ensures r.Failure? ==>
      r.error in {Unauthorized(MISSING_HEADER), Unauthorized(INVALID_TOKEN), UndefinedAccess("split")}
  {
    match HeaderText(headers)
    case Failure(e) => Failure(e)
    case Success(header) =>
      match BearerToken(header)
      case None => Failure(Unauthorized(MISSING_HEADER))
      case Some(token) => DecodeToken(token, codec)
  }

  /** A request with neither header is refused as missing its credential. */
  lemma NoHeaderIsUnauthorized(headers: Headers, codec: TokenCodec)
    requires "authorization" !in headers && "Authorization" !in headers
    ensures CanActivate(headers, codec) == Failure(Unauthorized(MISSING_HEADER))
  {
    assert BearerToken("") == None by { BearerTokenIsStrict(); }
  }
}
