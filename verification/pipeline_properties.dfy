/** End-to-end properties of the request pipeline over the record store. */
module PipelineProperties {
  import opened Wrappers
  import opened JsonValues
  import opened Exceptions
  import opened AuthUser
  import AuthGuard
  import RolesGuard
  import opened CreatePublicationDto
  import opened PublicationsService
  import opened HttpExceptionFilter
  import opened TransformInterceptor
  import opened PublicationsController

  /** The guards of a create: authentication, then the editor requirement. */
  lemma CreateGuards(headers: AuthGuard.Headers, codec: AuthGuard.TokenCodec)
    ensures var r := RunGuards([Authenticate, Authorize], Some([EDITOR]), headers, codec, None);
      match AuthGuard.CanActivate(headers, codec)
      case Failure(e) => r == Failure(e)
      case Success(u) =>
        r == (if EDITOR in u.roles then Success(Some(u)) else Failure(Forbidden(RolesGuard.INSUFFICIENT_ROLE)))
  {
    assert [Authenticate, Authorize][1..] == [Authorize];
    assert [Authorize][1..] == [];
    var a := AuthGuard.CanActivate(headers, codec);
    if a.Success? {
      RolesGuard.SingleRoleRequirement(EDITOR, a.value);
    }
  }

  /** The guards of a delete: authentication, then the admin requirement. */
  lemma DeleteGuards(headers: AuthGuard.Headers, codec: AuthGuard.TokenCodec)
    ensures var r := RunGuards([Authenticate, Authorize], Some([ADMIN]), headers, codec, None);
      match AuthGuard.CanActivate(headers, codec)
      case Failure(e) => r == Failure(e)
      case Success(u) =>
        r == (if ADMIN in u.roles then Success(Some(u)) else Failure(Forbidden(RolesGuard.INSUFFICIENT_ROLE)))
  {
    assert [Authenticate, Authorize][1..] == [Authorize];
    assert [Authorize][1..] == [];
    var a := AuthGuard.CanActivate(headers, codec);
    if a.Success? {
      RolesGuard.SingleRoleRequirement(ADMIN, a.value);
    }
  }

  /** The guard of an update: authentication alone. */
  lemma UpdateGuards(headers: AuthGuard.Headers, codec: AuthGuard.TokenCodec)
    ensures var r := RunGuards([Authenticate], None, headers, codec, None);
      match AuthGuard.CanActivate(headers, codec)
      case Failure(e) => r == Failure(e)
      case Success(u) => r == Success(Some(u))
  {
    assert [Authenticate][1..] == [];
  }

  /** The guards of any route: success means every guard passed. */
  lemma RouteGuards(route: Route, headers: AuthGuard.Headers, codec: AuthGuard.TokenCodec)
    ensures var p := PolicyOf(route);
      var r := RunGuards(p.guards, p.roles, headers, codec, None);
      && (IsRead(route) ==> r == Success(None))
      && (!IsRead(route) ==>
            match AuthGuard.CanActivate(headers, codec)
            case Failure(e) => r == Failure(e)
            case Success(u) =>
              if route.UpdatePublication? then r == Success(Some(u))
              else
                var role := if route.CreatePublication? then EDITOR else ADMIN;
                r == (if role in u.roles then Success(Some(u)) else Failure(Forbidden(RolesGuard.INSUFFICIENT_ROLE))))
  {
    CreateGuards(headers, codec);
    DeleteGuards(headers, codec);
    UpdateGuards(headers, codec);
  }

  /**
   * The envelope is applied to every route: a successful reply carries,
   * unchanged under `data`, exactly what the route's handler returned once
   * its guards had passed, and the store the handler left behind.
   */
  lemma HandleWrapsHandlerOutput(route: Route, headers: AuthGuard.Headers, store: Store, lib: Library, now: string)
    requires Handle(route, headers, store, lib, now).0.body.Wrapped?
    ensures var p := PolicyOf(route);
      var g := RunGuards(p.guards, p.roles, headers, lib.codec, None);
      var r := Handle(route, headers, store, lib, now);
      && g.Success?
      && Handler(route, g.value, store, lib) == Success((r.0.body.envelope.data, r.1))
  {
  }

  /** Every request keeps the store invariant. */
  lemma HandlePreservesValid(route: Route, headers: AuthGuard.Headers, store: Store, lib: Library, now: string)
    requires Valid(store)
    ensures Valid(Handle(route, headers, store, lib, now).1)
  {
    var r := Handle(route, headers, store, lib, now);
    if r.1 != store {
      var p := PolicyOf(route);
      var user := RunGuards(p.guards, p.roles, headers, lib.codec, None).value;
      match route {
        case CreatePublication(body) =>
          CreatePreservesValid(store, Validate(body, lib.isEmail).value, user.value.userId);
        case UpdatePublication(id, changes) =>
          UpdatePreservesValid(store, id.value, changes);
        case DeletePublication(id) =>
          RemovePreservesValid(store, id.value);
      }
    }
  }

  /**
   * A guarded route whose header is not "Bearer <token>" is refused with 401
   * before anything else runs, and the store is untouched.
   */
  lemma MalformedHeaderIsUnauthorized(route: Route, headers: AuthGuard.Headers, store: Store, lib: Library, now: string)
    requires !IsRead(route)
    requires AuthGuard.HeaderText(headers).Success?
    requires AuthGuard.BearerToken(AuthGuard.HeaderText(headers).value).None?
    ensures Handle(route, headers, store, lib, now)
         == (Reply(UNAUTHORIZED, Failed(ErrorBody(UNAUTHORIZED, JString(AuthGuard.MISSING_HEADER), now))), store)
  {
    RouteGuards(route, headers, lib.codec);
    CatchNestException(UNAUTHORIZED, JString(AuthGuard.MISSING_HEADER), "Unauthorized", now);
  }

  /** A well-formed header whose token does not decode is refused with the single 401 "Invalid token". */
  lemma UndecodableTokenIsUnauthorized(route: Route, headers: AuthGuard.Headers, store: Store, lib: Library, now: string)
    requires !IsRead(route)
    requires AuthGuard.HeaderText(headers).Success?
    requires AuthGuard.BearerToken(AuthGuard.HeaderText(headers).value).Some?
    requires AuthGuard.DecodeToken(AuthGuard.BearerToken(AuthGuard.HeaderText(headers).value).value, lib.codec).Failure?
    ensures Handle(route, headers, store, lib, now)
         == (Reply(UNAUTHORIZED, Failed(ErrorBody(UNAUTHORIZED, JString(AuthGuard.INVALID_TOKEN), now))), store)
  {
    RouteGuards(route, headers, lib.codec);
    CatchNestException(UNAUTHORIZED, JString(AuthGuard.INVALID_TOKEN), "Unauthorized", now);
  }

  /**
   * Every error reply comes from the failure that caused it: a guard's
   * failure, or else the handler's, goes through the exception filter as
   * is, and the store stays as it was.
   */
  lemma HandleReportsFailures(route: Route, headers: AuthGuard.Headers, store: Store, lib: Library, now: string)
    ensures var p := PolicyOf(route);
      var g := RunGuards(p.guards, p.roles, headers, lib.codec, None);
      var r := Handle(route, headers, store, lib, now);
      && (g.Failure? ==> r == (ErrorReplyOf(g.error, now), store))
      && (g.Success? && Handler(route, g.value, store, lib).Failure? ==>
            r == (ErrorReplyOf(Handler(route, g.value, store, lib).error, now), store))
  {
  }

  /**
   * On a guarded route, an Authorization header that is an empty array makes
   * `split` fail on `undefined`; the TypeError is answered with the generic
   * 500, not with a 401.
   */
  lemma EmptyArrayHeaderIsServerError(route: Route, headers: AuthGuard.Headers, store: Store, lib: Library, now: string)
    requires !IsRead(route)
    requires AuthGuard.ChooseHeader(headers) == AuthGuard.Multiple([])
    ensures Handle(route, headers, store, lib, now)
         == (Reply(INTERNAL_SERVER_ERROR, Failed(ErrorBody(INTERNAL_SERVER_ERROR, JString(INTERNAL_MESSAGE), now))), store)
  {
    RouteGuards(route, headers, lib.codec);
  }

  /**
   * On update and delete the integer pipe runs after the guards: once they
   * have passed, a path id that is not an integer answers 400 and leaves the
   * store unchanged.
   */
  lemma NonIntegerIdOnGuardedRoute(route: Route, headers: AuthGuard.Headers, store: Store, lib: Library, now: string)
    requires route == DeletePublication(None) || (route.UpdatePublication? && route.id.None?)
    requires AuthGuard.CanActivate(headers, lib.codec).Success?
    requires route.DeletePublication? ==> ADMIN in AuthGuard.CanActivate(headers, lib.codec).value.roles
    ensures Handle(route, headers, store, lib, now)
         == (Reply(BAD_REQUEST, Failed(ErrorBody(BAD_REQUEST, JString(NOT_AN_INTEGER), now))), store)
  {
    RouteGuards(route, headers, lib.codec);
    CatchNestException(BAD_REQUEST, JString(NOT_AN_INTEGER), "Bad Request", now);
  }

  /** Listing is public: any headers, and the reply is the filtered list with the store unchanged. */
  lemma ListIsPublic(author: Option<string>, headers: AuthGuard.Headers, store: Store, lib: Library, now: string)
    ensures Handle(ListPublications(author), headers, store, lib, now)
         == (Reply(200, Wrapped(Envelope(Publications(FindAll(store, author)), Meta(now, true)))), store)
  {
  }

  /**
   * Reading one record is public: a stored id answers 200 with that record,
   * an unknown id answers 404, and neither touches the store.
   */
  lemma GetById(id: int, headers: AuthGuard.Headers, store: Store, lib: Library, now: string)
    ensures var r := Handle(GetPublication(Some(id)), headers, store, lib, now);
      && r.1 == store
      && (Contains(store.publications, id) ==>
            r.0 == Reply(200, Wrapped(Envelope(OnePublication(FindOne(store, id).value), Meta(now, true)))))
      && (!Contains(store.publications, id) ==>
            var message := "Publication with id " + Text.IntText(id) + " not found";
            r.0 == Reply(NOT_FOUND, Failed(ErrorBody(NOT_FOUND, JString(message), now))))
  {
    CatchNestException(NOT_FOUND, JString("Publication with id " + Text.IntText(id) + " not found"), "Not Found", now);
  }

  /** A path id that is not an integer answers 400 on the public read route, with the store unchanged. */
  lemma NonIntegerIdOnGet(headers: AuthGuard.Headers, store: Store, lib: Library, now: string)
    ensures Handle(GetPublication(None), headers, store, lib, now)
         == (Reply(BAD_REQUEST, Failed(ErrorBody(BAD_REQUEST, JString(NOT_AN_INTEGER), now))), store)
  {
    CatchNestException(BAD_REQUEST, JString(NOT_AN_INTEGER), "Bad Request", now);
  }

  /**
   * An editor with a valid body gets 201 and the new record, numbered with
   * the store's next id and owned by the caller.
   */
  lemma CreateByEditorSucceeds(body: CreateBody, headers: AuthGuard.Headers, store: Store, lib: Library, now: string)
    requires AuthGuard.CanActivate(headers, lib.codec).Success?
    requires EDITOR in AuthGuard.CanActivate(headers, lib.codec).value.roles
    requires Validate(body, lib.isEmail).Some?
    ensures var u := AuthGuard.CanActivate(headers, lib.codec).value;
      var dto := Validate(body, lib.isEmail).value;
      Handle(CreatePublication(body), headers, store, lib, now)
      == (Reply(201, Wrapped(Envelope(OnePublication(Publication(store.nextId, dto.title, dto.author, dto.year, u.userId)),
                                      Meta(now, true)))),
          Create(store, dto, u.userId).0)
  {
    CreateGuards(headers, lib.codec);
  }

  /** An editor with a body the validator rejects gets 400 carrying the validation errors; nothing is stored. */
  lemma CreateWithInvalidBodyIsBadRequest(body: CreateBody, headers: AuthGuard.Headers, store: Store, lib: Library, now: string)
    requires AuthGuard.CanActivate(headers, lib.codec).Success?
    requires EDITOR in AuthGuard.CanActivate(headers, lib.codec).value.roles
    requires Validate(body, lib.isEmail).None?
    ensures var r := Handle(CreatePublication(body), headers, store, lib, now);
      && r.1 == store
      && r.0.status == BAD_REQUEST
      && r.0.body.Failed?
      && (lib.validationErrors(body) != JNull ==> r.0.body.error.message == lib.validationErrors(body))
  {
    CreateGuards(headers, lib.codec);
    if lib.validationErrors(body) != JNull {
      CatchNestException(BAD_REQUEST, lib.validationErrors(body), "Bad Request", now);
    }
  }

  /**
   * A successful create was made by an authenticated editor with a valid
   * body; the new record is the one the store appended, created by that user.
   */
  lemma CreateSuccessMeansEditor(body: CreateBody, headers: AuthGuard.Headers, store: Store, lib: Library, now: string)
    requires Handle(CreatePublication(body), headers, store, lib, now).0.body.Wrapped?
    ensures var u := AuthGuard.CanActivate(headers, lib.codec);
      && u.Success? && EDITOR in u.value.roles
      && Validate(body, lib.isEmail).Some?
      && var (store', p) := Create(store, Validate(body, lib.isEmail).value, u.value.userId);
         && p.createdBy == u.value.userId
         && Handle(CreatePublication(body), headers, store, lib, now)
            == (Reply(201, Wrapped(Envelope(OnePublication(p), Meta(now, true)))), store')
  {
    CreateGuards(headers, lib.codec);
  }

  /** An authenticated user without the editor role cannot create, whatever the body. */
  lemma CreateWithoutEditorIsForbidden(body: CreateBody, headers: AuthGuard.Headers, store: Store, lib: Library, now: string)
    requires AuthGuard.CanActivate(headers, lib.codec).Success?
    requires EDITOR !in AuthGuard.CanActivate(headers, lib.codec).value.roles
    ensures Handle(CreatePublication(body), headers, store, lib, now)
         == (Reply(FORBIDDEN, Failed(ErrorBody(FORBIDDEN, JString(RolesGuard.INSUFFICIENT_ROLE), now))), store)
  {
    CreateGuards(headers, lib.codec);
    CatchNestException(FORBIDDEN, JString(RolesGuard.INSUFFICIENT_ROLE), "Forbidden", now);
  }

  /**
   * An update of an unknown id is a 404 for every authenticated caller, even
   * one who owns nothing and is not admin: the lookup precedes the ownership check.
   */
  lemma UpdateOfUnknownIdIsNotFound(id: int, changes: UpdatePublicationFields, headers: AuthGuard.Headers,
                                    store: Store, lib: Library, now: string)
    requires AuthGuard.CanActivate(headers, lib.codec).Success?
    requires !Contains(store.publications, id)
    ensures var message := "Publication with id " + Text.IntText(id) + " not found";
      Handle(UpdatePublication(Some(id), changes), headers, store, lib, now)
      == (Reply(NOT_FOUND, Failed(ErrorBody(NOT_FOUND, JString(message), now))), store)
  {
    UpdateGuards(headers, lib.codec);
    CatchNestException(NOT_FOUND, JString("Publication with id " + Text.IntText(id) + " not found"), "Not Found", now);
  }

  /** An authenticated caller who neither created the record nor is admin gets 403 and changes nothing. */
  lemma UpdateByOtherUserIsForbidden(id: int, changes: UpdatePublicationFields, headers: AuthGuard.Headers,
                                     store: Store, lib: Library, now: string)
    requires AuthGuard.CanActivate(headers, lib.codec).Success?
    requires Contains(store.publications, id)
    requires OwnershipCheck(FindOne(store, id).value, AuthGuard.CanActivate(headers, lib.codec).value).Fail?
    ensures Handle(UpdatePublication(Some(id), changes), headers, store, lib, now)
         == (Reply(FORBIDDEN, Failed(ErrorBody(FORBIDDEN, JString(NOT_OWNER), now))), store)
  {
    UpdateGuards(headers, lib.codec);
    CatchNestException(FORBIDDEN, JString(NOT_OWNER), "Forbidden", now);
  }

  /** The creator or an admin updates the record; its id and creator stay as they were. */
  lemma UpdateByOwnerOrAdminSucceeds(id: int, changes: UpdatePublicationFields, headers: AuthGuard.Headers,
                                     store: Store, lib: Library, now: string)
    requires AuthGuard.CanActivate(headers, lib.codec).Success?
    requires Contains(store.publications, id)
    requires OwnershipCheck(FindOne(store, id).value, AuthGuard.CanActivate(headers, lib.codec).value).Pass?
    ensures var (store', q) := Update(store, id, changes).value;
      && Handle(UpdatePublication(Some(id), changes), headers, store, lib, now)
         == (Reply(200, Wrapped(Envelope(OnePublication(q), Meta(now, true)))), store')
      && q.id == id && q.createdBy == FindOne(store, id).value.createdBy
  {
    UpdateGuards(headers, lib.codec);
  }

  /** Without the admin role nobody deletes, not even the record's creator. */
  lemma DeleteWithoutAdminIsForbidden(id: Option<int>, headers: AuthGuard.Headers, store: Store, lib: Library, now: string)
    requires AuthGuard.CanActivate(headers, lib.codec).Success?
    requires ADMIN !in AuthGuard.CanActivate(headers, lib.codec).value.roles
    ensures Handle(DeletePublication(id), headers, store, lib, now)
         == (Reply(FORBIDDEN, Failed(ErrorBody(FORBIDDEN, JString(RolesGuard.INSUFFICIENT_ROLE), now))), store)
  {
    DeleteGuards(headers, lib.codec);
    CatchNestException(FORBIDDEN, JString(RolesGuard.INSUFFICIENT_ROLE), "Forbidden", now);
  }

  /**
   * An admin's delete of a stored id answers `{deleted: true}`, and the id
   * can no longer be found; of an unknown id it answers 404.
   */
  lemma DeleteByAdmin(id: int, headers: AuthGuard.Headers, store: Store, lib: Library, now: string)
    requires Valid(store)
    requires AuthGuard.CanActivate(headers, lib.codec).Success?
    requires ADMIN in AuthGuard.CanActivate(headers, lib.codec).value.roles
    ensures var r := Handle(DeletePublication(Some(id)), headers, store, lib, now);
      && (Contains(store.publications, id) ==>
            && r.0 == Reply(200, Wrapped(Envelope(Deleted(true), Meta(now, true))))
            && r.1 == Remove(store, id).value
            && FindOne(r.1, id).Failure?)
      && (!Contains(store.publications, id) ==> r.0.status == NOT_FOUND && r.1 == store)
  {
    DeleteGuards(headers, lib.codec);
    FindOneAfterRemove(store, id);
  }

  /** A guarded route that passed its guards has an authenticated user. */
  lemma {:induction false} GuardsAttachUser(guards: seq<Guard>, roles: Option<seq<string>>, headers: AuthGuard.Headers,
                                            codec: AuthGuard.TokenCodec, user: Option<Identity>)
    requires RunGuards(guards, roles, headers, codec, user).Success?
    requires user.Some? || Authenticate in guards
    ensures RunGuards(guards, roles, headers, codec, user).value.Some?
    decreases |guards|
  {
    if |guards| > 0 {
      match guards[0] {
        case Authenticate =>
          var identity := AuthGuard.CanActivate(headers, codec).value;
          GuardsAttachUser(guards[1..], roles, headers, codec, Some(identity));
        case Authorize =>
          assert Authenticate in guards[1..] || user.Some? by {
            if user.None? {
              var k :| 0 <= k < |guards| && guards[k] == Authenticate;
              assert guards[1..][k - 1] == Authenticate;
            }
          }
          GuardsAttachUser(guards[1..], roles, headers, codec, user);
      }
    }
  }

  /**
   * The only way to a 500 is an Authorization header given as an empty
   * array; every other reply carries one of the statuses the routes define.
   */
  lemma StatusCodes(route: Route, headers: AuthGuard.Headers, store: Store, lib: Library, now: string)
    ensures var r := Handle(route, headers, store, lib, now);
      && r.0.status in {200, 201, BAD_REQUEST, UNAUTHORIZED, FORBIDDEN, NOT_FOUND, INTERNAL_SERVER_ERROR}
      && (r.0.status == INTERNAL_SERVER_ERROR ==> AuthGuard.ChooseHeader(headers) == AuthGuard.Multiple([]))
  {
    var p := PolicyOf(route);
    RouteGuards(route, headers, lib.codec);
    var g := RunGuards(p.guards, p.roles, headers, lib.codec, None);
    if g.Success? && !IsRead(route) {
      GuardsAttachUser(p.guards, p.roles, headers, lib.codec, None);
    }
  }

  /** The headers of a request carrying `Bearer <token>`. */
  function BearerHeaders(token: string): AuthGuard.Headers {
    map["authorization" := AuthGuard.Single("Bearer " + token)]
  }

  /** A well-formed header yields whatever its token decodes to. */
  lemma BearerHeadersAuthenticate(token: string, codec: AuthGuard.TokenCodec)
    requires token != "" && ' ' !in token
    ensures AuthGuard.CanActivate(BearerHeaders(token), codec) == AuthGuard.DecodeToken(token, codec)
  {
    assert AuthGuard.SCHEME + " " + token + "" == "Bearer " + token;
    AuthGuard.BearerTokenComplete(token, "");
  }

  /** The payload of a token for user `userId` holding `roles`. */
  function TokenPayload(userId: string, roles: seq<string>): Json {
    JObject([("userId", JString(userId)), ("roles", AuthGuard.StringArray(roles))])
  }

  /** The token holders of the walk-through below: "t1" an editor, "t2" a user without roles, "t3" an admin. */
  predicate WalkLibrary(lib: Library) {
    && lib.codec.parse("t1") == Some(TokenPayload("u1", [EDITOR]))
    && lib.codec.parse("t2") == Some(TokenPayload("u2", []))
    && lib.codec.parse("t3") == Some(TokenPayload("u3", [ADMIN]))
    && lib.isEmail("a@example.com")
  }

  const WalkBody := CreateBody(Some(JString("Systems Design 101")), Some(JString("a@example.com")), None)
  const WalkChanges := UpdatePublicationFields(None, None, Some(2020))
  const WalkRecord := Publication(1, "Systems Design 101", "a@example.com", None, "u1")

  /** The editor "u1" creates the first record: it gets id 1 and records its creator. */
  lemma WalkCreate(lib: Library, now: string, headers: AuthGuard.Headers, s: Store)
    requires WalkLibrary(lib)
    requires headers == BearerHeaders("t1") && s == Empty
    ensures var (r, s') := Handle(CreatePublication(WalkBody), headers, s, lib, now);
      r.status == 201 && s' == Store([WalkRecord], 2)
  {
    BearerHeadersAuthenticate("t1", lib.codec);
    AuthGuard.TwoFieldPayload(JString("u1"), AuthGuard.StringArray([EDITOR]));
    AuthGuard.DecodeTokenRoundTrip("t1", lib.codec, TokenPayload("u1", [EDITOR]).fields, "u1", [EDITOR]);
    var dto := NewPublication("Systems Design 101", "a@example.com", None);
    assert Validate(WalkBody, lib.isEmail) == Some(dto);
    CreateByEditorSucceeds(WalkBody, headers, s, lib, now);
    assert Create(s, dto, "u1").0 == Store([WalkRecord], 2);
  }

  /** "u2", neither creator nor admin, is refused the update and the store stays as it was. */
  lemma WalkStrangerUpdate(lib: Library, now: string, headers: AuthGuard.Headers, s: Store)
    requires WalkLibrary(lib)
    requires headers == BearerHeaders("t2") && s == Store([WalkRecord], 2)
    ensures var (r, s') := Handle(UpdatePublication(Some(1), WalkChanges), headers, s, lib, now);
      r.status == FORBIDDEN && s' == s
  {
    BearerHeadersAuthenticate("t2", lib.codec);
    AuthGuard.TwoFieldPayload(JString("u2"), AuthGuard.StringArray([]));
    AuthGuard.DecodeTokenRoundTrip("t2", lib.codec, TokenPayload("u2", []).fields, "u2", []);
    assert s.publications[0] == WalkRecord;
    assert Contains(s.publications, 1) && FindOne(s, 1).value == WalkRecord;
    UpdateByOtherUserIsForbidden(1, WalkChanges, headers, s, lib, now);
  }

  /** The creator sets the year; the title and everything else stay. */
  lemma WalkOwnerUpdate(lib: Library, now: string, headers: AuthGuard.Headers, s: Store)
    requires WalkLibrary(lib)
    requires headers == BearerHeaders("t1") && s == Store([WalkRecord], 2)
    ensures var (r, s') := Handle(UpdatePublication(Some(1), WalkChanges), headers, s, lib, now);
      r.status == 200 && s' == Store([WalkRecord.(year := Some(2020))], 2)
  {
    BearerHeadersAuthenticate("t1", lib.codec);
    AuthGuard.TwoFieldPayload(JString("u1"), AuthGuard.StringArray([EDITOR]));
    AuthGuard.DecodeTokenRoundTrip("t1", lib.codec, TokenPayload("u1", [EDITOR]).fields, "u1", [EDITOR]);
    assert s.publications[0] == WalkRecord;
    assert Contains(s.publications, 1) && FindOne(s, 1).value == WalkRecord;
    UpdateByOwnerOrAdminSucceeds(1, WalkChanges, headers, s, lib, now);
  }

  /** An admin who did not create the record deletes it; the id counter is not rewound. */
  lemma WalkAdminDelete(lib: Library, now: string, headers: AuthGuard.Headers, s: Store)
    requires WalkLibrary(lib)
    requires headers == BearerHeaders("t3") && s == Store([WalkRecord.(year := Some(2020))], 2)
    ensures var (r, s') := Handle(DeletePublication(Some(1)), headers, s, lib, now);
      r.status == 200 && r.body.envelope.data == Deleted(true) && s' == Store([], 2)
  {
    BearerHeadersAuthenticate("t3", lib.codec);
    AuthGuard.TwoFieldPayload(JString("u3"), AuthGuard.StringArray([ADMIN]));
    AuthGuard.DecodeTokenRoundTrip("t3", lib.codec, TokenPayload("u3", [ADMIN]).fields, "u3", [ADMIN]);
    assert s.publications[0].id == 1;
    assert Contains(s.publications, 1);
    DeleteByAdmin(1, headers, s, lib, now);
    assert s.publications[..0] + s.publications[1..] == [];
  }

  /** The deleted record is then not found, and the next create would get id 2. */
  lemma WalkGetAfterDelete(lib: Library, now: string)
    ensures var (r, s) := Handle(GetPublication(Some(1)), map[], Store([], 2), lib, now);
      r.status == NOT_FOUND && s == Store([], 2)
  {
  }
}
