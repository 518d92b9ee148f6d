/**
 * The publications routes and the request pipeline around them. An explicit
 * policy table stands in for the guard and role decorators. The stage order
 * (guards, then the parameter pipes, then the handler, with the envelope and
 * the exception filter applied globally around every route) is the web
 * framework's, and `Handle` takes it as given.
 */
module PublicationsController {
  import opened Wrappers
  import opened JsonValues
  import opened Exceptions
  import opened AuthUser
  import AuthGuard
  import RolesGuard
  import opened CreatePublicationDto
  import opened PublicationsService
  import opened HttpExceptionFilter
  import opened TransformInterceptor

  const EDITOR := "editor"
  const ADMIN := "admin"
  const NOT_OWNER := "You can update only your own publications or as admin"
  /** What the integer pipe reports for an `:id` that is not an integer. */
  const NOT_AN_INTEGER := "Validation failed (numeric string is expected)"

  /**
   * A routed request. `id` is the outcome of the integer pipe on the `:id`
   * segment (`None` when it is not an integer); `author` is the query
   * parameter; the create body has been through the numeric conversion.
   */
  datatype Route =
    | ListPublications(author: Option<string>)
    | GetPublication(id: Option<int>)
    | CreatePublication(body: CreateBody)
    | UpdatePublication(id: Option<int>, changes: UpdatePublicationFields)
    | DeletePublication(id: Option<int>)

  datatype Guard = Authenticate | Authorize

  /** The guards a route runs, in order, and the roles declared for it. */
  datatype Policy = Policy(guards: seq<Guard>, roles: Option<seq<string>>)

  /** The library code the pipeline calls: token decoding, the email rule, the validation error list. */
  datatype Library = Library(codec: AuthGuard.TokenCodec, isEmail: string -> bool, validationErrors: CreateBody -> Json)

  /** What a handler returns: a list, one record, or `{deleted: true}`. */
  datatype Payload =
    | Publications(items: seq<Publication>)
    | OnePublication(publication: Publication)
    | Deleted(deleted: bool)

  datatype ReplyBody = Wrapped(envelope: Envelope<Payload>) | Failed(error: ErrorBody)

  /** The status and body sent back. */
  datatype Reply = Reply(status: int, body: ReplyBody)

  predicate IsRead(route: Route) {
    route.ListPublications? || route.GetPublication?
  }

  /**
   * The per-route table: reads are open; create needs authentication and
   * the editor role; update needs authentication only (ownership is checked
   * in its handler); delete needs authentication and the admin role.
   */
  function PolicyOf(route: Route): (p: Policy)
    ensures IsRead(route) <==> p.guards == []
    ensures route.UpdatePublication? ==> p.guards == [Authenticate]
    ensures route.CreatePublication? ==> p == Policy([Authenticate, Authorize], Some([EDITOR]))
    ensures route.DeletePublication? ==> p == Policy([Authenticate, Authorize], Some([ADMIN]))
  {
    match route
    case ListPublications(_) => Policy([], None)
    case GetPublication(_) => Policy([], None)
    case CreatePublication(_) => Policy([Authenticate, Authorize], Some([EDITOR]))
    case UpdatePublication(_, _) => Policy([Authenticate], None)
    case DeletePublication(_) => Policy([Authenticate, Authorize], Some([ADMIN]))
  }

  /**
   * The guards in order, each able to stop the request; authentication
   * attaches the user that later guards and the handler read.
   */
  function RunGuards(guards: seq<Guard>, roles: Option<seq<string>>, headers: AuthGuard.Headers,
                     codec: AuthGuard.TokenCodec, user: Option<Identity>): (r: Result<Option<Identity>, Exception>)
    ensures guards == [] ==> r == Success(user)
    decreases |guards|
  {
    if |guards| == 0 then Success(user)
    else
      match guards[0]
      case Authenticate =>
        (match AuthGuard.CanActivate(headers, codec)
         case Failure(e) => Failure(e)
         case Success(identity) => RunGuards(guards[1..], roles, headers, codec, Some(identity)))
      case Authorize =>
        (match RolesGuard.CanActivate(roles, user)
         case Fail(e) => Failure(e)
         case Pass => RunGuards(guards[1..], roles, headers, codec, user))
  }

  /**
   * The ownership check of the update route: the caller may change a record
   * they created, or any record when they hold the admin role; anyone else
   * is refused with Forbidden.
   */
  function OwnershipCheck(p: Publication, user: Identity): (r: Outcome<Exception>)
    ensures r.Pass? <==> p.createdBy == user.userId || ADMIN in user.roles
    ensures r.Fail? ==> r.error == Forbidden(NOT_OWNER)
  {
    var isAuthor := p.createdBy == user.userId;
    var isAdmin := ADMIN in user.roles;
    if !isAuthor && !isAdmin then Fail(Forbidden(NOT_OWNER)) else Pass
  }

  /**
   * The update handler: the record is looked up first (NotFound), then
   * ownership is checked (Forbidden), and only then is the record patched.
   */
  function UpdateHandler(store: Store, id: int, changes: UpdatePublicationFields, user: Option<Identity>): (r: Result<(Payload, Store), Exception>)
    ensures !Contains(store.publications, id) ==> r == Failure(NotFoundFor(id))
    ensures user.Some? && Contains(store.publications, id) ==>
      var p := FindOne(store, id).value;
      && (OwnershipCheck(p, user.value).Fail? ==> r == Failure(Forbidden(NOT_OWNER)))
      && (OwnershipCheck(p, user.value).Pass? ==> r.Success? && r.value.1 == Update(store, id, changes).value.0)
    ensures r.Success? ==> r.value.0 == OnePublication(Update(store, id, changes).value.1)
  {
    match FindOne(store, id)
    case Failure(e) => Failure(e)
    case Success(p) =>
      if user.None? then Failure(UndefinedAccess("userId"))
      else
        match OwnershipCheck(p, user.value)
        case Fail(e) => Failure(e)
        case Pass =>
        match Update(store, id, changes)
        case Failure(e) => Failure(e)
        case Success((store', q)) => Success((OnePublication(q), store'))
  }

  /** The route handlers, after the parameter pipes. */
  function Handler(route: Route, user: Option<Identity>, store: Store, lib: Library): (r: Result<(Payload, Store), Exception>)
    ensures IsRead(route) && r.Success? ==> r.value.1 == store
    ensures route.ListPublications? ==>
      r == Success((Publications(FindAll(store, route.author)), store))
    ensures !route.ListPublications? && !route.CreatePublication? && route.id.None? ==>
      r == Failure(BadRequest(JString(NOT_AN_INTEGER)))
    ensures route.GetPublication? && route.id.Some? ==>
      && (r.Success? <==> Contains(store.publications, route.id.value))
      && (r.Success? ==> r.value.0 == OnePublication(FindOne(store, route.id.value).value))
      && (r.Failure? ==> r.error == NotFoundFor(route.id.value))
    ensures route.CreatePublication? && Validate(route.body, lib.isEmail).None? ==>
      r == Failure(BadRequest(lib.validationErrors(route.body)))
    ensures route.CreatePublication? && Validate(route.body, lib.isEmail).Some? && user.Some? ==>
      var dto := Validate(route.body, lib.isEmail).value;
      && r.Success?
      && r.value.0 == OnePublication(Publication(store.nextId, dto.title, dto.author, dto.year, user.value.userId))
      && r.value.1 == Create(store, dto, user.value.userId).0
    ensures route.UpdatePublication? && route.id.Some? ==>
      r == UpdateHandler(store, route.id.value, route.changes, user)
    ensures route.DeletePublication? && route.id.Some? ==>
      && (r.Success? <==> Contains(store.publications, route.id.value))
      && (r.Success? ==> r.value == (Deleted(true), Remove(store, route.id.value).value))
      && (r.Failure? ==> r.error == NotFoundFor(route.id.value))
  {
    match route
    case ListPublications(author) => Success((Publications(FindAll(store, author)), store))
    case GetPublication(id) =>
      if id.None? then Failure(BadRequest(JString(NOT_AN_INTEGER)))
      else
        (match FindOne(store, id.value)
         case Failure(e) => Failure(e)
         case Success(p) => Success((OnePublication(p), store)))
    case CreatePublication(body) =>
      (match Validate(body, lib.isEmail)
       case None => Failure(BadRequest(lib.validationErrors(body)))
       case Some(dto) =>
         if user.None? then Failure(UndefinedAccess("userId"))
         else
           var (store', p) := Create(store, dto, user.value.userId);
           Success((OnePublication(p), store')))
    case UpdatePublication(id, changes) =>
      if id.None? then Failure(BadRequest(JString(NOT_AN_INTEGER)))
      else UpdateHandler(store, id.value, changes, user)
    case DeletePublication(id) =>
      if id.None? then Failure(BadRequest(JString(NOT_AN_INTEGER)))
      else
        (match Remove(store, id.value)
         case Failure(e) => Failure(e)
         case Success(store') => Success((Deleted(true), store')))
  }

  /** The success status: 201 for a create, 200 for the rest. */
  function SuccessStatus(route: Route): int {
    if route.CreatePublication? then 201 else 200
  }

  /** What the exception filter sends for a thrown value. */
  function ErrorReplyOf(e: Exception, now: string): (r: Reply)
    ensures r.body.Failed? && r.body.error.statusCode == r.status && r.body.error.timestamp == now
  {
    var caught := Catch(e, now);
    Reply(caught.status, Failed(caught.body))
  }

  /**
   * One request from routing to reply: the route's guards, then its handler;
   * a success is wrapped in the envelope stamped `now`, anything thrown goes
   * through the exception filter and leaves the store as it was.
   */
  function Handle(route: Route, headers: AuthGuard.Headers, store: Store, lib: Library, now: string): (r: (Reply, Store))
    ensures r.0.body.Failed? ==> r.1 == store && r.0.body.error.statusCode == r.0.status
    ensures r.0.body.Wrapped? ==>
      r.0.body.envelope.meta == Meta(now, true) && r.0.status == SuccessStatus(route)
    ensures IsRead(route) ==> r.1 == store
  {
    var policy := PolicyOf(route);
    match RunGuards(policy.guards, policy.roles, headers, lib.codec, None)
    case Failure(e) => (ErrorReplyOf(e, now), store)
    case Success(user) =>
      match Handler(route, user, store, lib)
      case Failure(e) => (ErrorReplyOf(e, now), store)
      case Success((payload, store')) =>
        (Reply(SuccessStatus(route), Wrapped(Intercept(payload, now))), store')
  }
}
