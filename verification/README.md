# Publications API: request pipeline and record store in Dafny

This project models the core of a small NestJS publications API. The API offers create, read, update and delete over an in-memory collection of publication records. The model covers:

- **Record store** (`PublicationsService`). The store is the pair `(publications, nextId)`, threaded through pure functions: `FindAll`, `FindOne`, `Create`, `Update` and `Remove`. Its invariant says that ids are positive, strictly increasing along the sequence and below `nextId`. A trace of operations (`Run`, `Issued`) shows that ids are never reused.
- **Authentication** (`AuthGuard`). The guard picks the Authorization header, splits it on single spaces and checks the Bearer scheme. `DecodeToken` then shape-checks the payload and coerces it to strings. JavaScript's `String(...)` coercion is written out in `JsonValues.ToJsString`, except for number formatting.
- **Role check** (`RolesGuard`). The user passes if any one role matches exactly. An absent or empty requirement always passes.
- **Routes** (`PublicationsController`). A per-route policy table stands in for the guard and role decorators. The update handler looks the record up first (404) and only then checks ownership (403). Delete answers `{deleted: true}`.
- **Response shaping**. `TransformInterceptor.Intercept` builds the success envelope. `HttpExceptionFilter.Catch` builds the error body `{statusCode, message, timestamp}`. Any exception that is not an HTTP exception becomes a fixed 500 "Internal server error". Status codes follow section 15 of RFC 9110.
- **Create-body validation** (`CreatePublicationDto.Validate`). Title length, the email rule and the optional year range are checked here.
- **The whole pipeline** (`PublicationsController.Handle`). It runs guards, then the handler, then the envelope or the exception filter. `PipelineProperties` proves end-to-end facts about it:
  - every failure leaves the store unchanged;
  - the store invariant is preserved;
  - a 404 comes before a 403 on update;
  - only admins delete;
  - the possible status codes are listed;
  - a full create → refused update → owner update → admin delete → 404 walk-through behaves as described.

The library code the pipeline calls is passed in as the function-valued fields of `Library` and `TokenCodec`. This covers base64 decoding together with `JSON.parse`, the number formatting inside `String(...)`, the email rule and the validator's error list. The one number rendering written out is the integer id in the NotFound message, `Text.IntText`. The clock is passed in the same way, as the timestamp `now`.

Details of the code that the model follows exactly:
- The header is split on every single space. `"Bearer  x"` (two spaces) is refused, and so is `"bearer x"`. Pieces after the token are ignored (`AuthGuard.BearerTokenSound`, `BearerTokenComplete`, `BearerTokenIsStrict`).
- A decoded `userId` can be the empty string. `[]` is truthy and `String([])` is `""` (`AuthGuard.DecodeTokenAcceptsEmptyUserId`). So an identity's user id is not guaranteed to be non-empty.
- If the Authorization header is an empty array, `split` is called on `undefined`. The resulting TypeError becomes a 500, not a 401 (`AuthGuard.HeaderText`, `PipelineProperties.EmptyArrayHeaderIsServerError`). Node never delivers this header as an array, so the 500 cannot arise from a real request.
- A `userId` or a role that is a JSON object with an own `toString` property makes `String(...)` throw, and the token is rejected as "Invalid token" (`JsonValues.ToJsString`, `AuthGuard.DecodeToken`). A `toString` field on the payload itself is harmless.
- `remove` signals NotFound through its own `findIndex` scan, not through `findOne`.
- Role requirements are ordered lists compared by `includes`. `RolesGuard.DecisionDependsOnlyOnMembership` shows that only membership matters.

## Model

| member | source | states |
|---|---|---|
| PublicationsService.ByAuthor | src/publications/publications.service.ts:13 | the filter keeps exactly the records whose author equals the argument, never more records than the store, and keeps increasing ids increasing (store order) |
| PublicationsService.FindAll | src/publications/publications.service.ts:11-16 | a non-empty author yields exactly the records with that author, in store order; an absent or empty author (both falsy) yields the whole store |
| PublicationsService.IndexOf | src/publications/publications.service.ts:56-57 | `findIndex`: -1 exactly when no record has the id, otherwise the first position holding it |
| PublicationsService.IndexOfUnique | src/publications/publications.service.ts:19 | in a store with increasing ids, a record with the id sits only at the found position |
| PublicationsService.FindOne | src/publications/publications.service.ts:18-24 | succeeds exactly when a record has the id, returning a stored record with that id; otherwise NotFound "Publication with id N not found" |
| PublicationsService.Create | src/publications/publications.service.ts:26-37 | new record gets id = nextId, createdBy = the user, the dto's title/author/year; appended at the end; nextId grows by one |
| PublicationsService.Patch | src/publications/publications.service.ts:42-50 | each defined field overwrites the stored one, undefined fields keep their value, id and createdBy never change |
| PublicationsService.Update | src/publications/publications.service.ts:39-53 | NotFound exactly when the id is absent; otherwise only the found record is replaced by its patch, length, nextId and all other records unchanged |
| PublicationsService.Remove | src/publications/publications.service.ts:55-61 | NotFound exactly when the id is absent; otherwise the store is the old one with exactly that position spliced out, order kept, nextId untouched |
| PublicationsService.EmptyIsValid | src/publications/publications.service.ts:8-9 | the initial store (no records, nextId 1) satisfies the invariant |
| PublicationsService.CreatePreservesValid | src/publications/publications.service.ts:26-37 | create keeps ids positive, unique, increasing and below nextId |
| PublicationsService.UpdatePreservesValid | src/publications/publications.service.ts:39-53 | update keeps the store invariant |
| PublicationsService.RemovePreservesValid | src/publications/publications.service.ts:55-61 | remove keeps the store invariant |
| PublicationsService.FindOneAfterCreate | src/publications/publications.service.ts:18-37 | after create, findOne of the new id returns exactly the created record, whose createdBy is the creator |
| PublicationsService.FindOneAfterUpdate | src/publications/publications.service.ts:39-53 | after update, findOne returns the patched record |
| PublicationsService.FindOneAfterRemove | src/publications/publications.service.ts:55-61 | after a successful remove, findOne of that id fails with NotFound |
| PublicationsService.Apply | src/publications/publications.service.ts:26-61 | a create appends the new record with id nextId and moves nextId by one; an update or remove of an absent id changes nothing; an update of a stored id replaces only that record by its patch; a remove of a stored id splices out exactly that record; nextId moves only on create |
| PublicationsService.RunPreservesValid | src/publications/publications.service.ts:8-61 | any sequence of create/update/remove calls from a valid store ends in a valid store |
| PublicationsService.IssuedIdsIncrease | src/publications/publications.service.ts:9-28 | ids handed out along any run strictly increase, whatever is removed in between, and lie between the starting and final nextId |
| PublicationsService.IssuedIdsAreFresh | src/publications/publications.service.ts:9-28 | no id handed out later equals an id already stored: ids are never reused |
| AuthGuard.RolesText | src/auth/auth.guard.ts:23 | roles coercion keeps length and order, element i being `String(roles[i])`; fails exactly when some element's coercion throws |
| AuthGuard.DecodeToken | src/auth/auth.guard.ts:12-28 | accepts exactly the parsed payloads with truthy userId and array roles whose `String(...)` coercions all succeed, returning those coercions in order; every failure is the one Unauthorized "Invalid token" |
| AuthGuard.DecodeTokenRoundTrip | src/auth/auth.guard.ts:15-24 | any object payload whose (last) `userId` field is a non-empty string and whose `roles` field is an array of strings decodes to exactly that userId and those roles, whatever other fields it has |
| AuthGuard.DecodeTokenRejectsFalsyUserId | src/auth/auth.guard.ts:17-19 | userId 0, "", null, false or missing is rejected with "Invalid token" |
| AuthGuard.DecodeTokenAcceptsEmptyUserId | src/auth/auth.guard.ts:17-22 | userId `[]` passes the truthiness check and coerces to the empty user id |
| AuthGuard.ChooseHeader | src/auth/auth.guard.ts:37-40 | the lower-case header when truthy, else the capitalised one when present, else "" |
| AuthGuard.HeaderText | src/auth/auth.guard.ts:42-43 | an array header contributes its first element; an empty array throws a TypeError at `split` |
| AuthGuard.BearerToken | src/auth/auth.guard.ts:43-45 | an accepted token is non-empty and contains no space |
| AuthGuard.BearerTokenSound | src/auth/auth.guard.ts:43-45 | an accepted header is exactly "Bearer", one space, the token, then nothing or a space and anything |
| AuthGuard.BearerTokenComplete | src/auth/auth.guard.ts:43-45 | every header of that shape is accepted with that token (trailing pieces ignored) |
| AuthGuard.BearerTokenIsStrict | src/auth/auth.guard.ts:43-45 | two spaces, a lower-case scheme, a missing token and the empty header are refused |
| AuthGuard.CanActivate | src/auth/auth.guard.ts:32-55 | a malformed header fails with "Missing or invalid Authorization header" before decoding; a well-formed Bearer header gives exactly the outcome of decoding its token; failures are limited to the two 401s and the empty-array TypeError |
| AuthGuard.NoHeaderIsUnauthorized | src/auth/auth.guard.ts:37-49 | with neither header present the guard fails with "Missing or invalid Authorization header" |
| Text.Split | src/auth/auth.guard.ts:43 | `split(' ')` yields at least one piece and no piece contains a space |
| Text.SplitPieceCount | src/auth/auth.guard.ts:43 | `split(' ')` yields exactly one piece more than there are spaces in the header |
| Text.NatText | src/publications/publications.service.ts:21 | the rendered id is a non-empty string of decimal digits, without leading zero, whose decimal value is the id |
| Text.IntText | src/publications/publications.service.ts:21 | `${id}` of an integer: its decimal digits, preceded by "-" exactly when it is negative, denoting its value with no leading zero |
| Text.JoinSplit | src/auth/auth.guard.ts:43 | splitting on a character loses nothing: joining the pieces gives back the header |
| JsonValues.Truthy | src/auth/auth.guard.ts:17 | a property is falsy exactly when it is undefined, null, false, 0 or the empty string; arrays and objects, even empty, are truthy |
| JsonValues.Member | src/auth/auth.guard.ts:17 | property lookup on a parsed object is undefined exactly when no field has the name, otherwise the last field with that name |
| JsonValues.ToJsString | src/auth/auth.guard.ts:22-23 | `String(...)` of null is "null", of a boolean "true"/"false", of a number the formatter's text, of a string the string itself; of an object it throws exactly when the object has an own `toString`, and is "[object Object]" otherwise |
| JsonValues.ElementTexts | src/auth/auth.guard.ts:22-23 | the texts an array's elements contribute to its join, in order, "" for null; undefined exactly when some element's coercion throws |
| JsonValues.ArrayText | src/auth/auth.guard.ts:22-23 | `String(array)` is the element texts joined with ",", and throws exactly when some element's coercion throws |
| RolesGuard.HasAnyRole | src/auth/roles.guard.ts:34 | true exactly when some user role is, exactly, in the required list |
| RolesGuard.CanActivate | src/auth/roles.guard.ts:17-41 | absent or empty requirement passes even without a user; otherwise no user gives Forbidden "User not found in request"; else passes iff some role overlaps, failing with Forbidden "Insufficient role" |
| RolesGuard.DecisionDependsOnlyOnMembership | src/auth/roles.guard.ts:34 | reordering or repeating roles on either side never changes the decision |
| RolesGuard.SingleRoleRequirement | src/auth/roles.guard.ts:23-38 | requiring a single role admits exactly the users who hold it |
| HttpExceptionFilter.MessageOf | src/core/http-exception.filter.ts:26-31 | a string response is the message verbatim; an object's `message` is used, "Error" when null or undefined; the message is never null |
| HttpExceptionFilter.Catch | src/core/http-exception.filter.ts:17-56 | body statusCode equals the transport status and the timestamp is the one given; an HTTP exception keeps its status; anything else is 500 "Internal server error" |
| HttpExceptionFilter.CatchNestException | src/core/http-exception.filter.ts:24-41 | an exception built from a message is reported with its own status and that exact message |
| HttpExceptionFilter.CatchHidesUnexpectedDetail | src/core/http-exception.filter.ts:42-54 | the body for a non-HTTP exception is the same whatever was thrown |
| TransformInterceptor.Intercept | src/core/transform.interceptor.ts:14-24 | the handler value is carried unchanged under `data`; meta.success is true; meta.timestamp is the wrapping time |
| CreatePublicationDto.Validate | src/publications/create-publication.dto.ts:14-28 | a body is accepted iff title is a string of length at least 5, author a string passing the email rule, and year absent or an integer in 1900..2025; accepted fields are copied exactly |
| CreatePublicationDto.ValidateAcceptsWellFormed | src/publications/create-publication.dto.ts:15-27 | every body meeting the constraints is accepted with its fields unchanged |
| PublicationsController.PolicyOf | src/publications/publications.controller.ts:30-76 | reads run no guard; create runs authentication then role editor; update runs authentication only; delete runs authentication then role admin |
| PublicationsController.RunGuards | src/publications/publications.controller.ts:43-75 | with no guards the request passes with no user attached |
| PublicationsController.OwnershipCheck | src/publications/publications.controller.ts:61-68 | passes exactly when the caller created the record or holds admin; otherwise Forbidden with the ownership message |
| PublicationsController.UpdateHandler | src/publications/publications.controller.ts:53-71 | an unknown id is NotFound before any ownership check; a caller who is neither creator nor admin gets Forbidden; otherwise the store is updated and the patched record returned |
| PublicationsController.Handler | src/publications/publications.controller.ts:30-80 | list returns the filtered records; get and delete succeed exactly when the id is stored, else NotFound, and a non-integer id is 400; a create with an invalid body is 400 with the validator's errors, a valid one appends a record numbered nextId owned by the caller; update is the update handler; reads never change the store |
| PublicationsController.ErrorReplyOf | src/core/http-exception.filter.ts:37-54 | an error reply's body statusCode equals its status and carries the given timestamp |
| PublicationsController.Handle | src/main.ts:19-24 | any failure leaves the store unchanged with a consistent error body; every success is wrapped with meta {now, true} and the route's success status; reads never change the store |
| PipelineProperties.CreateGuards | src/publications/publications.controller.ts:42-47 | create passes its guards iff authentication succeeds and the user holds editor, else 401 or Forbidden "Insufficient role" |
| PipelineProperties.UpdateGuards | src/publications/publications.controller.ts:51-52 | update passes its guards iff authentication succeeds; no role is required |
| PipelineProperties.DeleteGuards | src/publications/publications.controller.ts:74-77 | delete passes its guards iff authentication succeeds and the user holds admin |
| PipelineProperties.RouteGuards | src/publications/publications.controller.ts:29-77 | GET routes pass with no user; other routes pass exactly as their policy's guards decide |
| PipelineProperties.HandleWrapsHandlerOutput | src/main.ts:19-24 | every successful reply carries unchanged the value the route's handler returned after its guards passed |
| PipelineProperties.HandlePreservesValid | src/publications/publications.controller.ts:30-80 | every request keeps the store invariant |
| PipelineProperties.MalformedHeaderIsUnauthorized | src/auth/auth.guard.ts:43-49 | a guarded route with a non-Bearer header gets 401 "Missing or invalid Authorization header" and the store is unchanged |
| PipelineProperties.UndecodableTokenIsUnauthorized | src/auth/auth.guard.ts:25-27 | a guarded route whose token does not decode gets 401 "Invalid token" and the store is unchanged |
| PipelineProperties.HandleReportsFailures | src/core/http-exception.filter.ts:17-56 | a guard failure, or else a handler failure, is answered by the exception filter's reply for exactly that failure, with the store unchanged |
| PipelineProperties.EmptyArrayHeaderIsServerError | src/auth/auth.guard.ts:37-43 | on a guarded route an empty-array Authorization header answers the generic 500 "Internal server error", not a 401, with the store unchanged |
| PipelineProperties.NonIntegerIdOnGuardedRoute | src/publications/publications.controller.ts:51-54 | on update, and on delete by an admin, a non-integer id after the guards pass answers 400 "Validation failed (numeric string is expected)" with the store unchanged |
| PipelineProperties.ListIsPublic | src/publications/publications.controller.ts:30-33 | whatever the headers, listing answers 200 with the (optionally author-filtered) records and leaves the store unchanged |
| PipelineProperties.GetById | src/publications/publications.controller.ts:36-39 | whatever the headers, a stored id answers 200 with that record, an unknown id 404 "Publication with id N not found"; the store is unchanged |
| PipelineProperties.NonIntegerIdOnGet | src/publications/publications.controller.ts:37 | a non-integer id on the read route answers 400 "Validation failed (numeric string is expected)" and leaves the store unchanged |
| PipelineProperties.CreateByEditorSucceeds | src/publications/publications.controller.ts:42-47 | an authenticated editor with a valid body gets 201 with a record numbered nextId, owned by the caller, and the store gains exactly that record |
| PipelineProperties.CreateWithInvalidBodyIsBadRequest | src/publications/create-publication.dto.ts:14-28 | an authenticated editor with an invalid body gets 400 carrying the validator's errors, and nothing is stored |
| PipelineProperties.CreateSuccessMeansEditor | src/publications/publications.controller.ts:42-47 | a successful create came from an authenticated editor with a valid body; the reply is 201 with the appended record, whose createdBy is that user |
| PipelineProperties.CreateWithoutEditorIsForbidden | src/publications/publications.controller.ts:42-47 | an authenticated non-editor gets 403 "Insufficient role" whatever the body, store unchanged |
| PipelineProperties.UpdateOfUnknownIdIsNotFound | src/publications/publications.controller.ts:58 | an authenticated update of an unknown id is 404 for any caller, store unchanged |
| PipelineProperties.UpdateByOtherUserIsForbidden | src/publications/publications.controller.ts:61-68 | an authenticated caller who is neither creator nor admin gets 403 with the ownership message, store unchanged |
| PipelineProperties.UpdateByOwnerOrAdminSucceeds | src/publications/publications.controller.ts:61-70 | the creator or an admin gets 200 with the patched record, id and createdBy unchanged |
| PipelineProperties.DeleteWithoutAdminIsForbidden | src/publications/publications.controller.ts:74-77 | without admin nobody deletes, the creator included: 403, store unchanged |
| PipelineProperties.DeleteByAdmin | src/publications/publications.controller.ts:77-79 | an admin's delete of a stored id answers 200 `{deleted: true}` and the id is gone; of an unknown id it answers 404 and nothing changes |
| PipelineProperties.GuardsAttachUser | src/auth/auth.guard.ts:51-54 | once an authentication guard has passed, a user is attached for the guards and handler after it |
| PipelineProperties.StatusCodes | src/core/http-exception.filter.ts:37-54 | every reply's status is one of 200, 201, 400, 401, 403, 404, 500, and 500 arises only from an empty-array Authorization header |
| PipelineProperties.WalkCreate | src/publications/publications.controller.ts:42-47 | an editor's create on the empty store answers 201 and stores record 1 created by that user |
| PipelineProperties.WalkStrangerUpdate | src/publications/publications.controller.ts:58-68 | another user without admin is refused the update with 403 and the store is unchanged |
| PipelineProperties.WalkOwnerUpdate | src/publications/publications.controller.ts:58-70 | the creator's update of the year answers 200 and keeps the title |
| PipelineProperties.WalkAdminDelete | src/publications/publications.controller.ts:74-79 | an admin who is not the creator deletes the record; nextId stays 2 |
| PipelineProperties.WalkGetAfterDelete | src/publications/publications.controller.ts:36-39 | the deleted id then answers 404 |

## Left out

- Base64 decoding and `JSON.parse` are library code. They are the abstract partial function `TokenCodec.parse` (`None` where parsing throws).
- Number-to-string formatting (inside `String(...)`) is library code. It is the abstract `TokenCodec.numberText`.
- `IsEmail` is library code. It is the `isEmail` parameter of `Library`.
- The validator's list of error messages is library code. It is `Library.validationErrors`.
- The `@Type(() => Number)` conversion is library code. A create body arrives already converted (`Num`).
- The integer pipe on `:id` is library code. A route carries its outcome as `Option<int>`, and `None` gives a 400.
- The whitelist and forbid-non-whitelisted options of the validation pipe are not modelled. A body is just the three known fields.
- A create body with `year: null` passes the optional-field rule, and the source stores and returns `year: null`. The model stores `None`, the same as for an absent year, so the two are not distinguished in the record or the reply.
- `update-publication.dto.ts` is not part of this model. An update body is three optional, already-validated fields, and `null` is not distinguished from absent.
- Framework stage order is taken as given, not proved. This covers guards before pipes before the handler, with the global envelope and filter around every route. It also covers the default status 201 for POST and 200 otherwise, and the `{message, error, statusCode}` response object of Nest's HTTP exceptions.
- Logging is not modelled (`logging.interceptor.ts`, `request-logger.middleware.ts` and the filter's `logger.error` calls). It is console output with no effect on replies.
- Time is the string parameter `now`. One value per request stands for the separate clock readings of the envelope and the filter. ISO-8601 formatting is not modelled.
- Reflection metadata and the roles decorator are replaced by the explicit table `PolicyOf`.
- Object aliasing is not modelled: records are values and the store is explicit state. Examples are `findAll` returning the internal array and `update` mutating in place.
- Bootstrap and module wiring (`main.ts`, `app.module.ts`, `core.module.ts`, `auth.module.ts`) are not modelled. The only facts kept are the global filter and envelope.
- A repeated `author` query parameter (an array in the query object) is not modelled. The author is an optional string.
- The title length is counted in characters, not UTF-16 code units.
- Ids are unbounded integers. JavaScript number precision beyond 2^53 is not modelled.
- Unknown routes and the router's own 404 are not modelled. Concurrency is not modelled either, because the source has none.
- PublicationsController.Handle: its contract states only what holds for every route. `PipelineProperties.HandleReportsFailures` ties every error reply to the guard or handler failure that caused it. The reply of each route is stated by the lemmas of `PipelineProperties`: `ListIsPublic`, `GetById`, `NonIntegerIdOnGet`, `NonIntegerIdOnGuardedRoute`, `EmptyArrayHeaderIsServerError`, `CreateByEditorSucceeds`, `CreateWithInvalidBodyIsBadRequest`, and the update and delete lemmas.
- PublicationsController.RunGuards: its contract only covers the empty guard list. The guard lists of the policy table are characterised by `PipelineProperties.RouteGuards`.
