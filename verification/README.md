# A verified model of the go-techblog-msksgm backend core

go-techblog-msksgm is a small blog REST backend written in Go. Users register,
log in with a username and password and receive a signed token, and then
create, list, read, update and delete articles. Each request passes through
an authentication middleware that reads the `Authorization` header. Handlers
decode the JSON body, validate it, consult the user and article services, and
answer with a status code and a JSON body. The services are backed by
PostgreSQL. They build their SELECT statements from optional filter fields,
numbering placeholders `$1..$n`, and map driver errors to the sentinel errors
`ErrNotFound`, `ErrUnAuthorized`, `ErrDuplicateUsername` and `ErrInternal`.

This project models that logic as pure Dafny functions over immutable
datatypes and proves what the code promises about it. The modules follow the
program's layout:

| module | models |
|---|---|
| `Wrappers` | `Option` and `Result` |
| `Text` | decimal rendering (`%d`), `strings.Join`, `strings.Split` |
| `Model` | users, articles, filters, patches, the sentinel errors with `%w` wrapping and `errors.Is`, the request identity |
| `Sql` | `formatLimitOffset`, `formatWhereClause`, the `findArticles` and `findUsers` statement builders, and what a built predicate selects |
| `Store` | the non-SQL logic of postgres/user.go and postgres/article.go (lookups, authentication, inserts, author attachment, patches, error mapping) |
| `Http` | responses and the error helpers of server/errors.go |
| `Validation` | validator tags, `checkTagRules`, `validationError` |
| `Middleware` | `authenticate(mustAuth)` |
| `ArticleHandlers` | the handlers of server/article.go |
| `UserHandlers` | the handlers of server/user.go |
| `Server` | port normalisation in `Run`, and `healthCheck` |

Several things outside the model become parameters of the functions that use
them:

- **The database.** A read is a function from statement text and argument list
  to rows or an error. An insert or update is a function from the argument
  list to the values of its `RETURNING` clause.
- **Outside computations.** Password hashing and verification, token signing
  and token parsing are function parameters.
- **Services.** The user and article services are records of functions.
  Handlers can therefore be related to any service implementation, including
  the persistence model (`Store*` and `BySlug` adapters).

A handler returns an `Outcome`, which is one of three things:

- a `Reply`: the response (status, headers, JSON body) together with the
  mutating service call it reached, if any;
- `Exit`: the process stopped through `log.Fatal`;
- `Abort`: the handler panicked, and net/http closed the connection without
  any reply.

Where the documented behaviour and the code differ, the model follows the
code:

- `Authenticate` returns the lookup's error unchanged (not-found for an
  unknown user), rather than always reporting "unauthorized". The login
  reply is the same 401 either way (`UserHandlers.LoginHidesCause`).
- The middleware rejects a header only when splitting it on spaces gives
  fewer than two parts. A header with three or more parts is accepted, and its
  second part is the token (`Middleware.ExtraFieldsIgnored`).
- `createUser` answers an undecodable body with 422 carrying the decoder's
  error, not 400.
- `updateUser` validates a struct whose fields carry no tags, so its
  validation step never fails. The model has no 422 path there.
- The handlers encode `model.Article` directly; `articleResponse` is not
  called. Both are modelled, and `ArticleHandlers.ArticleResponseAgreesWithEncoding`
  relates them.

## Model

| member | source | states |
|---|---|---|
| Sql.FormatLimitOffset | postgres/utils.go:13-22 | the paging text is empty exactly when neither limit nor offset is positive; a non-empty text never starts with a space; it starts with "LIMIT " exactly when the limit is positive and with "OFFSET " exactly when only the offset is |
| Sql.PagingRoundTrip | postgres/utils.go:13-22 | the paging text reads back as (limit, offset) with non-positive values as 0, so "LIMIT l OFFSET o", "LIMIT l" and "OFFSET o" carry exactly the positive values |
| Sql.FormatWhereClause | postgres/utils.go:24-29 | the WHERE text is empty exactly when there are no predicates, and otherwise starts with " WHERE " |
| Sql.WhereClauseSnoc | postgres/utils.go:28 | adding a predicate conjoins it with " AND " after the others, so the predicates appear in input order |
| Sql.Build | postgres/article.go:75-101 | the builder loop emits one predicate per set condition, numbered 1..n in emission order, with argument i the value of condition i |
| Sql.BuildAligned | postgres/article.go:75-101 | for conditions read off a filter, argument i is the filter's value for predicate i's column |
| Sql.BuildOrdered | postgres/article.go:75-101 | for conditions visited in increasing rank, the emitted predicates keep that order |
| Sql.BuildCovers | postgres/article.go:75-101 | for conditions that visit every set field, every set field gets a predicate |
| Sql.BuildShape | postgres/article.go:75-101 | for conditions read off a filter, the result is numbered, aligned, in visiting order, and covers every set field |
| Sql.SatisfiesMeaning | postgres/utils.go:28 | a numbered, aligned, covering predicate list holds for a row exactly when every set field's condition holds |
| Sql.ArticlesQueryShape | postgres/article.go:104 | the article statement is a select over articles, and it is the bare "SELECT * from articles ORDER BY created_at DESC" exactly when no predicate was emitted |
| Sql.ArticleWhereShape | postgres/article.go:75-102 | `findArticles` emits a predicate for a field exactly when it is set, in the order id, author_id, slug, title, author-by-username, numbered $1..$n, with argument i the value of predicate i's field |
| Sql.ArticleWhereMeaning | postgres/article.go:78-104 | the built statement selects exactly the articles the filter describes, including the author-by-username subquery |
| Sql.ArticlesQueryIgnoresPaging | postgres/article.go:104 | the article filter's limit and offset never change the article statement or its arguments |
| Sql.UnfilteredArticlesQuery | postgres/article.go:104 | an all-unset filter gives "SELECT * from articles ORDER BY created_at DESC" with no arguments |
| Sql.SlugQuery | postgres/article.go:156-158 | the slug lookup sends "... WHERE slug = $1 ORDER BY created_at DESC" with the slug as its only argument |
| Sql.UserWhereShape | postgres/user.go:102-110 | `findUsers` emits an id predicate, then a username predicate, each exactly when set, numbered $1..$n with aligned arguments |
| Sql.UserWhereMeaning | postgres/user.go:102-112 | the built statement selects exactly the users the filter describes |
| Sql.UsersQueryGluesPaging | postgres/user.go:112 | as written, with a positive limit the statement runs "ASC" straight into "LIMIT" |
| Sql.UsersQueryGluesPagingExample | postgres/user.go:112 | as written, a five-row page of all users is "SELECT * from users ORDER BY id ASCLIMIT 5"; the corrected statement has a space there |
| Sql.UsersQueryAsWritten | postgres/user.go:112 | as written: the statement starts with the base query, up to and including its ORDER BY |
| Sql.UsersQueryAsWrittenPaging | postgres/user.go:112 | as written, what follows the ORDER BY is the paging text itself, with no separator, and it reads back as the filter's effective limit and offset |
| Sql.UsersQueriesAgree | postgres/user.go:112 | with no limit and no offset the as-written and the corrected statement are the same text, the base query |
| Sql.UsersQuery | postgres/user.go:112 | corrected statement: it starts with the base query, and what follows is either nothing or a space and a paging text that reads back as the filter's effective limit and offset |
| Sql.IdQuery | postgres/user.go:183-185 | the id lookup, as written, sends "SELECT * from users WHERE id = $1 ORDER BY id ASC" with the id as its only argument |
| Sql.UsernameQuery | postgres/user.go:74 | the username lookup, as written, sends "SELECT * from users WHERE username = $1 ORDER BY id ASC" with the name as its only argument |
| Text.Split | server/middlewares.go:34 | `strings.Split` gives at least one piece; no piece contains the separator; there is exactly one piece when the separator does not occur |
| Store.CreateUserError | postgres/user.go:41-47 | an error whose text is exactly the `users_username_key` unique-violation message becomes the duplicate-username sentinel; every other error passes through unchanged |
| Store.CreateUserErrorExact | postgres/user.go:41-47 | the mapping yields the duplicate-username sentinel exactly when the text was the violation message or the error already was the sentinel |
| Store.FirstRow | postgres/article.go:159-167 | a read's error passes through; no rows gives the not-found sentinel; otherwise the first row |
| Store.FindUsers | postgres/user.go:98-120 | `findUsers` sends the statement as written with its aligned arguments; without paging this is also the corrected statement |
| Store.FindOneUser | postgres/user.go:86-96 | `findOneUser` propagates the query error, reports not-found on zero rows, and otherwise returns the first row |
| Store.UserByUsername | postgres/user.go:66-84 | the username lookup is the first row of the read with the single predicate `username = $1` and the name bound: the read's error, not-found on no rows, otherwise the first user (the full text is `Sql.UsernameQuery`) |
| Store.FindUserByID | postgres/user.go:183-185 | the id lookup is the first row of the read with the single predicate `id = $1` and the id bound (the full text is `Sql.IdQuery`) |
| Store.UserByUsernameMeaning | postgres/user.go:66-84 | against a database that answers faithfully, the username lookup succeeds exactly when the table holds a user with that name, returns such a user, and otherwise reports not-found |
| Store.FindUserByIDMeaning | postgres/user.go:183-185 | against a faithful database, the id lookup succeeds exactly when the table holds a user with that id, and otherwise reports not-found |
| Store.Authenticate | postgres/user.go:53-64 | the lookup's error unchanged; unauthorized when the password does not verify; success exactly when the lookup succeeds and the password verifies, with the looked-up user |
| Store.AuthenticateMeaning | postgres/user.go:53-64 | against a faithful database, a successful authentication yields a stored user with that name whose password verifies; an unknown name gives not-found; any other failure is unauthorized |
| Store.CreateUser | postgres/user.go:34-51 | the insert succeeds exactly when the driver's insert does; a failure goes through the duplicate-username mapping |
| Store.CreateUserStoresUser | postgres/user.go:35-40 | username and password hash reach their columns, and the stored row with its generated id and timestamps is the user handed back |
| Store.CreateArticle | postgres/article.go:37-56 | the insert succeeds exactly when the driver's insert does; its error passes through unchanged |
| Store.CreateArticleStoresArticle | postgres/article.go:38-50 | title, body, author_id and slug are sent in that order; the stored row with its generated id and timestamps is the article handed back |
| Store.AttachAuthors | postgres/article.go:120-137 | the list succeeds exactly when every author lookup succeeds; each article then gets the user found by its author id; otherwise the first failed lookup's error, wrapped with "cannot find article author" |
| Store.Articles | postgres/article.go:104-126 | the read's error passes through unchanged; otherwise the rows with their authors attached |
| Store.ArticleBySlug | postgres/article.go:156-167 | the slug read's error passes through; no rows gives not-found; otherwise success exactly when every row's author is found, with the first row and its author attached; the first failed author lookup's error, wrapped, otherwise |
| Store.MissingAuthorLooksNotFound | postgres/article.go:129-133 | when an article's author lookup reports not-found, the slug lookup fails with an error that `errors.Is` reports as not-found |
| Store.ApplyArticlePatch | postgres/article.go:188-194 | body and title are overwritten only when the patch sets them; no other field changes |
| Store.ArticlePatchIdempotent | postgres/article.go:188-194 | applying a patch twice is applying it once, and an empty patch changes nothing |
| Store.ArticlePatchCompose | postgres/article.go:188-194 | two patches in a row equal one patch whose fields are the second's, falling back to the first's |
| Store.UpdateArticle | postgres/article.go:187-213 | the patched article is written as (body, title, id); any write failure becomes the internal-error sentinel; a success returns the patched article with the new update time |
| Store.UpdateArticleKeepsIdentity | postgres/article.go:196-205 | an update never changes the id, slug, author or creation time, and it writes to the article's own id |
| Store.ApplyUserPatch | postgres/user.go:154-161 | username and password hash are overwritten only when the patch sets them; no other field changes |
| Store.UserPatchIdempotent | postgres/user.go:154-161 | applying a user patch twice is applying it once, and an empty patch changes nothing |
| Store.UpdateUser | postgres/user.go:132-181 | a failure to begin, write or commit becomes the internal-error sentinel; success requires all three to succeed and returns the patched user with the new update time |
| Store.UpdateUserKeepsIdentity | postgres/user.go:163-173 | an update keeps the user's id and creation time, and it writes to that id |
| Http.WriteJson | server/utils.go:16-30 | the reply carries the given status and body and sets the JSON content type |
| Http.ErrorM | server/errors.go:11-12 | the field-to-messages map becomes a JSON object with the same keys, each holding its list of messages |
| Http.ErrorResponse | server/errors.go:40-42 | the payload sits under the single key "errors", with the given status |
| Http.ErrorResponseRoundTrip | server/errors.go:40-42 | reading the "errors" key back from an error response gives the payload |
| Http.ServerError | server/errors.go:35-38 | the reply is always 500 with the fixed text "internal error" |
| Http.ServerErrorHidesCause | server/errors.go:35-38 | any two errors produce identical server-error replies, so the error's text never reaches the client |
| Http.InvalidUserCredentials | server/errors.go:44-47 | 401 with "invalid authentication credentials" and no challenge header |
| Http.InvalidAuthToken | server/errors.go:49-53 | 401 with "invalid or missing authentication token" and `WWW-Authenticate: Token` |
| Http.UnauthorizedResponsesDiffer | server/errors.go:44-53 | the two 401 replies have the same status and differ only in the challenge header |
| Validation.FirstFailingRule | server/user.go:49-50 | the validator stops at a field's first failing tag: none fails exactly when all pass, and every tag before the reported one passes |
| Validation.ValidateFields | server/user.go:62-65 | at most one error per field; no errors exactly when every tag of every field passes; every error names a field of the struct |
| Validation.ValidateFieldsReports | server/user.go:62-65 | exactly one error per failing field, in field order, each carrying the field's name and the tag and parameter of its first failing rule |
| Validation.ValidateFieldsPicked | server/user.go:62-65 | the validator's errors are exactly the errors of the failing fields, taken in field order, none dropped and none added |
| Validation.PickedPicks | server/user.go:62-65 | taking the failing fields' errors one by one puts the k-th failing field's error k-th |
| Validation.Positions | server/user.go:62-65 | reference for "the failing fields": every true position is listed, in increasing order, and no false one |
| Validation.PicksCons | server/user.go:62-65 | reporting proceeds field by field: the first field's error if it fails, then the errors of the remaining fields |
| Validation.ReportsNothing | server/user.go:62-65 | one error per failing field means no error is reported exactly when no field fails |
| Validation.ReportsNames | server/user.go:62-65 | one error per failing field means every reported error names a field of the struct |
| Validation.ReportedFields | server/user.go:62-65 | one error per failing field means at most one per field, none exactly when everything passes, and only fields of the struct named |
| Validation.CheckTagRules | server/errors.go:55-70 | "required" gives "this field is required", "min" gives "<field> must be greater than <param>", "max" gives "<field> must be less than <param>", and any other tag gives "" |
| Validation.RuleMessage | server/errors.go:55-70 | the message for a failed rule names the field and the bound written in the tag |
| Validation.Aggregate | server/errors.go:22-28 | a field has a key exactly when some error names it, and each key holds that field's messages in report order, repeats kept |
| Validation.AggregateSingle | server/errors.go:24-27 | a single error gives its field a single message |
| Validation.MessagesForContents | server/errors.go:24-28 | a field's messages are the messages of exactly the errors reported for it, one each, in report order |
| Validation.ValidationError | server/errors.go:19-33 | always 422; field errors are aggregated per field; any other error becomes its text under "non_field_error" |
| Middleware.BearerToken | server/middlewares.go:34-41 | a token exists exactly when the header contains a space, and it is the text between the first and second space |
| Middleware.Authenticate | server/middlewares.go:22-58 | empty header: 401 when authentication is required, otherwise anonymous; no space: 401; unparsable token: 401; failed user lookup: 500; otherwise the looked-up user and the raw token |
| Middleware.WithVary | server/middlewares.go:21 | `Vary: Authorization` is added, and status, body and other headers are kept |
| Middleware.Serve | server/middlewares.go:18-61 | every reply carries `Vary: Authorization`; a rejection reaches no handler; otherwise the next handler's outcome for the context the middleware built, and no reply when that handler ends the process or panics |
| Middleware.MustAuthNeverAnonymous | server/middlewares.go:24-27 | behind a middleware that requires authentication, a handler never sees the anonymous identity |
| Middleware.SchemeIgnored | server/middlewares.go:34-41 | the scheme word is never checked: headers that agree from the first space on lead to the same decision |
| Middleware.ExtraFieldsIgnored | server/middlewares.go:34-41 | parts after the token are ignored: "scheme token extra" is decided as "scheme token" |
| Middleware.VanishedUserIsServerError | server/middlewares.go:49-54 | a valid token whose user lookup fails is rejected with 500, not 401 |
| ArticleHandlers.ArticleJson | model/article.go:8-17 | the encoding has exactly the keys title, body, slug, createdAt and updatedAt |
| ArticleHandlers.ArticleJsonHidesIdentity | model/article.go:8-17 | two articles encode alike exactly when title, body, slug and both timestamps agree; the id, author id and author never show |
| ArticleHandlers.ArticleResponse | server/article.go:11-22 | no article gives no body; otherwise exactly the keys title, body, slug, createdAt and updatedAt, holding the article's values |
| ArticleHandlers.ArticleResponseAgreesWithEncoding | model/article.go:8-17 | the direct JSON encoding of an article has the same keys and values as `articleResponse`, up to the timestamp layout |
| ArticleHandlers.ValidateArticleMeaning | server/article.go:27-29 | the create input is valid exactly when title, body and slug are non-empty |
| ArticleHandlers.CreateArticleHandler | server/article.go:24-67 | undecodable 400; invalid 422 with the aggregated field messages; anonymous 401 with the token challenge; store failure the generic 500; otherwise 201 with the created article; the store is called exactly when the input is decoded and valid and the caller is authenticated |
| ArticleHandlers.CreateArticleOwnership | server/article.go:51-58 | an anonymous caller never reaches the store; an article that is created has the caller as author and author id |
| ArticleHandlers.ListFilter | server/article.go:72-76 | the author-username field is set exactly when the `author` parameter is non-empty; no other field is set |
| ArticleHandlers.ListFilterQuery | server/article.go:74-78 | an empty `author` lists everything; a non-empty one gives the single author-by-username predicate with the name as $1 |
| ArticleHandlers.ArticleList | server/article.go:84 | the article list is encoded element by element, in order |
| ArticleHandlers.ListArticlesHandler | server/article.go:69-86 | 200 with the listed articles, or 500 when the service fails; no mutation |
| ArticleHandlers.GetArticleHandler | server/article.go:88-111 | the status is 200 or 500, never 404; 200 exactly when the read succeeds, with the first match or a null article; a failed read gives the generic 500 |
| ArticleHandlers.GetArticleVersusBySlug | server/article.go:103-109 | where the slug lookup would report not-found, the read endpoint answers 200 with a null article; where it finds one, the endpoint shows the same article |
| ArticleHandlers.LookupFailure | server/article.go:130-140 | a lookup error that is not-found (also when wrapped) gives 404 with the "requested article not found" body; any other error gives 500 |
| ArticleHandlers.Forbidden | server/article.go:144-148 | 403 with `{"article":["forbidden request"]}` |
| ArticleHandlers.UpdatePatch | server/article.go:150-153 | the update patch carries the request's title and body and never a slug |
| ArticleHandlers.UpdateArticleHandler | server/article.go:113-162 | undecodable 400; failed lookup 404 or 500; non-author 403; the store is called exactly when the caller is the author, with the looked-up article and the title/body patch; then 500 or 200 with the updated article |
| ArticleHandlers.DeleteArticleHandler | server/article.go:164-195 | failed lookup 404 or 500; non-author 403; the store is called exactly when the caller is the author, with the article's id; then 500 or 204 with no body |
| Http.NoContent | server/article.go:193 | the 204 reply sets the JSON content type but carries no body |
| ArticleHandlers.OnlyAuthorMutates | server/article.go:142-148 | every update or delete that reaches the store touches an article the caller wrote; a 403 reaches no store call |
| ArticleHandlers.VanishedAuthorDeleteIsNotFound | server/article.go:168-178 | against the persistence model, deleting an article whose author no longer exists answers 404 and reaches no store call |
| UserHandlers.UserJson | model/user.go:10-16 | the encoding shows only the username and the token, each left out when empty; id, hash and timestamps never appear |
| UserHandlers.UserJsonHidesSecrets | model/user.go:10-16 | two users with the same username and token encode identically, whatever their hashes, ids and timestamps |
| UserHandlers.UserResponse | server/user.go:27-34 | no user gives no body; otherwise exactly the username |
| UserHandlers.UserTokenResponse | server/user.go:36-44 | no user gives no body; otherwise exactly the username and the token |
| UserHandlers.UserResponsesAgree | server/user.go:27-44 | the token response is the plain response plus the token key, and a named user without a token encodes as `userResponse` shows it |
| UserHandlers.ValidateUserMeaning | server/user.go:49-50 | a registration is valid exactly when the username has at least 2 characters and the password 8 to 72 |
| UserHandlers.ShortUsernameMessage | server/user.go:49 | a one-character username with a valid password gives the single error (username, min, 2) and the message "username must be greater than 2" |
| UserHandlers.CreateUserHandler | server/user.go:46-89 | undecodable 422 with the decoder's error; a `null` body (nil input pointer) gets no reply at all; invalid 422 with the field messages; a failed hash ends the process; the store is called exactly when the body is decoded, valid and hashed, and receives the username and hash; then duplicate 409 with the username message, other failures 500, otherwise 201 with the stored user |
| UserHandlers.CreateUserStoresHash | server/user.go:67-74 | the user handed to the store carries the password's hash, never the password, and no token |
| UserHandlers.DuplicateInsertIsConflict | server/user.go:76-80 | against the persistence model, a unique violation from the driver becomes the 409 reply |
| UserHandlers.LoginHandler | server/user.go:91-123 | undecodable 422; any authentication failure, and an answer without a user, one 401; a signing failure 500; otherwise 200 with the user and the new token |
| UserHandlers.LoginHidesCause | server/user.go:107-112 | against the persistence model, an unknown username and a wrong password get the same 401 reply |
| UserHandlers.GetCurrentUserHandler | server/user.go:125-136 | 200 with the context user and the context token |
| UserHandlers.UpdateUserHandler | server/user.go:138-184 | undecodable 400; a `null` body (nil input pointer) gets no reply at all; the process ends exactly when a new password fails to hash; the patch carries only the username while the hash is applied to the user directly; store failure 500, otherwise 200 with the context token |
| UserHandlers.NullBodyGetsNoReply | server/user.go:55-62 | as written, a `null` body makes both registration and profile update panic, so no reply is sent |
| UserHandlers.NilAsZero | server/article.go:33-35 | decoding into a struct value: a `null` body gives the zero input, any other body is unchanged |
| UserHandlers.CreateUserHandlerNilSafe | server/user.go:55-62 | registration with `null` read as the empty object never panics, and agrees with the handler on every other body |
| UserHandlers.EmptyRegistrationErrors | server/user.go:49-50 | the empty registration fails the required tag of the username and then of the password |
| UserHandlers.NilSafeRegistrationIsInvalid | server/user.go:55-65 | with `null` read as the empty object, a `null` registration is a 422 naming both required fields, with no store call |
| UserHandlers.UpdateUserHandlerNilSafe | server/user.go:146-153 | profile update with `null` read as the empty object never panics, and agrees with the handler on every other body |
| UserHandlers.NilSafeUpdateChangesNothing | server/user.go:146-174 | with `null` read as the empty object, a `null` profile update asks the store to write the user unchanged and replies 200 or 500 |
| UserHandlers.UpdateUserStores | server/user.go:163-174 | against the persistence model, a 200 reply means the new username (when given) and the new password's hash (when given) were written for the user's id |
| Server.NormalizePort | server/server.go:41-45 | the address always starts with ":"; a port that already does is unchanged, any other gets ":" in front |
| Server.NormalizePortIdempotent | server/server.go:42-44 | normalising twice is normalising once |
| Server.NormalizePortSameAddress | server/server.go:42-44 | "8080" and ":8080" give the same address; two ports that agree on the leading colon give the same address only when equal |
| Server.HealthCheck | server/server.go:50-57 | always 200 with exactly `{"status":"available","message":"health"}` |

## Left out

- Transactions (`BeginTxx`, `Commit`, `Rollback`) are not modelled. This
  includes the immediate, non-deferred `Rollback` at postgres/user.go:72 and
  :139, which would make the statements after it fail on a real driver. The
  only exception is `Store.UpdateUser`, which takes the begin and commit
  outcomes as parameters so that their error mapping is covered.
- Reflection-based row scanning (`findMany` and its helpers in
  postgres/utils.go) is out of scope. A read is an abstract result: rows or an
  error. This also leaves out that a `StructScan` error is silently dropped.
- bcrypt hashing and verification, and JWT signing and parsing, are function
  parameters. The `claims["username"].(string)` type assertion, which panics on
  a claim that is not a string, is not modelled.
- JSON encoding and decoding are not modelled. A body is the JSON value the
  encoder would produce, and an undecodable request is an input variant.
  The one decoder behaviour that is modelled is the JSON `null` body.
  `createUser` and `updateUser` decode into a pointer, so `null` leaves it
  nil (an `Option` input). `createArticle`, `loginUser` and `updateArticle`
  decode into a struct value, so `null` leaves the zero input, which is an
  ordinary decoded input.
  Timestamps are abstract naturals tagged with their layout.
- A `writeJSON` encoding failure is not modelled; it cannot happen for the
  values these handlers write.
- Routing, gorilla/mux, the request logger, `NewServer`, `ListenAndServe` and
  environment loading are I/O and configuration.
- Request-context storage is not modelled. The context is the record
  `RequestContext(identity, token)`, and handlers behind an
  authentication-requiring middleware take the authenticated user directly
  (`Middleware.MustAuthNeverAnonymous`). The fields of the anonymous user are
  not modelled.
- `deleteArticle`'s statement is not modelled. The delete service is an
  abstract call that either succeeds or fails.
- `getArticle` reads the slug from the route, where it is always present.
  The model also allows it to be absent.
- Integers are unbounded. Ids are `nat`; Go's 64-bit `uint` and `int` bounds
  are not modelled.
- A string is a sequence of Unicode code points, so validator lengths are
  counted in runes, as the validator counts them.
- Http.BadRequest: only the 400 status is fixed. `badRequestError` is not part
  of this model, so its body is left undetermined.
- Http.NotFoundResponse: `notFoundError` is not part of this model. It is taken
  to be an error response with status 404 carrying the given messages.
- UserHandlers.UserJson: the `Token` field is missing from `model.User` in
  this snapshot. Its JSON tag is taken to be `token,omitempty`, which agrees
  with server/user_test.go:39-49.
- Store.ErrorText: `ErrInternal` is missing from model/errors.go in this
  snapshot. Its text is taken to be "internal error"; only the exact
  unique-violation message is compared against error texts.

## Findings

| source | as written | input that shows it | evidently intended | confidence | as-written member | corrected member |
|---|---|---|---|---|---|---|
| server/user.go:55-62 | `createUser` decodes into `&input` where `input` is already a pointer, so a `null` body sets it to nil, and `validate.Struct(input.User)` then dereferences nil; the same holds for `updateUser` at server/user.go:146-153 | the request body `null` for registration or profile update | a `null` body handled like the empty object, giving 422 for registration and an unchanged profile for the update | not executed; high: encoding/json documents that `null` into a pointer sets it to nil | UserHandlers.CreateUserHandler and UserHandlers.UpdateUserHandler (shown by UserHandlers.NullBodyGetsNoReply) | UserHandlers.CreateUserHandlerNilSafe and UserHandlers.UpdateUserHandlerNilSafe (UserHandlers.NilSafeRegistrationIsInvalid, UserHandlers.NilSafeUpdateChangesNothing) |
| postgres/user.go:112 | the paging text is appended directly after " ORDER BY id ASC", with no separator | a user filter with limit 5 and nothing else set gives "SELECT * from users ORDER BY id ASCLIMIT 5" | a space between "ASC" and the paging text when paging is present | not executed; high, since no caller sets a limit today, so the defect is latent | Sql.UsersQueryAsWritten (shown by Sql.UsersQueryGluesPaging and Sql.UsersQueryGluesPagingExample) | Sql.UsersQuery (agrees with the written text whenever no paging is set, Sql.UsersQueriesAgree) |

The persistence model sends the statement as written (`Store.FindUsers`).
Every lookup the code performs sets neither a limit nor an offset, and for
those filters the written and the corrected statement are the same text
(`Sql.UsersQueriesAgree`), so the defect does not change any modelled reply.

The handlers model `createUser` and `updateUser` as written, including the
panic on a `null` body (`Abort`, no reply). The corrected handlers read
`null` as the empty object, as the handlers that decode into a struct value
do.
