/** Responses as the handlers write them (server/utils.go `writeJSON`,
    server/errors.go): a status, the headers set, and the JSON body. The JSON
    encoder itself is not modelled; a body is the JSON value it would encode. */
module Http {
  import opened Wrappers
  import opened Model

  /** How a timestamp is rendered: the encoder's default for `time.Time`, or
      the fixed layout "2006-01-02T15:04:05Z" `articleResponse` formats with. */
  datatype TimeLayout = DefaultLayout | FixedSecondsLayout

  /** A JSON value. Timestamps stay abstract, tagged with their layout. */
  datatype Json =
    | JNull
    | JString(s: string)
    | JTime(t: nat, layout: TimeLayout)
    | JArray(items: seq<Json>)
    | JObject(fields: map<string, Json>)

  /** A written response. `body` is `None` where the source does not
      determine it (the bad-request helper is not part of this model). */
  datatype Response = Response(status: nat, headers: map<string, string>, body: Option<Json>)

  const StatusOK := 200
  const StatusCreated := 201
  const StatusNoContent := 204
  const StatusBadRequest := 400
  const StatusUnauthorized := 401
  const StatusForbidden := 403
  const StatusNotFound := 404
  const StatusConflict := 409
  const StatusUnprocessableEntity := 422
  const StatusInternalServerError := 500

  /** A request body after decoding: the input, or the JSON rendering of the
      decoder's error. A handler that decodes into a pointer variable
      (`readJSON(r.Body, &input)` with `input` already a pointer) receives a
      `Decoded<Option<T>>`: the JSON literal `null` decodes without error and
      sets that pointer to nil, which is `None`. */
  datatype Decoded<+T> = Decoded(input: T) | Undecodable(error: Json)

  /** What a handler does: reply (noting the mutating store call it reached,
      if any), end the process (`log.Fatal`), or panic, which net/http
      recovers by closing the connection without any reply. */
  datatype Outcome = Reply(response: Response, call: Option<StoreCall>) | Exit | Abort

  /** The mutating service calls a handler can reach, with what it passes. */
  datatype StoreCall =
    | CreateArticleCall(article: Article)
    | UpdateArticleCall(target: Article, patch: ArticlePatch)
    | DeleteArticleCall(id: nat)
    | CreateUserCall(user: User)
    | UpdateUserCall(subject: User, userPatch: UserPatch)

  /** `writeJSON`: the status, the JSON content type and the body. */
  function WriteJson(status: nat, data: Json): (r: Response)
    ensures r.status == status && r.body == Some(data)
    ensures r.headers == map["Content-Type" := "application/json"]
  {
    Response(status, map["Content-Type" := "application/json"], Some(data))
  }

  /** `writeJSON` with a 204 status: the content type is set, but a 204
      reply carries no body, so the encoded `null` never reaches the client. */
  function NoContent(): (r: Response)
    ensures r.status == StatusNoContent && r.body.None?
    ensures r == WriteJson(StatusNoContent, JNull).(body := None)
  {
    Response(StatusNoContent, map["Content-Type" := "application/json"], None)
  }

  /** A list of strings as a JSON array. */
  function Strings(ss: seq<string>): (j: Json)
    ensures j.JArray? && |j.items| == |ss|
    ensures forall i :: 0 <= i < |ss| ==> j.items[i] == JString(ss[i])
  {
    JArray(seq(|ss|, i requires 0 <= i < |ss| => JString(ss[i])))
  }

  /** `ErrorM`: field name to messages. */
  function ErrorM(m: map<string, seq<string>>): (j: Json)
    ensures j.JObject? && j.fields.Keys == m.Keys
    ensures forall k :: k in m ==> j.fields[k] == Strings(m[k])
  {
    JObject(map k | k in m :: Strings(m[k]))
  }

  /** `errorResponse`: the payload under the single key "errors". */
  function ErrorResponse(status: nat, errs: Json): (r: Response)
    ensures r.status == status
    ensures r.body == Some(JObject(map["errors" := errs]))
  {
    WriteJson(status, JObject(map["errors" := errs]))
  }

  /** The payload of an error response, when the response is one. */
  function ErrorsOf(r: Response): Option<Json> {
    if r.body.Some? && r.body.value.JObject? && r.body.value.fields.Keys == {"errors"}
    then Some(r.body.value.fields["errors"])
    else None
  }

  /** `errorResponse` is read back by taking the "errors" key. */
  lemma ErrorResponseRoundTrip(status: nat, errs: Json)
    ensures ErrorsOf(ErrorResponse(status, errs)) == Some(errs)
  {
    assert map["errors" := errs].Keys == {"errors"};
  }

  /** `serverError`: 500 with the fixed text, whatever the error was. */
  function ServerError(e: Error): (r: Response)
    ensures r.status == StatusInternalServerError
    ensures ErrorsOf(r) == Some(JString("internal error"))
  {
    ErrorResponseRoundTrip(StatusInternalServerError, JString("internal error"));
    ErrorResponse(StatusInternalServerError, JString("internal error"))
  }

  /** The error's text never reaches the client: all server errors look alike. */
  lemma ServerErrorHidesCause(e1: Error, e2: Error)
    ensures ServerError(e1) == ServerError(e2)
  {
  }

  /** Every server error is a 500. */
  lemma ServerErrorStatus()
    ensures forall e :: ServerError(e).status == StatusInternalServerError
  {
  }

  /** `invalidUserCredentialsError`: 401 without a challenge header. */
  function InvalidUserCredentials(): (r: Response)
    ensures r.status == StatusUnauthorized
    ensures ErrorsOf(r) == Some(JString("invalid authentication credentials"))
    ensures "WWW-Authenticate" !in r.headers
  {
    ErrorResponseRoundTrip(StatusUnauthorized, JString("invalid authentication credentials"));
    ErrorResponse(StatusUnauthorized, JString("invalid authentication credentials"))
  }

  /** `invalidAuthTokenError`: 401 with the `WWW-Authenticate: Token`
      challenge, set before `writeJSON` adds the content type. */
  function InvalidAuthToken(): (r: Response)
    ensures r.status == StatusUnauthorized
    ensures ErrorsOf(r) == Some(JString("invalid or missing authentication token"))
    ensures "WWW-Authenticate" in r.headers && r.headers["WWW-Authenticate"] == "Token"
  {
    var w := ErrorResponse(StatusUnauthorized, JString("invalid or missing authentication token"));
    ErrorResponseRoundTrip(StatusUnauthorized, JString("invalid or missing authentication token"));
    w.(headers := w.headers["WWW-Authenticate" := "Token"])
  }

  /** The two 401 responses differ only in the challenge header. */
  lemma UnauthorizedResponsesDiffer()
    ensures InvalidAuthToken().status == InvalidUserCredentials().status
    ensures InvalidAuthToken().headers - {"WWW-Authenticate"} == InvalidUserCredentials().headers
  {
  }

  /** The bad-request reply: its helper is not part of this model, so only
      the status is fixed. */
  function BadRequest(): (r: Response)
    ensures r.status == StatusBadRequest
  {
    Response(StatusBadRequest, map[], None)
  }

  /** The not-found reply, taken to be an error response with status 404
      carrying the given messages (its helper is not part of this model). */
  function NotFoundResponse(m: map<string, seq<string>>): (r: Response)
    ensures r.status == StatusNotFound
    ensures ErrorsOf(r) == Some(ErrorM(m))
  {
    ErrorResponseRoundTrip(StatusNotFound, ErrorM(m));
    ErrorResponse(StatusNotFound, ErrorM(m))
  }
}
