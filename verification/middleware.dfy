/** The authentication middleware of server/middlewares.go: the decision it
    takes for a request from the Authorization header, and the wrapping of the
    next handler. Token parsing and the username lookup are parameters. */
module Middleware {
  import opened Wrappers
  import opened Text
  import opened Model
  import opened Http

  /** The middleware's decision: reply itself, or hand the request on with
      this context. */
  datatype Gate = Reject(response: Response) | Proceed(context: RequestContext)

  /** The bearer token of a non-empty header: the second space-separated
      field, if there is one. The scheme word is not looked at. */
  function BearerToken(header: string): (t: Option<string>)
    ensures t.Some? <==> ' ' in header
    ensures t.Some? ==> t.value == TakeUntil(DropThrough(header, ' '), ' ')
  {
    var fields := Split(header, ' ');
    if |fields| < 2 then None
    else
      SecondPiece(header, ' ');
      Some(fields[1])
  }

  /** `authenticate(mustAuth)` up to the call of the next handler. `parse`
      yields the token's username claim; `byUsername` is the user lookup. */
  function Authenticate(header: string, mustAuth: bool, parse: string -> Result<string, Error>,
                        byUsername: string -> Result<User, Error>): (g: Gate)
    ensures header == "" && mustAuth ==> g == Reject(InvalidAuthToken())
    ensures header == "" && !mustAuth ==> g == Proceed(RequestContext(Anonymous, ""))
    ensures header != "" && ' ' !in header ==> g == Reject(InvalidAuthToken())
    ensures header != "" && ' ' in header ==>
      var token := TakeUntil(DropThrough(header, ' '), ' ');
      g == match parse(token)
           case Failure(_) => Reject(InvalidAuthToken())
           case Success(name) =>
             match byUsername(name)
             case Failure(e) => Reject(ServerError(e))
             case Success(u) => Proceed(RequestContext(Authenticated(u), token))
  {
    if header == "" then
      if mustAuth then Reject(InvalidAuthToken()) else Proceed(RequestContext(Anonymous, ""))
    else
      match BearerToken(header)
      case None => Reject(InvalidAuthToken())
      case Some(token) =>
        match parse(token)
        case Failure(_) => Reject(InvalidAuthToken())
        case Success(name) =>
          match byUsername(name)
          case Failure(e) => Reject(ServerError(e))
          case Success(u) => Proceed(RequestContext(Authenticated(u), token))
  }

  /** The `Vary: Authorization` header, added before anything else is written. */
  function WithVary(r: Response): (v: Response)
    ensures v.status == r.status && v.body == r.body
    ensures "Vary" in v.headers && v.headers["Vary"] == "Authorization"
    ensures forall k :: k in r.headers && k != "Vary" ==> k in v.headers && v.headers[k] == r.headers[k]
  {
    r.(headers := r.headers["Vary" := "Authorization"])
  }

  /** The wrapped handler: the middleware's own reply, or the next handler's
      outcome for the context it built; every reply carries the Vary header,
      and a handler that ends the process or panics sends nothing. */
  function Serve(header: string, mustAuth: bool, parse: string -> Result<string, Error>,
                 byUsername: string -> Result<User, Error>, next: RequestContext -> Outcome): (o: Outcome)
    ensures o.Reply? ==> "Vary" in o.response.headers && o.response.headers["Vary"] == "Authorization"
    ensures Authenticate(header, mustAuth, parse, byUsername).Reject? ==>
      o == Reply(WithVary(Authenticate(header, mustAuth, parse, byUsername).response), None)
    ensures Authenticate(header, mustAuth, parse, byUsername).Proceed? ==>
      var n := next(Authenticate(header, mustAuth, parse, byUsername).context);
      o == if n.Reply? then Reply(WithVary(n.response), n.call) else n
  {
    match Authenticate(header, mustAuth, parse, byUsername)
    case Reject(resp) => Reply(WithVary(resp), None)
    case Proceed(ctx) =>
      match next(ctx)
      case Exit => Exit
      case Abort => Abort
      case Reply(resp, call) => Reply(WithVary(resp), call)
  }

  /** Behind a middleware that requires authentication, a handler only ever
      sees a stored user, never the anonymous identity. */
  lemma MustAuthNeverAnonymous(header: string, parse: string -> Result<string, Error>,
                               byUsername: string -> Result<User, Error>)
    ensures var g := Authenticate(header, true, parse, byUsername);
      g.Proceed? ==> g.context.identity.Authenticated?
  {
  }

  /** The scheme word is never checked: two headers that agree from the first
      space on lead to the same decision. */
  lemma SchemeIgnored(scheme1: string, scheme2: string, rest: string, mustAuth: bool,
                      parse: string -> Result<string, Error>, byUsername: string -> Result<User, Error>)
    requires ' ' !in scheme1 && ' ' !in scheme2
    ensures Authenticate(scheme1 + " " + rest, mustAuth, parse, byUsername)
         == Authenticate(scheme2 + " " + rest, mustAuth, parse, byUsername)
  {
    DropAfterWord(scheme1, rest);
    DropAfterWord(scheme2, rest);
  }

  /** Fields after the token are ignored: the source only rejects headers with
      fewer than two fields, so "Bearer t extra" acts as "Bearer t". */
  lemma ExtraFieldsIgnored(scheme: string, token: string, extra: string, mustAuth: bool,
                           parse: string -> Result<string, Error>, byUsername: string -> Result<User, Error>)
    requires ' ' !in scheme && ' ' !in token
    ensures Authenticate(scheme + " " + token + " " + extra, mustAuth, parse, byUsername)
         == Authenticate(scheme + " " + token, mustAuth, parse, byUsername)
  {
    var rest := token + " " + extra;
    assert scheme + " " + token + " " + extra == scheme + " " + rest;
    DropAfterWord(scheme, rest);
    DropAfterWord(scheme, token);
    TakeUntilWord(token, extra, ' ');
  }

  /** Dropping through the first space of "word rest" leaves "rest". */
  lemma {:induction false} DropAfterWord(word: string, rest: string)
    requires ' ' !in word
    ensures ' ' in word + " " + rest
    ensures DropThrough(word + " " + rest, ' ') == rest
    decreases |word|
  {
    var s := word + " " + rest;
    assert s[|word|] == ' ';
    if |word| > 0 {
      assert s[0] == word[0];
      assert s[1..] == word[1..] + " " + rest;
      DropAfterWord(word[1..], rest);
    } else {
      assert s == " " + rest;
    }
  }

  /** A valid token whose user has vanished is a server fault, not a client
      authentication failure. */
  lemma VanishedUserIsServerError(header: string, mustAuth: bool, parse: string -> Result<string, Error>,
                                  byUsername: string -> Result<User, Error>)
    requires header != "" && ' ' in header
    requires parse(TakeUntil(DropThrough(header, ' '), ' ')).Success?
    requires byUsername(parse(TakeUntil(DropThrough(header, ' '), ' ')).value).Failure?
    ensures Authenticate(header, mustAuth, parse, byUsername).Reject?
    ensures Authenticate(header, mustAuth, parse, byUsername).response.status == StatusInternalServerError
  {
  }
}
