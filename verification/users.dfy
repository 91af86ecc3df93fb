/** The user handlers of server/user.go: registration, login, the current
    user and profile update, with their validation bounds and JSON views.
    Password hashing and token signing are parameters; a failing hash ends
    the process, as `log.Fatal` does. */
module UserHandlers {
  import opened Wrappers
  import opened Text
  import opened Model
  import opened Sql
  import opened Store
  import opened Http
  import opened Validation

  /** `model.UserService`. */
  datatype UserService = UserService(
    create: User -> Result<User, Error>,
    authenticate: (string, string) -> Result<Option<User>, Error>,
    update: (User, UserPatch) -> Result<User, Error>)

  // ---------------------------------------------------------------------
  // Rendering

  /** The JSON encoding of a user: only the username and the transient token,
      each left out when empty; id, hash and timestamps are hidden. */
  function UserJson(u: User): (j: Json)
    ensures j.JObject? && j.fields.Keys <= {"username", "token"}
    ensures "username" in j.fields <==> u.username != ""
    ensures "token" in j.fields <==> u.token != ""
    ensures "username" in j.fields ==> j.fields["username"] == JString(u.username)
    ensures "token" in j.fields ==> j.fields["token"] == JString(u.token)
  {
    var named := if u.username == "" then map[] else map["username" := JString(u.username)];
    JObject(if u.token == "" then named else named["token" := JString(u.token)])
  }

  /** The encoding depends on nothing but username and token. */
  lemma UserJsonHidesSecrets(u: User, v: User)
    requires u.username == v.username && u.token == v.token
    ensures UserJson(u) == UserJson(v)
  {
  }

  /** `userResponse`: nothing for no user, otherwise just the username. */
  function UserResponse(u: Option<User>): (r: Option<Json>)
    ensures u.None? <==> r.None?
    ensures r.Some? ==> r.value == JObject(map["username" := JString(u.value.username)])
  {
    match u
    case None => None
    case Some(u) => Some(JObject(map["username" := JString(u.username)]))
  }

  /** `userTokenResponse`: as `userResponse`, plus the token. */
  function UserTokenResponse(u: Option<User>): (r: Option<Json>)
    ensures u.None? <==> r.None?
    ensures r.Some? ==> r.value == JObject(map["username" := JString(u.value.username), "token" := JString(u.value.token)])
  {
    match u
    case None => None
    case Some(u) => Some(JObject(map["username" := JString(u.username), "token" := JString(u.token)]))
  }

  /** The token response extends the plain one by the token key alone; and a
      named user without a token is encoded exactly as `userResponse` shows it. */
  lemma UserResponsesAgree(u: User)
    ensures UserTokenResponse(Some(u)).value.fields - {"token"} == UserResponse(Some(u)).value.fields
    ensures UserTokenResponse(Some(u)).value.fields.Keys == UserResponse(Some(u)).value.fields.Keys + {"token"}
    ensures u.username != "" && u.token == "" ==> UserJson(u) == UserResponse(Some(u)).value
  {
    if u.username != "" && u.token == "" {
      assert UserJson(u).fields.Keys == {"username"};
    }
  }

  // ---------------------------------------------------------------------
  // createUser

  /** The body of a registration request; absent JSON fields decode as "". */
  datatype UserInput = UserInput(username: string, password: string)

  /** The validation tags: username required, at least 2 characters;
      password required, 8 to 72 characters. */
  function ValidateUser(req: UserInput): seq<FieldError> {
    ValidateFields([Field("username", req.username, [Required, Min(2)]),
                    Field("password", req.password, [Required, Min(8), Max(72)])])
  }

  /** A registration is valid exactly within the bounds. */
  lemma ValidateUserMeaning(req: UserInput)
    ensures ValidateUser(req) == [] <==>
      2 <= |req.username| && 8 <= |req.password| <= 72
  {
    var fields := [Field("username", req.username, [Required, Min(2)]),
                   Field("password", req.password, [Required, Min(8), Max(72)])];
    assert fields[0].rules[1] == Min(2);
    assert fields[1].rules[1] == Min(8) && fields[1].rules[2] == Max(72);
  }

  /** A one-character username is reported once, with the bound as written
      in the tag. */
  lemma ShortUsernameMessage(req: UserInput)
    requires |req.username| == 1 && 8 <= |req.password| <= 72
    ensures ValidateUser(req) == [FieldError("username", "min", "2")]
    ensures Aggregate(ValidateUser(req)) == map["username" := ["username" + " must be greater than " + "2"]]
  {
    assert NatToString(2) == "2";
    var fields := [Field("username", req.username, [Required, Min(2)]),
                   Field("password", req.password, [Required, Min(8), Max(72)])];
    assert FirstFailingRule(req.username, fields[0].rules) == Some(1);
    assert FirstFailingRule(req.password, fields[1].rules) == None;
    var e := FieldError("username", "min", "2");
    AggregateSingle(e);
    assert CheckTagRules(e) == "username" + " must be greater than " + "2";
    assert ValidateUser(req) == [e];
  }

  const DuplicateMessages := map["username" := ["this username is already in use"]]

  /** `createUser`: undecodable body 422 with the decoder's error; a `null`
      body leaves the input pointer nil and the handler panics on it; invalid
      input 422 with the field messages; a failed hash ends the process; a
      duplicate username 409; another store failure 500; otherwise 201 with
      the stored user. */
  function CreateUserHandler(input: Decoded<Option<UserInput>>, hash: string -> Result<string, Error>, svc: UserService)
    : (o: Outcome)
    ensures input.Undecodable? ==> o == Reply(ErrorResponse(StatusUnprocessableEntity, input.error), None)
    ensures o.Abort? <==> input == Decoded(None)
    ensures input.Decoded? && input.input.Some? && ValidateUser(input.input.value) != [] ==>
      o == Reply(ValidationError(FieldErrors(ValidateUser(input.input.value))), None)
    ensures o.Exit? <==>
      input.Decoded? && input.input.Some? && ValidateUser(input.input.value) == []
      && hash(input.input.value.password).Failure?
    ensures (o.Reply? && o.call.Some?) <==>
      input.Decoded? && input.input.Some? && ValidateUser(input.input.value) == []
      && hash(input.input.value.password).Success?
    ensures o.Reply? && o.call.Some? ==>
      var req := input.input.value;
      var u := User(0, req.username, hash(req.password).value, 0, 0, "");
      var r := svc.create(u);
      o.call == Some(CreateUserCall(u))
      && o.response == if r.Success? then WriteJson(StatusCreated, JObject(map["user" := UserJson(r.value)]))
                       else if Is(r.error, DuplicateUsername)
                       then ErrorResponse(StatusConflict, ErrorM(DuplicateMessages))
                       else ServerError(r.error)
    ensures o.Reply? && o.call.None? ==> o.response.status == StatusUnprocessableEntity
  {
    match input
    case Undecodable(err) => Reply(ErrorResponse(StatusUnprocessableEntity, err), None)
    case Decoded(None) => Abort
    case Decoded(Some(req)) =>
      var errs := ValidateUser(req);
      if errs != [] then Reply(ValidationError(FieldErrors(errs)), None)
      else
        match hash(req.password)
        case Failure(_) => Exit
        case Success(h) =>
          var u := User(0, req.username, h, 0, 0, "");
          match svc.create(u)
          case Success(created) => Reply(WriteJson(StatusCreated, JObject(map["user" := UserJson(created)])), Some(CreateUserCall(u)))
          case Failure(e) =>
            if Is(e, DuplicateUsername) then Reply(ErrorResponse(StatusConflict, ErrorM(DuplicateMessages)), Some(CreateUserCall(u)))
            else Reply(ServerError(e), Some(CreateUserCall(u)))
  }

  /** Registration never stores the plain password: the user handed to the
      store carries the hash of the password and an empty token. */
  lemma CreateUserStoresHash(input: Decoded<Option<UserInput>>, hash: string -> Result<string, Error>, svc: UserService)
    ensures var o := CreateUserHandler(input, hash, svc);
      o.Reply? && o.call.Some? ==>
        o.call.value.user.passwordHash == hash(input.input.value.password).value
        && o.call.value.user.username == input.input.value.username && o.call.value.user.token == ""
  {
  }

  /** The registration store of the persistence model, as a service function. */
  function StoreCreate(insert: seq<Arg> -> Result<InsertedRow, Error>): User -> Result<User, Error> {
    u => CreateUser(insert, u)
  }

  /** A unique violation from the driver becomes the 409 reply. */
  lemma DuplicateInsertIsConflict(req: UserInput, hash: string -> Result<string, Error>, svc: UserService,
                                  insert: seq<Arg> -> Result<InsertedRow, Error>)
    requires svc.create == StoreCreate(insert)
    requires ValidateUser(req) == [] && hash(req.password).Success?
    requires insert(CreateUserArgs(User(0, req.username, hash(req.password).value, 0, 0, "")))
             == Failure(Other(UniqueViolation))
    ensures CreateUserHandler(Decoded(Some(req)), hash, svc).Reply?
    ensures CreateUserHandler(Decoded(Some(req)), hash, svc).response == ErrorResponse(StatusConflict, ErrorM(DuplicateMessages))
  {
    var u := User(0, req.username, hash(req.password).value, 0, 0, "");
    assert svc.create(u) == CreateUser(insert, u);
  }

  // ---------------------------------------------------------------------
  // loginUser

  /** The body of a login request. */
  datatype LoginInput = LoginInput(username: string, password: string)

  /** `loginUser`: undecodable body 422; any authentication failure, and an
      answer without a user, one uniform 401; a signing failure 500;
      otherwise 200 with the user and the fresh token. */
  function LoginHandler(input: Decoded<LoginInput>, svc: UserService, sign: User -> Result<string, Error>)
    : (o: Outcome)
    ensures o.Reply? && o.call.None?
    ensures input.Undecodable? ==> o.response == ErrorResponse(StatusUnprocessableEntity, input.error)
    ensures input.Decoded? && svc.authenticate(input.input.username, input.input.password).Failure? ==>
      o.response == InvalidUserCredentials()
    ensures input.Decoded? && svc.authenticate(input.input.username, input.input.password) == Success(None) ==>
      o.response == InvalidUserCredentials()
    ensures input.Decoded? && svc.authenticate(input.input.username, input.input.password).Success?
                           && svc.authenticate(input.input.username, input.input.password).value.Some? ==>
      var u := svc.authenticate(input.input.username, input.input.password).value.value;
      o.response == match sign(u)
                    case Failure(e) => ServerError(e)
                    case Success(t) => WriteJson(StatusOK, JObject(map["user" := UserJson(u.(token := t))]))
  {
    match input
    case Undecodable(err) => Reply(ErrorResponse(StatusUnprocessableEntity, err), None)
    case Decoded(req) =>
      match svc.authenticate(req.username, req.password)
      case Failure(_) => Reply(InvalidUserCredentials(), None)
      case Success(None) => Reply(InvalidUserCredentials(), None)
      case Success(Some(u)) =>
        match sign(u)
        case Failure(e) => Reply(ServerError(e), None)
        case Success(t) => Reply(WriteJson(StatusOK, JObject(map["user" := UserJson(u.(token := t))])), None)
  }

  /** The authentication of the persistence model, as a service function:
      a success always carries the user. */
  function StoreAuthenticate(db: UsersRead, verify: (User, string) -> bool): (string, string) -> Result<Option<User>, Error> {
    (name, password) => match Authenticate(db, verify, name, password)
                        case Failure(e) => Failure(e)
                        case Success(u) => Success(Some(u))
  }

  /** Login does not tell an unknown username from a wrong password: against
      the persistence model, both get the same 401 reply. */
  lemma LoginHidesCause(name: string, password: string, svc: UserService, sign: User -> Result<string, Error>,
                        db: UsersRead, verify: (User, string) -> bool)
    requires svc.authenticate == StoreAuthenticate(db, verify)
    requires UserByUsername(db, name) == Failure(NotFound)
          || (UserByUsername(db, name).Success? && !verify(UserByUsername(db, name).value, password))
    ensures LoginHandler(Decoded(LoginInput(name, password)), svc, sign) == Reply(InvalidUserCredentials(), None)
  {
    assert svc.authenticate(name, password) == Failure(Authenticate(db, verify, name, password).error);
  }

  // ---------------------------------------------------------------------
  // getCurrentUser and updateUser

  /** `getCurrentUser`: 200 with the context user and the context token. */
  function GetCurrentUserHandler(user: User, token: string): (o: Outcome)
    ensures o.Reply? && o.call.None? && o.response.status == StatusOK
    ensures o.response.body == Some(JObject(map["user" := UserJson(user.(token := token))]))
  {
    Reply(WriteJson(StatusOK, JObject(map["user" := UserJson(user.(token := token))])), None)
  }

  /** The body of a profile update: each field optional. */
  datatype UserUpdateInput = UserUpdateInput(username: Option<string>, password: Option<string>)

  /** `updateUser`: undecodable body 400; a `null` body leaves the input
      pointer nil and the handler panics on it; a new password is hashed
      straight into the user (a failed hash ends the process); the patch
      carries only the username; store failure 500; otherwise 200 with the
      updated user and the context token. */
  function UpdateUserHandler(input: Decoded<Option<UserUpdateInput>>, user: User, token: string,
                             hash: string -> Result<string, Error>, svc: UserService): (o: Outcome)
    ensures input.Undecodable? ==> o == Reply(BadRequest(), None)
    ensures o.Abort? <==> input == Decoded(None)
    ensures o.Exit? <==>
      input.Decoded? && input.input.Some? && input.input.value.password.Some?
      && hash(input.input.value.password.value).Failure?
    ensures o.Reply? && input.Decoded? && input.input.Some? ==>
      var req := input.input.value;
      var subject := if req.password.Some? then user.(passwordHash := hash(req.password.value).value) else user;
      var patch := UserPatch(req.username, None);
      var r := svc.update(subject, patch);
      o.call == Some(UpdateUserCall(subject, patch))
      && o.response == if r.Success? then WriteJson(StatusOK, JObject(map["user" := UserJson(r.value.(token := token))]))
                       else ServerError(r.error)
  {
    match input
    case Undecodable(_) => Reply(BadRequest(), None)
    case Decoded(None) => Abort
    case Decoded(Some(req)) =>
      var patch := UserPatch(req.username, None);
      var hashed := if req.password.Some? then hash(req.password.value) else Success(user.passwordHash);
      match hashed
      case Failure(_) => Exit
      case Success(h) =>
        var subject := user.(passwordHash := h);
        match svc.update(subject, patch)
        case Failure(e) => Reply(ServerError(e), Some(UpdateUserCall(subject, patch)))
        case Success(u) => Reply(WriteJson(StatusOK, JObject(map["user" := UserJson(u.(token := token))])), Some(UpdateUserCall(subject, patch)))
  }

  // ---------------------------------------------------------------------
  // A `null` request body

  /** As written, registration and profile update both panic on a `null`
      body, so the client gets no reply at all. */
  lemma NullBodyGetsNoReply(user: User, token: string, hash: string -> Result<string, Error>, svc: UserService)
    ensures CreateUserHandler(Decoded(None), hash, svc) == Abort
    ensures UpdateUserHandler(Decoded(None), user, token, hash, svc) == Abort
  {
  }

  /** The decoding the other handlers use: into a struct value, where a
      `null` body leaves the zero value. */
  function NilAsZero<T>(input: Decoded<Option<T>>, zero: T): (d: Decoded<Option<T>>)
    ensures d.Undecodable? <==> input.Undecodable?
    ensures d.Decoded? ==> d.input.Some?
    ensures input.Decoded? && input.input.Some? ==> d == input
  {
    match input
    case Decoded(None) => Decoded(Some(zero))
    case _ => input
  }

  /** Registration with `null` read as the empty object. */
  function CreateUserHandlerNilSafe(input: Decoded<Option<UserInput>>, hash: string -> Result<string, Error>,
                                    svc: UserService): (o: Outcome)
    ensures !o.Abort?
    ensures input != Decoded(None) ==> o == CreateUserHandler(input, hash, svc)
  {
    CreateUserHandler(NilAsZero(input, UserInput("", "")), hash, svc)
  }

  /** The empty registration fails the required tag of both fields. */
  lemma EmptyRegistrationErrors()
    ensures ValidateUser(UserInput("", "")) == [FieldError("username", "required", ""), FieldError("password", "required", "")]
  {
    var fields := [Field("username", "", [Required, Min(2)]),
                   Field("password", "", [Required, Min(8), Max(72)])];
    assert FirstFailingRule("", fields[0].rules) == Some(0);
    assert FirstFailingRule("", fields[1].rules) == Some(0);
    assert ValidateFields(fields[1..]) == [FieldError("password", "required", "")];
  }

  /** With `null` read as the empty object, a `null` registration is an
      ordinary 422 naming both required fields, and nothing is stored. */
  lemma NilSafeRegistrationIsInvalid(hash: string -> Result<string, Error>, svc: UserService)
    ensures CreateUserHandlerNilSafe(Decoded(None), hash, svc) ==
      Reply(ValidationError(FieldErrors([FieldError("username", "required", ""), FieldError("password", "required", "")])), None)
  {
    EmptyRegistrationErrors();
  }

  /** Profile update with `null` read as the empty object. */
  function UpdateUserHandlerNilSafe(input: Decoded<Option<UserUpdateInput>>, user: User, token: string,
                                    hash: string -> Result<string, Error>, svc: UserService): (o: Outcome)
    ensures !o.Abort?
    ensures input != Decoded(None) ==> o == UpdateUserHandler(input, user, token, hash, svc)
  {
    UpdateUserHandler(NilAsZero(input, UserUpdateInput(None, None)), user, token, hash, svc)
  }

  /** With `null` read as the empty object, a `null` profile update asks the
      store to write the user unchanged and replies 200 or 500. */
  lemma NilSafeUpdateChangesNothing(user: User, token: string, hash: string -> Result<string, Error>, svc: UserService)
    ensures var o := UpdateUserHandlerNilSafe(Decoded(None), user, token, hash, svc);
      && o.Reply?
      && o.call == Some(UpdateUserCall(user, UserPatch(None, None)))
      && o.response.status in {StatusOK, StatusInternalServerError}
  {
    ServerErrorStatus();
  }

  /** The profile update of the persistence model, as a service function. */
  function StoreUpdate(begin: Option<Error>, write: seq<Arg> -> Result<nat, Error>, commit: Option<Error>)
    : (User, UserPatch) -> Result<User, Error>
  {
    (u, p) => UpdateUser(begin, write, commit, u, p)
  }

  /** Against the persistence model, a successful profile update stores the
      new username (when given) and the hash of the new password (when
      given), keeping the rest of the user's credentials. */
  lemma UpdateUserStores(req: UserUpdateInput, user: User, token: string,
                         hash: string -> Result<string, Error>, svc: UserService,
                         begin: Option<Error>, write: seq<Arg> -> Result<nat, Error>, commit: Option<Error>)
    requires svc.update == StoreUpdate(begin, write, commit)
    requires req.password.Some? ==> hash(req.password.value).Success?
    ensures var o := UpdateUserHandler(Decoded(Some(req)), user, token, hash, svc);
      var stored := UpdateUserArgs(user.(username := req.username.GetOr(user.username),
                                         passwordHash := if req.password.Some? then hash(req.password.value).value
                                                         else user.passwordHash));
      o.Reply? && (o.response.status == StatusOK ==> write(stored).Success?)
  {
    var subject := if req.password.Some? then user.(passwordHash := hash(req.password.value).value) else user;
    var patch := UserPatch(req.username, None);
    assert svc.update(subject, patch) == UpdateUser(begin, write, commit, subject, patch);
    ServerErrorStatus();
    assert ApplyUserPatch(subject, patch) == user.(username := req.username.GetOr(user.username),
                                                  passwordHash := subject.passwordHash);
  }
}
