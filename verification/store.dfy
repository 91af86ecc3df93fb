/** The persistence services of postgres/user.go and postgres/article.go on
    top of the statement builders. The database is a parameter: a read is a
    function from a statement and its arguments to the rows it returns or the
    driver's error; a write is a function from the argument list to what the
    statement's RETURNING clause yields. Transactions are not modelled. */
module Store {
  import opened Wrappers
  import opened Text
  import opened Model
  import opened Sql

  /** A read statement against the users or the articles table. */
  type UsersRead = (string, seq<Arg>) -> Result<seq<User>, Error>
  type ArticlesRead = (string, seq<Arg>) -> Result<seq<Article>, Error>

  // ---------------------------------------------------------------------
  // Error texts

  /** The text `err.Error()` yields. The sentinels carry the messages of
      model/errors.go; a wrapped error prints its context, ": " and its cause. */
  function ErrorText(e: Error): string
    decreases e
  {
    match e
    case DuplicateUsername => "duplicate username"
    case UnAuthorized => "unauthorized"
    case NotFound => "record not found"
    case Internal => "internal error"
    case Other(m) => m
    case Wrapped(c, cause) => c + ": " + ErrorText(cause)
  }

  /** The driver's message for an insert that collides with an existing username. */
  const UniqueViolation := "pq: duplicate key value violates unique constraint \"users_username_key\""

  /** `createUser`'s error mapping: only an error whose text is exactly the
      username unique-violation message becomes the duplicate-username sentinel. */
  function CreateUserError(e: Error): (r: Error)
    ensures ErrorText(e) == UniqueViolation ==> r == DuplicateUsername
    ensures ErrorText(e) != UniqueViolation ==> r == e
  {
    if ErrorText(e) == UniqueViolation then DuplicateUsername else e
  }

  /** The mapping recognises nothing but the exact message: an error reports
      a duplicate username afterwards exactly when its text was the message
      or it already was the sentinel. */
  lemma CreateUserErrorExact(e: Error)
    ensures CreateUserError(e) == DuplicateUsername
        <==> (ErrorText(e) == UniqueViolation || e == DuplicateUsername)
    ensures e.Other? && e.message != UniqueViolation ==> CreateUserError(e) == e
  {
  }

  // ---------------------------------------------------------------------
  // Lookups

  /** The first row of a read: the read's error unchanged, the not-found
      sentinel when it returned no rows, otherwise its first row. */
  function FirstRow<T>(rows: Result<seq<T>, Error>): (r: Result<T, Error>)
    ensures r.Success? <==> rows.Success? && |rows.value| > 0
    ensures r.Success? ==> r.value == rows.value[0]
    ensures rows.Failure? ==> r == Failure(rows.error)
    ensures rows.Success? && |rows.value| == 0 ==> r == Failure(NotFound)
  {
    match rows
    case Failure(e) => Failure(e)
    case Success(rs) => if |rs| == 0 then Failure(NotFound) else Success(rs[0])
  }

  /** `findUsers`: the statement as written, with its arguments, sent to the
      database. Without paging that is the base statement, which is also the
      corrected one (`UsersQueriesAgree`). */
  function FindUsers(db: UsersRead, f: UserFilter): (r: Result<seq<User>, Error>)
    ensures f.limit <= 0 && f.offset <= 0 ==> r == db(UsersBaseQuery(f), UserWhere(f).args)
  {
    var r := db(UsersQueryAsWritten(f), UserWhere(f).args);
    if f.limit <= 0 && f.offset <= 0 then UsersQueriesAgree(f); r else r
  }

  /** `findOneUser`. */
  function FindOneUser(db: UsersRead, f: UserFilter): (r: Result<User, Error>)
    ensures r.Success? <==> FindUsers(db, f).Success? && |FindUsers(db, f).value| > 0
    ensures r.Success? ==> r.value == FindUsers(db, f).value[0]
    ensures FindUsers(db, f).Failure? ==> r == Failure(FindUsers(db, f).error)
    ensures FindUsers(db, f).Success? && |FindUsers(db, f).value| == 0 ==> r == Failure(NotFound)
  {
    FirstRow(FindUsers(db, f))
  }

  /** `UserByUsername`: the lookup with only the username set, which sends
      one predicate on the username bound to the name. */
  function UserByUsername(db: UsersRead, name: string): (r: Result<User, Error>)
    ensures r == FirstRow(db(SelectUsers([Clause(UsernameColumn, 1)]), [TextArg(name)]))
  {
    UsernameWhere(name);
    FindOneUser(db, UsernameFilter(name))
  }

  /** `findUserByID`: the lookup with only the id set, which sends one
      predicate on the id bound to it. */
  function FindUserByID(db: UsersRead, id: nat): (r: Result<User, Error>)
    ensures r == FirstRow(db(SelectUsers([Clause(IdColumn, 1)]), [UintArg(id)]))
  {
    IdWhere(id);
    FindOneUser(db, IdFilter(id))
  }

  /** A read answered faithfully: its rows are exactly the rows of `table`
      that pass every emitted predicate (in any order). */
  ghost predicate AnswersUsers(rows: seq<User>, table: seq<User>, w: Where) {
    forall u :: u in rows <==> u in table && Satisfies(w, UserHolds(u))
  }

  /** Against a faithful database, the username lookup finds a stored user
      with that name exactly when there is one, and reports not-found otherwise. */
  lemma UserByUsernameMeaning(db: UsersRead, table: seq<User>, name: string)
    requires FindUsers(db, UsernameFilter(name)).Success?
    requires AnswersUsers(FindUsers(db, UsernameFilter(name)).value, table, UserWhere(UsernameFilter(name)))
    ensures UserByUsername(db, name).Success? <==> exists u :: u in table && u.username == name
    ensures UserByUsername(db, name).Success? ==>
      UserByUsername(db, name).value in table && UserByUsername(db, name).value.username == name
    ensures UserByUsername(db, name).Failure? ==> UserByUsername(db, name).error == NotFound
  {
    var f := UsernameFilter(name);
    var rows := FindUsers(db, f).value;
    forall u | u in table
      ensures Satisfies(UserWhere(f), UserHolds(u)) <==> u.username == name
    {
      UserWhereMeaning(u, f);
    }
    if exists u :: u in table && u.username == name {
      var u :| u in table && u.username == name;
      assert u in rows;
    }
    if |rows| > 0 {
      assert rows[0] in rows;
    }
  }

  /** Against a faithful database, the id lookup finds the stored user with
      that id exactly when there is one. */
  lemma FindUserByIDMeaning(db: UsersRead, table: seq<User>, id: nat)
    requires FindUsers(db, IdFilter(id)).Success?
    requires AnswersUsers(FindUsers(db, IdFilter(id)).value, table, UserWhere(IdFilter(id)))
    ensures FindUserByID(db, id).Success? <==> exists u :: u in table && u.id == id
    ensures FindUserByID(db, id).Success? ==>
      FindUserByID(db, id).value in table && FindUserByID(db, id).value.id == id
    ensures FindUserByID(db, id).Failure? ==> FindUserByID(db, id).error == NotFound
  {
    var f := IdFilter(id);
    var rows := FindUsers(db, f).value;
    forall u | u in table
      ensures Satisfies(UserWhere(f), UserHolds(u)) <==> u.id == id
    {
      UserWhereMeaning(u, f);
    }
    if exists u :: u in table && u.id == id {
      var u :| u in table && u.id == id;
      assert u in rows;
    }
    if |rows| > 0 {
      assert rows[0] in rows;
    }
  }

  // ---------------------------------------------------------------------
  // Authentication

  /** `Authenticate`: the lookup's error unchanged, the unauthorized sentinel
      when the password does not verify against the stored user, otherwise
      the user. Password verification is a parameter. */
  function Authenticate(db: UsersRead, verify: (User, string) -> bool, name: string, password: string)
    : (r: Result<User, Error>)
    ensures UserByUsername(db, name).Failure? ==> r == UserByUsername(db, name)
    ensures UserByUsername(db, name).Success? && !verify(UserByUsername(db, name).value, password)
      ==> r == Failure(UnAuthorized)
    ensures r.Success? <==> UserByUsername(db, name).Success? && verify(UserByUsername(db, name).value, password)
    ensures r.Success? ==> r.value == UserByUsername(db, name).value
  {
    match UserByUsername(db, name)
    case Failure(e) => Failure(e)
    case Success(u) => if verify(u, password) then Success(u) else Failure(UnAuthorized)
  }

  /** Against a faithful database, authentication succeeds exactly when the
      table holds a user with that name whose hash verifies, and then yields
      that user; an unknown name is reported as not-found, a wrong password
      as unauthorized. */
  lemma AuthenticateMeaning(db: UsersRead, verify: (User, string) -> bool, table: seq<User>, name: string, password: string)
    requires FindUsers(db, UsernameFilter(name)).Success?
    requires AnswersUsers(FindUsers(db, UsernameFilter(name)).value, table, UserWhere(UsernameFilter(name)))
    ensures var r := Authenticate(db, verify, name, password);
      (r.Success? ==> r.value in table && r.value.username == name && verify(r.value, password))
      && ((forall u :: u in table ==> u.username != name) ==> r == Failure(NotFound))
      && (r.Failure? && r.error != NotFound ==> r.error == UnAuthorized)
  {
    UserByUsernameMeaning(db, table, name);
  }

  // ---------------------------------------------------------------------
  // Inserts

  /** The arguments `createUser` binds to (username, password_hash). */
  function CreateUserArgs(u: User): seq<Arg> {
    [TextArg(u.username), TextArg(u.passwordHash)]
  }

  /** `createUser`: on success the user gets the id and timestamps the insert
      returned and keeps everything else; a failure goes through the
      duplicate-username mapping. */
  function CreateUser(insert: seq<Arg> -> Result<InsertedRow, Error>, u: User): (r: Result<User, Error>)
    ensures r.Success? <==> insert(CreateUserArgs(u)).Success?
    ensures r.Failure? ==> r.error == CreateUserError(insert(CreateUserArgs(u)).error)
  {
    match insert(CreateUserArgs(u))
    case Failure(e) => Failure(CreateUserError(e))
    case Success(row) => Success(u.(id := row.id, createdAt := row.createdAt, updatedAt := row.updatedAt))
  }

  /** The users row an insert with `args` and `RETURNING` values `row` leaves
      in the table (`None` for arguments of the wrong shape). */
  function StoredUser(args: seq<Arg>, row: InsertedRow): Option<User> {
    if |args| == 2 && args[0].TextArg? && args[1].TextArg?
    then Some(User(row.id, args[0].s, args[1].s, row.createdAt, row.updatedAt, ""))
    else None
  }

  /** The user `createUser` hands back is the row it stored (apart from the
      never-stored token): username and hash reach their columns and the
      generated columns come back into the user. */
  lemma CreateUserStoresUser(insert: seq<Arg> -> Result<InsertedRow, Error>, u: User)
    requires insert(CreateUserArgs(u)).Success?
    ensures StoredUser(CreateUserArgs(u), insert(CreateUserArgs(u)).value)
         == Some(CreateUser(insert, u).value.(token := ""))
  {
  }

  /** The arguments `createArticle` binds to (title, body, author_id, slug). */
  function CreateArticleArgs(a: Article): seq<Arg> {
    [TextArg(a.title), TextArg(a.body), UintArg(a.authorId), TextArg(a.slug)]
  }

  /** `createArticle`: a failure passes through; on success the article gets
      the returned id and timestamps. */
  function CreateArticle(insert: seq<Arg> -> Result<InsertedRow, Error>, a: Article): (r: Result<Article, Error>)
    ensures r.Success? <==> insert(CreateArticleArgs(a)).Success?
    ensures r.Failure? ==> r.error == insert(CreateArticleArgs(a)).error
  {
    match insert(CreateArticleArgs(a))
    case Failure(e) => Failure(e)
    case Success(row) => Success(a.(id := row.id, createdAt := row.createdAt, updatedAt := row.updatedAt))
  }

  /** The articles row an insert with `args` and `RETURNING` values `row`
      leaves in the table. */
  function StoredArticle(args: seq<Arg>, row: InsertedRow): Option<Article> {
    if |args| == 4 && args[0].TextArg? && args[1].TextArg? && args[2].UintArg? && args[3].TextArg?
    then Some(Article(row.id, args[0].s, args[1].s, args[3].s, args[2].n, None, row.createdAt, row.updatedAt))
    else None
  }

  /** Each field reaches its own column: the stored row is the article handed
      back, apart from the author association that is not a column. */
  lemma CreateArticleStoresArticle(insert: seq<Arg> -> Result<InsertedRow, Error>, a: Article)
    requires insert(CreateArticleArgs(a)).Success?
    ensures StoredArticle(CreateArticleArgs(a), insert(CreateArticleArgs(a)).value)
         == Some(CreateArticle(insert, a).value.(author := None))
  {
  }

  // ---------------------------------------------------------------------
  // Article reads

  const AuthorContext := "cannot find article author"

  /** A lookup of users by id. */
  type UserLookup = nat -> Result<User, Error>

  /** The lookup `attachArticleAssociation` performs: `findUserByID`. */
  function ById(db: UsersRead): UserLookup {
    (id: nat) => FindUserByID(db, id)
  }

  /** Whether the author of `a` can be looked up. */
  predicate AuthorFound(lookup: UserLookup, a: Article) {
    lookup(a.authorId).Success?
  }

  /** The position of the first article whose author lookup fails (the
      length when every lookup succeeds). */
  function FirstFailing(articles: seq<Article>, lookup: UserLookup): (i: nat)
    ensures i <= |articles|
    ensures forall j :: 0 <= j < i ==> AuthorFound(lookup, articles[j])
    ensures i < |articles| ==> !AuthorFound(lookup, articles[i])
    decreases |articles|
  {
    if |articles| == 0 then 0
    else if !AuthorFound(lookup, articles[0]) then 0
    else
      var k := FirstFailing(articles[1..], lookup);
      assert forall j :: 1 <= j < |articles| ==> articles[j] == articles[1..][j - 1];
      k + 1
  }

  /** `attachArticleAssociation` over a list: each article's author is looked
      up by its author id; the first failed lookup fails the whole list with
      its error wrapped. */
  function AttachAuthors(articles: seq<Article>, lookup: UserLookup): (r: Result<seq<Article>, Error>)
    ensures r.Success? <==> forall i :: 0 <= i < |articles| ==> AuthorFound(lookup, articles[i])
    ensures r.Success? ==> |r.value| == |articles|
    ensures r.Success? ==> forall i :: 0 <= i < |articles| ==>
      r.value[i] == articles[i].(author := Some(lookup(articles[i].authorId).value))
    ensures r.Failure? ==> FirstFailing(articles, lookup) < |articles|
    ensures r.Failure? ==>
      r.error == Wrapped(AuthorContext, lookup(articles[FirstFailing(articles, lookup)].authorId).error)
    decreases |articles|
  {
    if |articles| == 0 then Success([])
    else
      match lookup(articles[0].authorId)
      case Failure(e) => Failure(Wrapped(AuthorContext, e))
      case Success(u) =>
        var rest := AttachAuthors(articles[1..], lookup);
        assert forall i :: 1 <= i < |articles| ==> articles[i] == articles[1..][i - 1];
        if rest.Failure? then Failure(rest.error)
        else Success([articles[0].(author := Some(u))] + rest.value)
  }

  /** The read `findArticles` sends for a filter. */
  function ArticleRead(articlesDb: ArticlesRead, f: ArticleFilter): Result<seq<Article>, Error> {
    articlesDb(ArticlesQuery(f), ArticleWhere(f).args)
  }

  /** `Articles` / `findArticles`: the read's error unchanged, otherwise the
      rows with their authors attached. */
  function Articles(articlesDb: ArticlesRead, usersDb: UsersRead, f: ArticleFilter): (r: Result<seq<Article>, Error>)
    ensures ArticleRead(articlesDb, f).Failure? ==> r == Failure(ArticleRead(articlesDb, f).error)
    ensures ArticleRead(articlesDb, f).Success? ==> r == AttachAuthors(ArticleRead(articlesDb, f).value, ById(usersDb))
  {
    match ArticleRead(articlesDb, f)
    case Failure(e) => Failure(e)
    case Success(rows) => AttachAuthors(rows, ById(usersDb))
  }

  /** `findArticleBySlug` / `ArticleBySlug`: the first article of the
      slug-only read, not-found when there is none. */
  function ArticleBySlug(articlesDb: ArticlesRead, usersDb: UsersRead, slug: string): (r: Result<Article, Error>)
    ensures var read := ArticleRead(articlesDb, SlugFilter(slug));
      read.Failure? ==> r == Failure(read.error)
    ensures var read := ArticleRead(articlesDb, SlugFilter(slug));
      read.Success? && |read.value| == 0 ==> r == Failure(NotFound)
    ensures var read := ArticleRead(articlesDb, SlugFilter(slug));
      r.Success? <==>
        (read.Success? && |read.value| > 0 &&
         forall i :: 0 <= i < |read.value| ==> AuthorFound(ById(usersDb), read.value[i]))
    ensures var read := ArticleRead(articlesDb, SlugFilter(slug));
      r.Success? ==> r.value == read.value[0].(author := Some(FindUserByID(usersDb, read.value[0].authorId).value))
    ensures var read := ArticleRead(articlesDb, SlugFilter(slug));
      read.Success? && FirstFailing(read.value, ById(usersDb)) < |read.value| ==>
        r == Failure(Wrapped(AuthorContext, FindUserByID(usersDb, read.value[FirstFailing(read.value, ById(usersDb))].authorId).error))
  {
    FirstRow(Articles(articlesDb, usersDb, SlugFilter(slug)))
  }

  /** When the slug read returns rows and the first author lookup that fails
      found no user, the slug lookup reports an error that is the not-found
      sentinel once unwrapped: to its callers the article looks missing. */
  lemma MissingAuthorLooksNotFound(articlesDb: ArticlesRead, usersDb: UsersRead, slug: string)
    requires ArticleRead(articlesDb, SlugFilter(slug)).Success?
    requires var rows := ArticleRead(articlesDb, SlugFilter(slug)).value;
      var i := FirstFailing(rows, ById(usersDb));
      i < |rows| && FindUserByID(usersDb, rows[i].authorId).error == NotFound
    ensures ArticleBySlug(articlesDb, usersDb, slug).Failure?
    ensures Is(ArticleBySlug(articlesDb, usersDb, slug).error, NotFound)
  {
  }

  // ---------------------------------------------------------------------
  // Updates

  /** `updateArticle`'s in-memory overwrite: body, then title, each only when
      the patch sets it. The patch's slug is ignored. */
  function ApplyArticlePatch(a: Article, p: ArticlePatch): (r: Article)
    ensures r.body == p.body.GetOr(a.body)
    ensures r.title == p.title.GetOr(a.title)
    ensures r.(title := a.title, body := a.body) == a
  {
    var withBody := if p.body.Some? then a.(body := p.body.value) else a;
    if p.title.Some? then withBody.(title := p.title.value) else withBody
  }

  /** Applying a patch twice is applying it once; an empty patch changes nothing. */
  lemma ArticlePatchIdempotent(a: Article, p: ArticlePatch)
    ensures ApplyArticlePatch(ApplyArticlePatch(a, p), p) == ApplyArticlePatch(a, p)
    ensures ApplyArticlePatch(a, ArticlePatch(None, None, p.slug)) == a
  {
  }

  /** Two patches in a row amount to one whose set fields are the second's,
      falling back to the first's. */
  lemma ArticlePatchCompose(a: Article, p: ArticlePatch, q: ArticlePatch)
    ensures ApplyArticlePatch(ApplyArticlePatch(a, p), q)
         == ApplyArticlePatch(a, ArticlePatch(Or(q.title, p.title), Or(q.body, p.body), None))
  {
  }

  /** The first option when it is set, else the second. */
  function Or<T>(x: Option<T>, y: Option<T>): Option<T> {
    if x.Some? then x else y
  }

  /** The arguments `updateArticle` binds to (body, title, id). */
  function UpdateArticleArgs(a: Article): seq<Arg> {
    [TextArg(a.body), TextArg(a.title), UintArg(a.id)]
  }

  /** `updateArticle`: the patched article is written; any failure of the
      write becomes the internal-error sentinel, a success stamps the
      returned update time. */
  function UpdateArticle(write: seq<Arg> -> Result<nat, Error>, a: Article, p: ArticlePatch): (r: Result<Article, Error>)
    ensures var sent := UpdateArticleArgs(ApplyArticlePatch(a, p));
      (r.Success? <==> write(sent).Success?)
      && (r.Failure? ==> r.error == Internal)
      && (r.Success? ==> r.value == ApplyArticlePatch(a, p).(updatedAt := write(sent).value))
  {
    var patched := ApplyArticlePatch(a, p);
    match write(UpdateArticleArgs(patched))
    case Failure(_) => Failure(Internal)
    case Success(t) => Success(patched.(updatedAt := t))
  }

  /** An update never moves an article: id, slug, author and creation time
      are those of the article it was given. */
  lemma UpdateArticleKeepsIdentity(write: seq<Arg> -> Result<nat, Error>, a: Article, p: ArticlePatch)
    requires UpdateArticle(write, a, p).Success?
    ensures var b := UpdateArticle(write, a, p).value;
      b.id == a.id && b.slug == a.slug && b.authorId == a.authorId && b.author == a.author
      && b.createdAt == a.createdAt
    ensures UpdateArticleArgs(UpdateArticle(write, a, p).value)[2] == UintArg(a.id)
  {
  }

  /** `updateUser`'s in-memory overwrite: username, then password hash, each
      only when the patch sets it. */
  function ApplyUserPatch(u: User, p: UserPatch): (r: User)
    ensures r.username == p.username.GetOr(u.username)
    ensures r.passwordHash == p.passwordHash.GetOr(u.passwordHash)
    ensures r.(username := u.username, passwordHash := u.passwordHash) == u
  {
    var withName := if p.username.Some? then u.(username := p.username.value) else u;
    if p.passwordHash.Some? then withName.(passwordHash := p.passwordHash.value) else withName
  }

  lemma UserPatchIdempotent(u: User, p: UserPatch)
    ensures ApplyUserPatch(ApplyUserPatch(u, p), p) == ApplyUserPatch(u, p)
    ensures ApplyUserPatch(u, UserPatch(None, None)) == u
  {
  }

  /** The arguments `updateUser` binds to (username, password_hash, id). */
  function UpdateUserArgs(u: User): seq<Arg> {
    [TextArg(u.username), TextArg(u.passwordHash), UintArg(u.id)]
  }

  /** `UpdateUser`: a failure to begin, to write or to commit is reported as
      the internal-error sentinel; otherwise the patched user with the
      returned update time. */
  function UpdateUser(begin: Option<Error>, write: seq<Arg> -> Result<nat, Error>, commit: Option<Error>, u: User, p: UserPatch)
    : (r: Result<User, Error>)
    ensures var sent := UpdateUserArgs(ApplyUserPatch(u, p));
      (r.Success? <==> begin.None? && write(sent).Success? && commit.None?)
      && (r.Failure? ==> r.error == Internal)
      && (r.Success? ==> r.value == ApplyUserPatch(u, p).(updatedAt := write(sent).value))
  {
    if begin.Some? then Failure(Internal)
    else
      var patched := ApplyUserPatch(u, p);
      match write(UpdateUserArgs(patched))
      case Failure(_) => Failure(Internal)
      case Success(t) => if commit.Some? then Failure(Internal) else Success(patched.(updatedAt := t))
  }

  /** An update keeps the user's id and creation time and writes to that id. */
  lemma UpdateUserKeepsIdentity(begin: Option<Error>, write: seq<Arg> -> Result<nat, Error>, commit: Option<Error>, u: User, p: UserPatch)
    requires UpdateUser(begin, write, commit, u, p).Success?
    ensures var v := UpdateUser(begin, write, commit, u, p).value;
      v.id == u.id && v.createdAt == u.createdAt && v.token == u.token
    ensures UpdateUserArgs(ApplyUserPatch(u, p))[2] == UintArg(u.id)
  {
  }
}
