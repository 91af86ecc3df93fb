/** The entities of the blog service (model/user.go, model/article.go,
    model/errors.go) as immutable values. Go's nullable pointer fields become
    `Option`s, `uint` identifiers and timestamps become `nat` (identifiers
    assigned by the database; instants as opaque numbers). */
module Model {
  import opened Wrappers

  /** A registered user. `token` is the transient bearer token a handler
      attaches before replying; it is never stored. */
  datatype User = User(
    id: nat,
    username: string,
    passwordHash: string,
    createdAt: nat,
    updatedAt: nat,
    token: string)

  /** An article; `author` is filled in after loading, from `authorId`. */
  datatype Article = Article(
    id: nat,
    title: string,
    body: string,
    slug: string,
    authorId: nat,
    author: Option<User>,
    createdAt: nat,
    updatedAt: nat)

  /** Optional conjunctive query over articles plus paging. */
  datatype ArticleFilter = ArticleFilter(
    id: Option<nat>,
    title: Option<string>,
    authorId: Option<nat>,
    authorUsername: Option<string>,
    slug: Option<string>,
    limit: int,
    offset: int)

  /** Optional conjunctive query over users plus paging. */
  datatype UserFilter = UserFilter(
    id: Option<nat>,
    username: Option<string>,
    limit: int,
    offset: int)

  /** Partial article update: only `Some` fields are meant to overwrite. */
  datatype ArticlePatch = ArticlePatch(title: Option<string>, body: Option<string>, slug: Option<string>)

  /** Partial user update. */
  datatype UserPatch = UserPatch(username: Option<string>, passwordHash: Option<string>)

  /** The columns an INSERT ... RETURNING hands back. */
  datatype InsertedRow = InsertedRow(id: nat, createdAt: nat, updatedAt: nat)

  /** The filters with every field unset. */
  const NoArticleFilter := ArticleFilter(None, None, None, None, None, 0, 0)
  const NoUserFilter := UserFilter(None, None, 0, 0)

  /** Errors the service distinguishes. The sentinels of model/errors.go (plus
      the internal-error sentinel the persistence layer returns), any other
      error carrying its text (database driver, token library, decoder), and
      an error wrapped with context by `fmt.Errorf("...: %w", err)`. */
  datatype Error =
    | DuplicateUsername
    | UnAuthorized
    | NotFound
    | Internal
    | Other(message: string)
    | Wrapped(context: string, cause: Error)

  /** `errors.Is(e, target)` for a sentinel target: `e` is the target or wraps it. */
  predicate Is(e: Error, target: Error)
    decreases e
  {
    e == target || (e.Wrapped? && Is(e.cause, target))
  }

  /** Who a request acts for: the anonymous sentinel or a stored user. */
  datatype Identity = Anonymous | Authenticated(user: User)

  /** What the authentication middleware leaves in the request context: the
      identity and the raw bearer token ("" when none was stored). */
  datatype RequestContext = RequestContext(identity: Identity, token: string)
}
