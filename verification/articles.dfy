/** The article handlers of server/article.go. Each maps the decoded body,
    the caller's identity, the service's answers and the ownership check to a
    reply, noting which mutating service call it reached. The article service
    is a record of functions, so the handlers can be run against any store,
    including the persistence model. */
module ArticleHandlers {
  import opened Wrappers
  import opened Model
  import opened Sql
  import opened Store
  import opened Http
  import opened Validation

  /** `model.ArticleService`. */
  datatype ArticleService = ArticleService(
    create: Article -> Result<Article, Error>,
    bySlug: string -> Result<Article, Error>,
    articles: ArticleFilter -> Result<seq<Article>, Error>,
    update: (Article, ArticlePatch) -> Result<Article, Error>,
    delete: nat -> Option<Error>)

  // ---------------------------------------------------------------------
  // Rendering

  /** The JSON encoding of an article: id, author id and author are hidden. */
  function ArticleJson(a: Article): (j: Json)
    ensures j.JObject? && j.fields.Keys == {"title", "body", "slug", "createdAt", "updatedAt"}
    ensures j.fields["title"] == JString(a.title) && j.fields["slug"] == JString(a.slug)
  {
    JObject(map[
      "title" := JString(a.title),
      "body" := JString(a.body),
      "slug" := JString(a.slug),
      "createdAt" := JTime(a.createdAt, DefaultLayout),
      "updatedAt" := JTime(a.updatedAt, DefaultLayout)])
  }

  /** Two articles encode alike exactly when they agree on every visible
      field: the id, the author id and the attached author never show. */
  lemma ArticleJsonHidesIdentity(a: Article, b: Article)
    ensures ArticleJson(a) == ArticleJson(b) <==>
      a.title == b.title && a.body == b.body && a.slug == b.slug &&
      a.createdAt == b.createdAt && a.updatedAt == b.updatedAt
  {
    if ArticleJson(a) == ArticleJson(b) {
      assert ArticleJson(a).fields["body"] == ArticleJson(b).fields["body"];
      assert ArticleJson(a).fields["createdAt"] == ArticleJson(b).fields["createdAt"];
      assert ArticleJson(a).fields["updatedAt"] == ArticleJson(b).fields["updatedAt"];
    }
  }

  /** `articleResponse`: nothing for no article, otherwise exactly the keys
      title, body, slug, createdAt and updatedAt, the instants in the fixed
      seconds layout. */
  function ArticleResponse(a: Option<Article>): (r: Option<Json>)
    ensures a.None? <==> r.None?
    ensures r.Some? ==> r.value.JObject?
    ensures r.Some? ==> r.value.fields.Keys == {"title", "body", "slug", "createdAt", "updatedAt"}
    ensures r.Some? ==> r.value.fields["title"] == JString(a.value.title)
    ensures r.Some? ==> r.value.fields["body"] == JString(a.value.body)
    ensures r.Some? ==> r.value.fields["slug"] == JString(a.value.slug)
    ensures r.Some? ==> r.value.fields["createdAt"] == JTime(a.value.createdAt, FixedSecondsLayout)
    ensures r.Some? ==> r.value.fields["updatedAt"] == JTime(a.value.updatedAt, FixedSecondsLayout)
  {
    match a
    case None => None
    case Some(a) =>
      Some(JObject(map[
        "title" := JString(a.title),
        "body" := JString(a.body),
        "slug" := JString(a.slug),
        "createdAt" := JTime(a.createdAt, FixedSecondsLayout),
        "updatedAt" := JTime(a.updatedAt, FixedSecondsLayout)]))
  }

  /** The handlers encode articles directly; that encoding has the same keys
      and values as `articleResponse`, up to the layout of the instants. */
  lemma ArticleResponseAgreesWithEncoding(a: Article)
    ensures ArticleJson(a).fields.Keys == ArticleResponse(Some(a)).value.fields.Keys
    ensures forall k :: k in {"title", "body", "slug"} ==>
      ArticleJson(a).fields[k] == ArticleResponse(Some(a)).value.fields[k]
    ensures forall k :: k in {"createdAt", "updatedAt"} ==>
      ArticleJson(a).fields[k].t == ArticleResponse(Some(a)).value.fields[k].t
  {
  }

  /** A one-key object. */
  function Wrap(key: string, value: Json): Json {
    JObject(map[key := value])
  }

  // ---------------------------------------------------------------------
  // createArticle

  /** The body of a create request; absent JSON fields decode as "". */
  datatype ArticleInput = ArticleInput(title: string, body: string, slug: string)

  /** The validation tags of the create input: all three fields required. */
  function ValidateArticle(req: ArticleInput): seq<FieldError> {
    ValidateFields([Field("title", req.title, [Required]), Field("body", req.body, [Required]),
                    Field("slug", req.slug, [Required])])
  }

  /** The input is valid exactly when title, body and slug are non-empty. */
  lemma ValidateArticleMeaning(req: ArticleInput)
    ensures ValidateArticle(req) == [] <==> req.title != "" && req.body != "" && req.slug != ""
  {
    var fields := [Field("title", req.title, [Required]), Field("body", req.body, [Required]),
                   Field("slug", req.slug, [Required])];
    assert forall i :: 0 <= i < |fields| ==> fields[i].rules == [Required];
    assert fields[0].value == req.title && fields[1].value == req.body && fields[2].value == req.slug;
  }

  /** The article a create request describes, authored by `u`. */
  function NewArticle(req: ArticleInput, u: User): Article {
    Article(0, req.title, req.body, req.slug, u.id, Some(u), 0, 0)
  }

  /** `createArticle`: undecodable body 400; invalid input 422; anonymous
      caller 401 (after validation, before the store); store failure 500;
      otherwise 201 with the created article. */
  function CreateArticleHandler(input: Decoded<ArticleInput>, identity: Identity, svc: ArticleService): (o: Outcome)
    ensures o.Reply?
    ensures o.response.status ==
      if input.Undecodable? then StatusBadRequest
      else if ValidateArticle(input.input) != [] then StatusUnprocessableEntity
      else if identity.Anonymous? then StatusUnauthorized
      else if svc.create(NewArticle(input.input, identity.user)).Failure? then StatusInternalServerError
      else StatusCreated
    ensures o.call.Some? <==> input.Decoded? && ValidateArticle(input.input) == [] && identity.Authenticated?
    ensures o.call.Some? ==> o.call == Some(CreateArticleCall(NewArticle(input.input, identity.user)))
    ensures input.Undecodable? ==> o.response == BadRequest()
    ensures input.Decoded? && ValidateArticle(input.input) != [] ==>
      o.response == ValidationError(FieldErrors(ValidateArticle(input.input)))
    ensures input.Decoded? && ValidateArticle(input.input) == [] && identity.Anonymous? ==>
      o.response == InvalidAuthToken()
    ensures o.response.status == StatusInternalServerError ==>
      o.response == ServerError(svc.create(NewArticle(input.input, identity.user)).error)
    ensures o.response.status == StatusCreated ==>
      o.response == WriteJson(StatusCreated, Wrap("article", ArticleJson(svc.create(NewArticle(input.input, identity.user)).value)))
  {
    match input
    case Undecodable(_) => Reply(BadRequest(), None)
    case Decoded(req) =>
      var errs := ValidateArticle(req);
      if errs != [] then Reply(ValidationError(FieldErrors(errs)), None)
      else if identity.Anonymous? then Reply(InvalidAuthToken(), None)
      else
        var article := NewArticle(req, identity.user);
        match svc.create(article)
        case Failure(e) => Reply(ServerError(e), Some(CreateArticleCall(article)))
        case Success(created) => Reply(WriteJson(StatusCreated, Wrap("article", ArticleJson(created))), Some(CreateArticleCall(article)))
  }

  /** An anonymous caller never creates an article, whatever it sends; and
      the article a signed-in caller creates is authored by that caller. */
  lemma CreateArticleOwnership(input: Decoded<ArticleInput>, identity: Identity, svc: ArticleService)
    ensures identity.Anonymous? ==> CreateArticleHandler(input, identity, svc).call.None?
    ensures identity.Anonymous? && input.Decoded? && ValidateArticle(input.input) == [] ==>
      CreateArticleHandler(input, identity, svc).response == InvalidAuthToken()
    ensures var o := CreateArticleHandler(input, identity, svc);
      o.call.Some? ==> (identity.Authenticated? && o.call.value.article.authorId == identity.user.id
                        && o.call.value.article.author == Some(identity.user))
  {
  }

  // ---------------------------------------------------------------------
  // listArticles and getArticle

  /** The filter `listArticles` builds from the `author` query parameter. */
  function ListFilter(author: string): (f: ArticleFilter)
    ensures f == NoArticleFilter.(authorUsername := if author == "" then None else Some(author))
  {
    if author == "" then NoArticleFilter else NoArticleFilter.(authorUsername := Some(author))
  }

  /** An empty `author` lists everything; a non-empty one is the single
      author-by-username predicate with the name as its argument. */
  lemma ListFilterQuery(author: string)
    ensures author == "" ==> ArticleWhere(ListFilter(author)) == Where([], [])
    ensures author != "" ==>
      ArticleWhere(ListFilter(author)) == Where([Clause(AuthorUsernameColumn, 1)], [TextArg(author)])
  {
    var f := ListFilter(author);
    ArticleConditionsReadFilter(f);
    BuildShape(ArticleConditions(f), ArticleValue(f), ArticleRank);
    if author == "" {
      NoClause(ArticleWhere(f), ArticleValue(f));
    } else {
      SingleClause(ArticleWhere(f), ArticleValue(f), ArticleRank, AuthorUsernameColumn);
    }
  }

  function ArticleList(articles: seq<Article>): (j: Json)
    ensures j.JArray? && |j.items| == |articles|
    ensures forall i :: 0 <= i < |articles| ==> j.items[i] == ArticleJson(articles[i])
  {
    JArray(seq(|articles|, i requires 0 <= i < |articles| => ArticleJson(articles[i])))
  }

  /** `listArticles`: 200 with the listed articles, or 500. */
  function ListArticlesHandler(author: string, svc: ArticleService): (o: Outcome)
    ensures o.Reply? && o.call.None?
    ensures svc.articles(ListFilter(author)).Failure? ==> o.response == ServerError(svc.articles(ListFilter(author)).error)
    ensures svc.articles(ListFilter(author)).Success? ==>
      o.response == WriteJson(StatusOK, Wrap("articles", ArticleList(svc.articles(ListFilter(author)).value)))
  {
    match svc.articles(ListFilter(author))
    case Failure(e) => Reply(ServerError(e), None)
    case Success(found) => Reply(WriteJson(StatusOK, Wrap("articles", ArticleList(found))), None)
  }

  /** The filter `getArticle` builds: the slug when the route supplied one. */
  function GetFilter(slug: Option<string>): ArticleFilter {
    NoArticleFilter.(slug := slug)
  }

  /** `getArticle`: 200 with the first matching article, or null when none
      matches; 500 on a store failure. It never answers 404. */
  function GetArticleHandler(slug: Option<string>, svc: ArticleService): (o: Outcome)
    ensures o.Reply? && o.call.None?
    ensures o.response.status in {StatusOK, StatusInternalServerError}
    ensures o.response.status == StatusOK <==> svc.articles(GetFilter(slug)).Success?
    ensures svc.articles(GetFilter(slug)).Success? ==>
      var rs := svc.articles(GetFilter(slug)).value;
      o.response == WriteJson(StatusOK, Wrap("article", if |rs| > 0 then ArticleJson(rs[0]) else JNull))
    ensures svc.articles(GetFilter(slug)).Failure? ==>
      o.response == ServerError(svc.articles(GetFilter(slug)).error)
  {
    match svc.articles(GetFilter(slug))
    case Failure(e) => Reply(ServerError(e), None)
    case Success(rs) =>
      var article := if |rs| > 0 then ArticleJson(rs[0]) else JNull;
      Reply(WriteJson(StatusOK, Wrap("article", article)), None)
  }

  /** Where the slug read returns no rows, which the slug lookup reports as
      not-found, the read endpoint answers 200 with a null article; where the
      lookup finds one, the endpoint shows that article. */
  lemma GetArticleVersusBySlug(slug: string, svc: ArticleService)
    ensures var o := GetArticleHandler(Some(slug), svc);
      var first := FirstRow(svc.articles(SlugFilter(slug)));
      (svc.articles(SlugFilter(slug)).Success? && first == Failure(NotFound) ==>
         o.response.status == StatusOK && o.response.body == Some(Wrap("article", JNull)))
      && (first.Success? ==> o.response.body == Some(Wrap("article", ArticleJson(first.value))))
  {
    assert GetFilter(Some(slug)) == SlugFilter(slug);
  }

  // ---------------------------------------------------------------------
  // updateArticle and deleteArticle

  const NotFoundMessages := map["article" := ["requested article not found"]]
  const ForbiddenMessages := map["article" := ["forbidden request"]]

  /** The reply to a failed slug lookup: 404 for not-found (also when
      wrapped), 500 for anything else. */
  function LookupFailure(e: Error): (r: Response)
    ensures Is(e, NotFound) ==> r == NotFoundResponse(NotFoundMessages)
    ensures !Is(e, NotFound) ==> r == ServerError(e)
  {
    if Is(e, NotFound) then NotFoundResponse(NotFoundMessages) else ServerError(e)
  }

  function Forbidden(): (r: Response)
    ensures r.status == StatusForbidden
    ensures ErrorsOf(r) == Some(ErrorM(ForbiddenMessages))
  {
    ErrorResponseRoundTrip(StatusForbidden, ErrorM(ForbiddenMessages));
    ErrorResponse(StatusForbidden, ErrorM(ForbiddenMessages))
  }

  /** The body of an update request: each field optional. */
  datatype ArticleUpdateInput = ArticleUpdateInput(title: Option<string>, body: Option<string>)

  /** The patch `updateArticle` sends: title and body only, never the slug. */
  function UpdatePatch(req: ArticleUpdateInput): (p: ArticlePatch)
    ensures p.slug.None? && p.title == req.title && p.body == req.body
  {
    ArticlePatch(req.title, req.body, None)
  }

  /** `updateArticle`: undecodable body 400; failed lookup 404 or 500; a
      caller who is not the author 403; store failure 500; otherwise 200 with
      the updated article. */
  function UpdateArticleHandler(input: Decoded<ArticleUpdateInput>, slug: string, user: User, svc: ArticleService)
    : (o: Outcome)
    ensures o.Reply?
    ensures input.Undecodable? ==> o == Reply(BadRequest(), None)
    ensures input.Decoded? && svc.bySlug(slug).Failure? ==> o == Reply(LookupFailure(svc.bySlug(slug).error), None)
    ensures input.Decoded? && svc.bySlug(slug).Success? && user.id != svc.bySlug(slug).value.authorId ==>
      o == Reply(Forbidden(), None)
    ensures o.call.Some? <==>
      input.Decoded? && svc.bySlug(slug).Success? && user.id == svc.bySlug(slug).value.authorId
    ensures o.call.Some? ==>
      o.call == Some(UpdateArticleCall(svc.bySlug(slug).value, UpdatePatch(input.input)))
      && var r := svc.update(svc.bySlug(slug).value, UpdatePatch(input.input));
         o.response == if r.Failure? then ServerError(r.error)
                       else WriteJson(StatusOK, Wrap("article", ArticleJson(r.value)))
  {
    match input
    case Undecodable(_) => Reply(BadRequest(), None)
    case Decoded(req) =>
      match svc.bySlug(slug)
      case Failure(e) => Reply(LookupFailure(e), None)
      case Success(article) =>
        if user.id != article.authorId then Reply(Forbidden(), None)
        else
          var patch := UpdatePatch(req);
          match svc.update(article, patch)
          case Failure(e) => Reply(ServerError(e), Some(UpdateArticleCall(article, patch)))
          case Success(updated) =>
            Reply(WriteJson(StatusOK, Wrap("article", ArticleJson(updated))), Some(UpdateArticleCall(article, patch)))
  }

  /** `deleteArticle`: failed lookup 404 or 500; a caller who is not the
      author 403; store failure 500; otherwise 204 with no content. */
  function DeleteArticleHandler(slug: string, user: User, svc: ArticleService): (o: Outcome)
    ensures o.Reply?
    ensures svc.bySlug(slug).Failure? ==> o == Reply(LookupFailure(svc.bySlug(slug).error), None)
    ensures svc.bySlug(slug).Success? && user.id != svc.bySlug(slug).value.authorId ==> o == Reply(Forbidden(), None)
    ensures o.call.Some? <==> svc.bySlug(slug).Success? && user.id == svc.bySlug(slug).value.authorId
    ensures o.call.Some? ==>
      o.call == Some(DeleteArticleCall(svc.bySlug(slug).value.id))
      && o.response == match svc.delete(svc.bySlug(slug).value.id)
                       case Some(e) => ServerError(e)
                       case None => NoContent()
  {
    match svc.bySlug(slug)
    case Failure(e) => Reply(LookupFailure(e), None)
    case Success(article) =>
      if user.id != article.authorId then Reply(Forbidden(), None)
      else
        match svc.delete(article.id)
        case Some(e) => Reply(ServerError(e), Some(DeleteArticleCall(article.id)))
        case None => Reply(NoContent(), Some(DeleteArticleCall(article.id)))
  }

  /** Only the author changes an article: whenever update or delete reaches
      the store, the article it touches was written by the caller, and a
      forbidden request touches nothing. */
  lemma OnlyAuthorMutates(input: Decoded<ArticleUpdateInput>, slug: string, user: User, svc: ArticleService)
    ensures var o := UpdateArticleHandler(input, slug, user, svc);
      o.call.Some? ==> o.call.value.target.authorId == user.id
    ensures var o := DeleteArticleHandler(slug, user, svc);
      o.call.Some? ==> (svc.bySlug(slug).Success? && svc.bySlug(slug).value.authorId == user.id
                        && o.call.value.id == svc.bySlug(slug).value.id)
    ensures UpdateArticleHandler(input, slug, user, svc).response.status == StatusForbidden ==>
      UpdateArticleHandler(input, slug, user, svc).call.None?
    ensures DeleteArticleHandler(slug, user, svc).response.status == StatusForbidden ==>
      DeleteArticleHandler(slug, user, svc).call.None?
  {
    assert NotFoundResponse(NotFoundMessages).status == StatusNotFound;
    ServerErrorStatus();
  }

  // ---------------------------------------------------------------------
  // Against the persistence model

  /** The slug lookup of the persistence model, as a service function. */
  function BySlug(articlesDb: ArticlesRead, usersDb: UsersRead): string -> Result<Article, Error> {
    slug => ArticleBySlug(articlesDb, usersDb, slug)
  }

  /** An article whose author has vanished from the users table is reported
      as missing: deleting it answers 404 and reaches no store call. */
  lemma VanishedAuthorDeleteIsNotFound(articlesDb: ArticlesRead, usersDb: UsersRead, slug: string, user: User,
                                       svc: ArticleService)
    requires svc.bySlug == BySlug(articlesDb, usersDb)
    requires ArticleRead(articlesDb, SlugFilter(slug)).Success?
    requires var rows := ArticleRead(articlesDb, SlugFilter(slug)).value;
      var i := FirstFailing(rows, ById(usersDb));
      i < |rows| && FindUserByID(usersDb, rows[i].authorId).error == NotFound
    ensures DeleteArticleHandler(slug, user, svc) == Reply(NotFoundResponse(NotFoundMessages), None)
  {
    MissingAuthorLooksNotFound(articlesDb, usersDb, slug);
    assert svc.bySlug(slug) == ArticleBySlug(articlesDb, usersDb, slug);
  }
}
