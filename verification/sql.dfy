/** The SQL text the persistence layer builds (postgres/utils.go,
    postgres/article.go, postgres/user.go): the paging suffix, the WHERE
    clause, and the filter-to-predicate assemblers that number their
    placeholders `$1..$n` in emission order next to an aligned argument list.
    The meaning of a built predicate is given by evaluating it against a row,
    which is how it is related back to the filter it came from. */
module Sql {
  import opened Wrappers
  import opened Text
  import opened Model

  // ---------------------------------------------------------------------
  // Paging suffix

  /** `formatLimitOffset`: the LIMIT/OFFSET text for positive values only. */
  function FormatLimitOffset(limit: int, offset: int): (r: string)
    ensures r == "" <==> limit <= 0 && offset <= 0
    ensures r != "" ==> r[0] != ' '
    ensures StartsWith(r, "LIMIT ") <==> limit > 0
    ensures StartsWith(r, "OFFSET ") <==> limit <= 0 && offset > 0
  {
    if limit > 0 && offset > 0 then
      "LIMIT " + NatToString(limit) + " OFFSET " + NatToString(offset)
    else if limit > 0 then
      "LIMIT " + NatToString(limit)
    else if offset > 0 then
      "OFFSET " + NatToString(offset)
    else
      ""
  }

  /** A paging value as the query applies it: non-positive means "none". */
  function Clamp(n: int): nat {
    if n > 0 then n else 0
  }

  /** Reads a paging suffix back: `(limit, offset)` with 0 for an absent part. */
  function ParsePaging(s: string): Option<(nat, nat)> {
    if s == "" then Some((0, 0))
    else if StartsWith(s, "OFFSET ") then
      var d := s[7..];
      if |d| > 0 && AllDigits(d) then Some((0, ParseDigits(d))) else None
    else if StartsWith(s, "LIMIT ") then
      var rest := s[6..];
      var n := LeadingDigits(rest);
      if n == 0 then None
      else if n == |rest| then Some((ParseDigits(rest), 0))
      else
        var tail := rest[n..];
        if |tail| > 8 && StartsWith(tail, " OFFSET ") && AllDigits(tail[8..]) then
          Some((ParseDigits(rest[..n]), ParseDigits(tail[8..])))
        else None
    else None
  }

  /** The paging suffix determines the effective limit and offset. */
  lemma PagingRoundTrip(limit: int, offset: int)
    ensures ParsePaging(FormatLimitOffset(limit, offset)) == Some((Clamp(limit), Clamp(offset)))
  {
    var s := FormatLimitOffset(limit, offset);
    if limit > 0 {
      var l := NatToString(limit);
      ParseNatToString(limit);
      assert s[0] == 'L';
      if offset > 0 {
        var o := NatToString(offset);
        ParseNatToString(offset);
        var t := " OFFSET " + o;
        assert s[6..] == l + t;
        LeadingDigitsOfNumeral(l, t);
        assert (l + t)[..|l|] == l;
        assert (l + t)[|l|..] == t;
        assert t[8..] == o;
      } else {
        assert s[6..] == l + "";
        LeadingDigitsOfNumeral(l, "");
      }
    } else if offset > 0 {
      ParseNatToString(offset);
      assert s[7..] == NatToString(offset);
    }
  }

  // ---------------------------------------------------------------------
  // WHERE clause

  /** `formatWhereClause`: empty for no predicates, otherwise " WHERE " and
      the predicates joined with " AND ". */
  function FormatWhereClause(clauses: seq<string>): (r: string)
    ensures r == "" <==> |clauses| == 0
    ensures |clauses| > 0 ==> StartsWith(r, " WHERE ")
  {
    if |clauses| == 0 then "" else " WHERE " + Join(clauses, " AND ")
  }

  /** Adding a predicate conjoins it at the end, in the order of emission. */
  lemma WhereClauseSnoc(clauses: seq<string>, c: string)
    ensures FormatWhereClause(clauses + [c])
         == if |clauses| == 0 then " WHERE " + c else FormatWhereClause(clauses) + " AND " + c
  {
    JoinSnoc(clauses, c, " AND ");
  }

  // ---------------------------------------------------------------------
  // Predicate assembly

  /** The columns the filters can constrain. `AuthorUsernameColumn` is the
      articles' author matched through a subquery on users. */
  datatype Column = IdColumn | AuthorIdColumn | SlugColumn | TitleColumn | AuthorUsernameColumn | UsernameColumn

  /** A bound query argument. */
  datatype Arg = UintArg(n: nat) | TextArg(s: string)

  /** One optional filter field, in the position the builder visits it. */
  datatype Condition = Condition(column: Column, value: Option<Arg>)

  /** An emitted predicate: the column it constrains and its placeholder number. */
  datatype Clause = Clause(column: Column, position: nat)

  /** The predicates and the argument list handed to the driver. */
  datatype Where = Where(clauses: seq<Clause>, args: seq<Arg>)

  /** The conditions that are set, in visiting order. */
  function Present(conds: seq<Condition>): (r: seq<Condition>)
    ensures |r| <= |conds|
    ensures forall i :: 0 <= i < |r| ==> r[i].value.Some? && r[i] in conds
    decreases |conds|
  {
    if |conds| == 0 then []
    else
      var p := Present(conds[..|conds| - 1]);
      var c := conds[|conds| - 1];
      if c.value.Some? then p + [c] else p
  }

  /** A set condition is never dropped. */
  lemma {:induction false} PresentComplete(conds: seq<Condition>, k: nat)
    requires k < |conds| && conds[k].value.Some?
    ensures conds[k] in Present(conds)
    decreases |conds|
  {
    if k < |conds| - 1 {
      PresentComplete(conds[..|conds| - 1], k);
    }
  }

  /** Conditions visited in strictly increasing `rank` stay so once unset ones are dropped. */
  lemma {:induction false} PresentSorted(conds: seq<Condition>, rank: Column -> nat)
    requires forall i, j :: 0 <= i < j < |conds| ==> rank(conds[i].column) < rank(conds[j].column)
    ensures forall i, j :: 0 <= i < j < |Present(conds)| ==>
              rank(Present(conds)[i].column) < rank(Present(conds)[j].column)
    decreases |conds|
  {
    if |conds| > 0 {
      var init := conds[..|conds| - 1];
      var last := conds[|conds| - 1];
      PresentSorted(init, rank);
      forall c | c in Present(init)
        ensures rank(c.column) < rank(last.column)
      {
        var k :| 0 <= k < |init| && init[k] == c;
      }
    }
  }

  /** The builder loop of `findArticles`/`findUsers`: each set condition, in
      order, yields the next placeholder number and appends its argument. */
  function Build(conds: seq<Condition>): (w: Where)
    ensures |w.clauses| == |w.args| == |Present(conds)|
    ensures forall i :: 0 <= i < |w.clauses| ==> w.clauses[i].position == i + 1
    ensures forall i :: 0 <= i < |w.clauses| ==>
              Present(conds)[i] == Condition(w.clauses[i].column, Some(w.args[i]))
    decreases |conds|
  {
    if |conds| == 0 then Where([], [])
    else
      var w := Build(conds[..|conds| - 1]);
      var c := conds[|conds| - 1];
      match c.value
      case None => w
      case Some(v) => Where(w.clauses + [Clause(c.column, |w.clauses| + 1)], w.args + [v])
  }

  /** The SQL text of one predicate, with its placeholder. */
  function ClauseText(c: Clause): string {
    var p := "$" + NatToString(c.position);
    match c.column
    case IdColumn => "id = " + p
    case AuthorIdColumn => "author_id = " + p
    case SlugColumn => "slug = " + p
    case TitleColumn => "title = " + p
    case AuthorUsernameColumn => "author_id = (select id from users where username = " + p + ")"
    case UsernameColumn => "username = " + p
  }

  function ClauseTexts(cs: seq<Clause>): (r: seq<string>)
    ensures |r| == |cs|
  {
    seq(|cs|, i requires 0 <= i < |cs| => ClauseText(cs[i]))
  }

  function UintOf(v: Option<nat>): Option<Arg> {
    match v
    case None => None
    case Some(n) => Some(UintArg(n))
  }

  function TextOf(v: Option<string>): Option<Arg> {
    match v
    case None => None
    case Some(s) => Some(TextArg(s))
  }

  // ---------------------------------------------------------------------
  // Shape and meaning of a built predicate list, for any filter

  /** Placeholders are `$1..$n` in emission order, one argument each. */
  predicate Numbered(w: Where) {
    && |w.clauses| == |w.args|
    && forall i :: 0 <= i < |w.clauses| ==> w.clauses[i].position == i + 1
  }

  /** Argument i is the filter's value for predicate i's column. */
  predicate Aligned(w: Where, value: Column -> Option<Arg>) {
    forall i :: 0 <= i < |w.clauses| ==> i < |w.args| && value(w.clauses[i].column) == Some(w.args[i])
  }

  /** Predicates appear in strictly increasing visiting order. */
  predicate Ordered(w: Where, rank: Column -> nat) {
    forall i, j :: 0 <= i < j < |w.clauses| ==> rank(w.clauses[i].column) < rank(w.clauses[j].column)
  }

  /** Every set field has a predicate. */
  predicate Covers(w: Where, value: Column -> Option<Arg>) {
    forall c :: value(c).Some? ==> exists i :: 0 <= i < |w.clauses| && w.clauses[i].column == c
  }

  /** A condition list read off a filter: each condition carries the filter's
      value for its column, the columns are visited in increasing rank, and
      every set field is visited. */
  predicate ReadsFilter(conds: seq<Condition>, value: Column -> Option<Arg>, rank: Column -> nat) {
    && (forall k :: 0 <= k < |conds| ==> conds[k].value == value(conds[k].column))
    && (forall i, j :: 0 <= i < j < |conds| ==> rank(conds[i].column) < rank(conds[j].column))
    && (forall c :: value(c).Some? ==> exists k :: 0 <= k < |conds| && conds[k].column == c)
  }

  /** Each emitted argument is the filter's value for its predicate's column. */
  lemma BuildAligned(conds: seq<Condition>, value: Column -> Option<Arg>, rank: Column -> nat)
    requires ReadsFilter(conds, value, rank)
    ensures Aligned(Build(conds), value)
  {
    var w := Build(conds);
    var p := Present(conds);
    forall i | 0 <= i < |w.clauses|
      ensures value(w.clauses[i].column) == Some(w.args[i])
    {
      assert p[i] in conds;
    }
  }

  /** Predicates keep the visiting order. */
  lemma BuildOrdered(conds: seq<Condition>, value: Column -> Option<Arg>, rank: Column -> nat)
    requires ReadsFilter(conds, value, rank)
    ensures Ordered(Build(conds), rank)
  {
    var w := Build(conds);
    var p := Present(conds);
    PresentSorted(conds, rank);
    forall i, j | 0 <= i < j < |w.clauses|
      ensures rank(w.clauses[i].column) < rank(w.clauses[j].column)
    {
      assert p[i].column == w.clauses[i].column && p[j].column == w.clauses[j].column;
    }
  }

  /** No set field is left without a predicate. */
  lemma BuildCovers(conds: seq<Condition>, value: Column -> Option<Arg>, rank: Column -> nat)
    requires ReadsFilter(conds, value, rank)
    ensures Covers(Build(conds), value)
  {
    var w := Build(conds);
    var p := Present(conds);
    forall c | value(c).Some?
      ensures exists i :: 0 <= i < |w.clauses| && w.clauses[i].column == c
    {
      var k :| 0 <= k < |conds| && conds[k].column == c;
      PresentComplete(conds, k);
      var i :| 0 <= i < |p| && p[i] == conds[k];
      assert w.clauses[i].column == c;
    }
  }

  lemma BuildShape(conds: seq<Condition>, value: Column -> Option<Arg>, rank: Column -> nat)
    requires ReadsFilter(conds, value, rank)
    ensures var w := Build(conds);
      Numbered(w) && Aligned(w, value) && Ordered(w, rank) && Covers(w, value)
  {
    BuildAligned(conds, value, rank);
    BuildOrdered(conds, value, rank);
    BuildCovers(conds, value, rank);
  }

  lemma OrderedFrontDistinct(w: Where, rank: Column -> nat)
    requires Ordered(w, rank)
    ensures |w.clauses| >= 2 ==> w.clauses[0].column != w.clauses[1].column
  {
  }

  /** With exactly one field set, the list is that one predicate, numbered 1. */
  lemma SingleClause(w: Where, value: Column -> Option<Arg>, rank: Column -> nat, c0: Column)
    requires Numbered(w) && Aligned(w, value) && Ordered(w, rank) && Covers(w, value)
    requires value(c0).Some?
    requires forall c :: c != c0 ==> value(c).None?
    ensures w == Where([Clause(c0, 1)], [value(c0).value])
  {
    var i :| 0 <= i < |w.clauses| && w.clauses[i].column == c0;
    assert forall k :: 0 <= k < |w.clauses| ==> w.clauses[k].column == c0;
    OrderedFrontDistinct(w, rank);
    assert |w.clauses| == 1;
    assert w.clauses == [Clause(c0, 1)];
    assert w.args == [value(c0).value];
  }

  /** With no field set, there is no predicate. */
  lemma NoClause(w: Where, value: Column -> Option<Arg>)
    requires Numbered(w) && Aligned(w, value)
    requires forall c :: value(c).None?
    ensures w == Where([], [])
  {
    assert |w.clauses| > 0 ==> value(w.clauses[0].column).Some?;
    assert |w.clauses| == 0;
  }

  /** A row passes a predicate list when every predicate holds for the
      argument its placeholder names. */
  predicate Satisfies(w: Where, holds: (Column, Arg) -> bool) {
    forall i :: 0 <= i < |w.clauses| ==>
      1 <= w.clauses[i].position <= |w.args| && holds(w.clauses[i].column, w.args[w.clauses[i].position - 1])
  }

  /** Every set field's condition holds. */
  predicate AllSetHold(value: Column -> Option<Arg>, holds: (Column, Arg) -> bool) {
    forall c :: value(c).Some? ==> holds(c, value(c).value)
  }

  /** A numbered, aligned, covering list holds exactly when every set field's
      condition holds: evaluation order and placement do not matter. */
  lemma SatisfiesMeaning(w: Where, value: Column -> Option<Arg>, holds: (Column, Arg) -> bool)
    requires Numbered(w) && Aligned(w, value) && Covers(w, value)
    ensures Satisfies(w, holds) <==> AllSetHold(value, holds)
  {
    if Satisfies(w, holds) {
      forall c | value(c).Some?
        ensures holds(c, value(c).value)
      {
        var i :| 0 <= i < |w.clauses| && w.clauses[i].column == c;
        assert w.args[w.clauses[i].position - 1] == w.args[i];
      }
    }
  }

  // ---------------------------------------------------------------------
  // Articles

  /** The order `findArticles` visits the article filter's fields. */
  function ArticleConditions(f: ArticleFilter): seq<Condition> {
    [ Condition(IdColumn, UintOf(f.id)),
      Condition(AuthorIdColumn, UintOf(f.authorId)),
      Condition(SlugColumn, TextOf(f.slug)),
      Condition(TitleColumn, TextOf(f.title)),
      Condition(AuthorUsernameColumn, TextOf(f.authorUsername)) ]
  }

  function ArticleWhere(f: ArticleFilter): Where {
    Build(ArticleConditions(f))
  }

  /** The statement `findArticles` sends. */
  function ArticlesQuery(f: ArticleFilter): string {
    SelectArticles(ArticleWhere(f).clauses)
  }

  /** The article statement is a select over articles, and it carries a WHERE
      text exactly when some field of the filter is set. */
  lemma ArticlesQueryShape(f: ArticleFilter)
    ensures StartsWith(ArticlesQuery(f), "SELECT * from articles")
    ensures ArticlesQuery(f) == "SELECT * from articles" + " ORDER BY created_at DESC" <==>
      ArticleWhere(f).clauses == []
  {
    var q := ArticlesQuery(f);
    var w := FormatWhereClause(ClauseTexts(ArticleWhere(f).clauses));
    assert q == "SELECT * from articles" + w + " ORDER BY created_at DESC";
    assert q[..22] == "SELECT * from articles";
  }

  function SelectArticles(clauses: seq<Clause>): string {
    "SELECT * from articles" + FormatWhereClause(ClauseTexts(clauses)) + " ORDER BY created_at DESC"
  }

  /** The argument the article filter supplies for a column, if any. */
  function ArticleFieldArg(f: ArticleFilter, c: Column): Option<Arg> {
    match c
    case IdColumn => UintOf(f.id)
    case AuthorIdColumn => UintOf(f.authorId)
    case SlugColumn => TextOf(f.slug)
    case TitleColumn => TextOf(f.title)
    case AuthorUsernameColumn => TextOf(f.authorUsername)
    case UsernameColumn => None
  }

  function ArticleValue(f: ArticleFilter): Column -> Option<Arg> {
    c => ArticleFieldArg(f, c)
  }

  lemma ArticleConditionsReadFilter(f: ArticleFilter)
    ensures ReadsFilter(ArticleConditions(f), ArticleValue(f), ArticleRank)
  {
    var conds := ArticleConditions(f);
    forall c | ArticleValue(f)(c).Some?
      ensures exists k :: 0 <= k < |conds| && conds[k].column == c
    {
      assert conds[ArticleRank(c)].column == c;
    }
  }

  /** The fixed emission order: id, author_id, slug, title, author by username. */
  function ArticleRank(c: Column): nat {
    match c
    case IdColumn => 0
    case AuthorIdColumn => 1
    case SlugColumn => 2
    case TitleColumn => 3
    case AuthorUsernameColumn => 4
    case UsernameColumn => 5
  }

  /** `findArticles` emits one predicate per set field and no other, in the
      fixed order, numbered `$1..$n`, with argument i the value of predicate
      i's field. */
  lemma ArticleWhereShape(f: ArticleFilter)
    ensures var w := ArticleWhere(f);
      && |w.clauses| == |w.args|
      && (forall i :: 0 <= i < |w.clauses| ==> w.clauses[i].position == i + 1)
      && (forall i :: 0 <= i < |w.clauses| ==> ArticleFieldArg(f, w.clauses[i].column) == Some(w.args[i]))
      && (forall i, j :: 0 <= i < j < |w.clauses| ==> ArticleRank(w.clauses[i].column) < ArticleRank(w.clauses[j].column))
      && (forall c :: ArticleFieldArg(f, c).Some? <==> exists i :: 0 <= i < |w.clauses| && w.clauses[i].column == c)
  {
    ArticleConditionsReadFilter(f);
    BuildShape(ArticleConditions(f), ArticleValue(f), ArticleRank);
    assert forall c :: ArticleValue(f)(c) == ArticleFieldArg(f, c);
  }

  /** Paging never reaches the article statement. */
  lemma ArticlesQueryIgnoresPaging(f: ArticleFilter, limit: int, offset: int)
    ensures ArticlesQuery(f.(limit := limit, offset := offset)) == ArticlesQuery(f)
    ensures ArticleWhere(f.(limit := limit, offset := offset)) == ArticleWhere(f)
  {
  }

  lemma UnfilteredArticlesWhere(limit: int, offset: int)
    ensures ArticleWhere(NoArticleFilter.(limit := limit, offset := offset)) == Where([], [])
  {
    var f := NoArticleFilter.(limit := limit, offset := offset);
    ArticleConditionsReadFilter(f);
    BuildShape(ArticleConditions(f), ArticleValue(f), ArticleRank);
    NoClause(ArticleWhere(f), ArticleValue(f));
  }

  /** An unset filter lists every article, newest first, without arguments. */
  lemma UnfilteredArticlesQuery(limit: int, offset: int)
    ensures ArticlesQuery(NoArticleFilter.(limit := limit, offset := offset))
         == "SELECT * from articles" + " ORDER BY created_at DESC"
    ensures ArticleWhere(NoArticleFilter.(limit := limit, offset := offset)).args == []
  {
    UnfilteredArticlesWhere(limit, offset);
    assert FormatWhereClause(ClauseTexts([])) == "";
  }

  /** The slug-only filter `findArticleBySlug` uses. */
  function SlugFilter(slug: string): ArticleFilter {
    NoArticleFilter.(slug := Some(slug))
  }

  lemma SlugWhere(slug: string)
    ensures ArticleWhere(SlugFilter(slug)) == Where([Clause(SlugColumn, 1)], [TextArg(slug)])
  {
    var f := SlugFilter(slug);
    ArticleConditionsReadFilter(f);
    BuildShape(ArticleConditions(f), ArticleValue(f), ArticleRank);
    SingleClause(ArticleWhere(f), ArticleValue(f), ArticleRank, SlugColumn);
  }

  lemma OneText()
    ensures "$" + NatToString(1) == "$1"
  {
    assert NatToString(1) == "1";
  }

  lemma SlugWhereText()
    ensures FormatWhereClause(ClauseTexts([Clause(SlugColumn, 1)])) == " WHERE slug = $1"
  {
    OneText();
    assert ClauseText(Clause(SlugColumn, 1)) == "slug = $1";
    assert ClauseTexts([Clause(SlugColumn, 1)]) == ["slug = $1"];
  }

  lemma SlugQuery(slug: string)
    ensures ArticlesQuery(SlugFilter(slug)) == "SELECT * from articles" + " WHERE slug = $1" + " ORDER BY created_at DESC"
    ensures ArticleWhere(SlugFilter(slug)).args == [TextArg(slug)]
  {
    SlugWhere(slug);
    SlugWhereText();
  }

  /** The value a stored article holds in a plain column. */
  function ArticleColumnValue(a: Article, c: Column): Option<Arg> {
    match c
    case IdColumn => Some(UintArg(a.id))
    case AuthorIdColumn => Some(UintArg(a.authorId))
    case SlugColumn => Some(TextArg(a.slug))
    case TitleColumn => Some(TextArg(a.title))
    case AuthorUsernameColumn => None
    case UsernameColumn => None
  }

  /** Whether an article row passes one predicate bound to `v`; the
      author-by-username subquery holds when the users table has a user with
      that name whose id is the article's author id. */
  predicate ArticleClauseHolds(a: Article, c: Column, v: Arg, users: seq<User>) {
    if c == AuthorUsernameColumn then
      v.TextArg? && exists u :: u in users && u.username == v.s && u.id == a.authorId
    else
      ArticleColumnValue(a, c) == Some(v)
  }

  function ArticleHolds(a: Article, users: seq<User>): (Column, Arg) -> bool {
    (c, v) => ArticleClauseHolds(a, c, v, users)
  }

  /** The filter read directly: every set field constrains the article. */
  predicate ArticleMatches(a: Article, f: ArticleFilter, users: seq<User>) {
    && (f.id.Some? ==> a.id == f.id.value)
    && (f.authorId.Some? ==> a.authorId == f.authorId.value)
    && (f.slug.Some? ==> a.slug == f.slug.value)
    && (f.title.Some? ==> a.title == f.title.value)
    && (f.authorUsername.Some? ==>
          exists u :: u in users && u.username == f.authorUsername.value && u.id == a.authorId)
  }

  lemma ArticleMatchesByColumn(a: Article, f: ArticleFilter, users: seq<User>)
    ensures ArticleMatches(a, f, users) <==> AllSetHold(ArticleValue(f), ArticleHolds(a, users))
  {
    assert forall c :: ArticleValue(f)(c) == ArticleFieldArg(f, c);
    var value, holds := ArticleValue(f), ArticleHolds(a, users);
    if ArticleMatches(a, f, users) {
      forall c | value(c).Some?
        ensures holds(c, value(c).value)
      {
      }
    } else if f.id.Some? && a.id != f.id.value {
      assert !holds(IdColumn, value(IdColumn).value);
    } else if f.authorId.Some? && a.authorId != f.authorId.value {
      assert !holds(AuthorIdColumn, value(AuthorIdColumn).value);
    } else if f.slug.Some? && a.slug != f.slug.value {
      assert !holds(SlugColumn, value(SlugColumn).value);
    } else if f.title.Some? && a.title != f.title.value {
      assert !holds(TitleColumn, value(TitleColumn).value);
    } else {
      assert !holds(AuthorUsernameColumn, value(AuthorUsernameColumn).value);
    }
  }

  /** The statement `findArticles` builds selects exactly the articles the
      filter describes: each placeholder names its own predicate's argument. */
  lemma ArticleWhereMeaning(a: Article, f: ArticleFilter, users: seq<User>)
    ensures Satisfies(ArticleWhere(f), ArticleHolds(a, users)) <==> ArticleMatches(a, f, users)
  {
    ArticleConditionsReadFilter(f);
    BuildShape(ArticleConditions(f), ArticleValue(f), ArticleRank);
    SatisfiesMeaning(ArticleWhere(f), ArticleValue(f), ArticleHolds(a, users));
    ArticleMatchesByColumn(a, f, users);
  }

  // ---------------------------------------------------------------------
  // Users

  /** The order `findUsers` visits the user filter's fields. */
  function UserConditions(f: UserFilter): seq<Condition> {
    [ Condition(IdColumn, UintOf(f.id)),
      Condition(UsernameColumn, TextOf(f.username)) ]
  }

  function UserWhere(f: UserFilter): Where {
    Build(UserConditions(f))
  }

  /** The argument the user filter supplies for a column, if any. */
  function UserFieldArg(f: UserFilter, c: Column): Option<Arg> {
    match c
    case IdColumn => UintOf(f.id)
    case UsernameColumn => TextOf(f.username)
    case _ => None
  }

  function UserValue(f: UserFilter): Column -> Option<Arg> {
    c => UserFieldArg(f, c)
  }

  lemma UserConditionsReadFilter(f: UserFilter)
    ensures ReadsFilter(UserConditions(f), UserValue(f), UserRank)
  {
    var conds := UserConditions(f);
    forall c | UserValue(f)(c).Some?
      ensures exists k :: 0 <= k < |conds| && conds[k].column == c
    {
      assert conds[UserRank(c)].column == c;
    }
  }

  /** The fixed emission order: id, then username. */
  function UserRank(c: Column): nat {
    match c
    case IdColumn => 0
    case UsernameColumn => 1
    case _ => 2
  }

  /** `findUsers` emits an id predicate, then a username predicate, each only
      when set, numbered `$1..$n` with aligned arguments. */
  lemma UserWhereShape(f: UserFilter)
    ensures var w := UserWhere(f);
      && |w.clauses| == |w.args|
      && (forall i :: 0 <= i < |w.clauses| ==> w.clauses[i].position == i + 1)
      && (forall i :: 0 <= i < |w.clauses| ==> UserFieldArg(f, w.clauses[i].column) == Some(w.args[i]))
      && (forall i, j :: 0 <= i < j < |w.clauses| ==> UserRank(w.clauses[i].column) < UserRank(w.clauses[j].column))
      && (forall c :: UserFieldArg(f, c).Some? <==> exists i :: 0 <= i < |w.clauses| && w.clauses[i].column == c)
  {
    UserConditionsReadFilter(f);
    BuildShape(UserConditions(f), UserValue(f), UserRank);
    assert forall c :: UserValue(f)(c) == UserFieldArg(f, c);
  }

  /** The value a stored user holds in a column. */
  function UserColumnValue(u: User, c: Column): Option<Arg> {
    match c
    case IdColumn => Some(UintArg(u.id))
    case UsernameColumn => Some(TextArg(u.username))
    case _ => None
  }

  function UserHolds(u: User): (Column, Arg) -> bool {
    (c, v) => UserColumnValue(u, c) == Some(v)
  }

  /** The filter read directly. */
  predicate UserMatches(u: User, f: UserFilter) {
    && (f.id.Some? ==> u.id == f.id.value)
    && (f.username.Some? ==> u.username == f.username.value)
  }

  lemma UserMatchesByColumn(u: User, f: UserFilter)
    ensures UserMatches(u, f) <==> AllSetHold(UserValue(f), UserHolds(u))
  {
    assert forall c :: UserValue(f)(c) == UserFieldArg(f, c);
    if UserMatches(u, f) {
      forall c | UserValue(f)(c).Some?
        ensures UserHolds(u)(c, UserValue(f)(c).value)
      {
      }
    } else if f.id.Some? && u.id != f.id.value {
      assert !UserHolds(u)(IdColumn, UserValue(f)(IdColumn).value);
    } else {
      assert !UserHolds(u)(UsernameColumn, UserValue(f)(UsernameColumn).value);
    }
  }

  /** The statement `findUsers` builds selects exactly the users the filter describes. */
  lemma UserWhereMeaning(u: User, f: UserFilter)
    ensures Satisfies(UserWhere(f), UserHolds(u)) <==> UserMatches(u, f)
  {
    UserConditionsReadFilter(f);
    BuildShape(UserConditions(f), UserValue(f), UserRank);
    SatisfiesMeaning(UserWhere(f), UserValue(f), UserHolds(u));
    UserMatchesByColumn(u, f);
  }

  /** The statement up to and including its ORDER BY. */
  function UsersBaseQuery(f: UserFilter): string {
    SelectUsers(UserWhere(f).clauses)
  }

  function SelectUsers(clauses: seq<Clause>): string {
    "SELECT * from users" + FormatWhereClause(ClauseTexts(clauses)) + " ORDER BY id ASC"
  }

  /** `findUsers` as written: the paging text is appended with no separator. */
  function UsersQueryAsWritten(f: UserFilter): (q: string)
    ensures StartsWith(q, UsersBaseQuery(f))
  {
    UsersBaseQuery(f) + FormatLimitOffset(f.limit, f.offset)
  }

  /** As written, what follows the ORDER BY is the paging text itself, and it
      reads back as the filter's effective limit and offset. */
  lemma UsersQueryAsWrittenPaging(f: UserFilter)
    ensures var q, base := UsersQueryAsWritten(f), UsersBaseQuery(f);
      ParsePaging(q[|base|..]) == Some((Clamp(f.limit), Clamp(f.offset)))
  {
    var base := UsersBaseQuery(f);
    assert UsersQueryAsWritten(f)[|base|..] == FormatLimitOffset(f.limit, f.offset);
    PagingRoundTrip(f.limit, f.offset);
  }

  /** Without paging the written statement and the corrected one are the same
      text; every lookup that reads one user sets no paging. */
  lemma UsersQueriesAgree(f: UserFilter)
    requires f.limit <= 0 && f.offset <= 0
    ensures UsersQueryAsWritten(f) == UsersQuery(f) == UsersBaseQuery(f)
  {
    assert UsersBaseQuery(f) + "" == UsersBaseQuery(f);
  }

  /** The users statement with the paging text set off by a space. */
  function UsersQuery(f: UserFilter): (q: string)
    ensures StartsWith(q, UsersBaseQuery(f))
    ensures var tail := q[|UsersBaseQuery(f)|..];
      tail == "" || (tail[0] == ' ' && ParsePaging(tail[1..]) == Some((Clamp(f.limit), Clamp(f.offset))))
  {
    var base := UsersBaseQuery(f);
    var paging := FormatLimitOffset(f.limit, f.offset);
    var q := if paging == "" then base else base + " " + paging;
    SpacedTail(base, paging, q);
    PagingRoundTrip(f.limit, f.offset);
    q
  }

  /** What an optional space-separated suffix leaves after the base text. */
  lemma SpacedTail(base: string, suffix: string, q: string)
    requires q == if suffix == "" then base else base + " " + suffix
    ensures StartsWith(q, base)
    ensures suffix == "" ==> q[|base|..] == ""
    ensures suffix != "" ==> q[|base|..] == " " + suffix
  {
    assert q[..|base|] == base;
  }

  lemma SelectUsersEndsAsc(clauses: seq<Clause>)
    ensures var s := SelectUsers(clauses); |s| >= 3 && s[|s| - 3..] == "ASC"
  {
    var s := SelectUsers(clauses);
    var w := "SELECT * from users" + FormatWhereClause(ClauseTexts(clauses));
    assert s == w + " ORDER BY id ASC";
    assert s[|s| - 3..] == " ORDER BY id ASC"[13..];
  }

  /** With a limit the written query runs "ASC" into "LIMIT": what follows the
      ORDER BY is not a space-separated paging clause. */
  lemma UsersQueryGluesPaging(f: UserFilter)
    requires f.limit > 0
    ensures var q, base := UsersQueryAsWritten(f), UsersBaseQuery(f);
      |q| > |base| + 5 && q[|base| - 3..|base| + 5] == "ASCLIMIT"
  {
    var paging := FormatLimitOffset(f.limit, f.offset);
    SelectUsersEndsAsc(UserWhere(f).clauses);
    assert paging[..5] == "LIMIT "[..5];
    Glued(UsersBaseQuery(f), paging);
  }

  lemma Glued(base: string, paging: string)
    requires |base| >= 3 && base[|base| - 3..] == "ASC"
    requires |paging| >= 5 && paging[..5] == "LIMIT"
    ensures var q := base + paging; |q| > |base| + 4 && q[|base| - 3..|base| + 5] == "ASCLIMIT"
  {
    var q := base + paging;
    assert q[|base| - 3..|base|] == "ASC";
    assert q[|base|..|base| + 5] == paging[..5];
    assert q[|base| - 3..|base| + 5] == q[|base| - 3..|base|] + q[|base|..|base| + 5];
  }

  /** The id-only filter `findUserByID` uses. */
  function IdFilter(id: nat): UserFilter {
    NoUserFilter.(id := Some(id))
  }

  /** The username-only filter `UserByUsername` uses. */
  function UsernameFilter(name: string): UserFilter {
    NoUserFilter.(username := Some(name))
  }

  lemma IdWhere(id: nat)
    ensures UserWhere(IdFilter(id)) == Where([Clause(IdColumn, 1)], [UintArg(id)])
  {
    var f := IdFilter(id);
    UserConditionsReadFilter(f);
    BuildShape(UserConditions(f), UserValue(f), UserRank);
    SingleClause(UserWhere(f), UserValue(f), UserRank, IdColumn);
  }

  lemma IdWhereText()
    ensures FormatWhereClause(ClauseTexts([Clause(IdColumn, 1)])) == " WHERE id = $1"
  {
    OneText();
    assert ClauseText(Clause(IdColumn, 1)) == "id = $1";
    assert ClauseTexts([Clause(IdColumn, 1)]) == ["id = $1"];
  }

  lemma IdQuery(id: nat)
    ensures UsersQueryAsWritten(IdFilter(id)) == "SELECT * from users" + " WHERE id = $1" + " ORDER BY id ASC"
    ensures UserWhere(IdFilter(id)).args == [UintArg(id)]
  {
    IdWhere(id);
    IdWhereText();
    UsersQueriesAgree(IdFilter(id));
  }

  lemma UsernameWhere(name: string)
    ensures UserWhere(UsernameFilter(name)) == Where([Clause(UsernameColumn, 1)], [TextArg(name)])
  {
    var f := UsernameFilter(name);
    UserConditionsReadFilter(f);
    BuildShape(UserConditions(f), UserValue(f), UserRank);
    SingleClause(UserWhere(f), UserValue(f), UserRank, UsernameColumn);
  }

  lemma UsernameWhereText()
    ensures FormatWhereClause(ClauseTexts([Clause(UsernameColumn, 1)])) == " WHERE username = $1"
  {
    OneText();
    var t := "username = $1";
    assert ClauseText(Clause(UsernameColumn, 1)) == t;
    assert ClauseTexts([Clause(UsernameColumn, 1)]) == [t];
    assert Join([t], " AND ") == t;
  }

  /** The statement and arguments `UserByUsername` sends. */
  lemma UsernameQuery(name: string)
    ensures UsersQueryAsWritten(UsernameFilter(name)) ==
      "SELECT * from users" + " WHERE username = $1" + " ORDER BY id ASC"
    ensures UserWhere(UsernameFilter(name)).args == [TextArg(name)]
  {
    UsernameWhere(name);
    UsernameWhereText();
    UsersQueriesAgree(UsernameFilter(name));
  }

  lemma UnfilteredUsersWhere(limit: int, offset: int)
    ensures UserWhere(NoUserFilter.(limit := limit, offset := offset)) == Where([], [])
  {
    var f := NoUserFilter.(limit := limit, offset := offset);
    UserConditionsReadFilter(f);
    BuildShape(UserConditions(f), UserValue(f), UserRank);
    NoClause(UserWhere(f), UserValue(f));
  }

  lemma FivePaging()
    ensures FormatLimitOffset(5, 0) == "LIMIT 5"
  {
    assert NatToString(5) == "5";
  }

  /** A concrete instance: a five-row page of all users. */
  lemma UsersQueryGluesPagingExample()
    ensures UsersQueryAsWritten(NoUserFilter.(limit := 5)) == "SELECT * from users ORDER BY id ASC" + "LIMIT 5"
    ensures UsersQuery(NoUserFilter.(limit := 5)) == "SELECT * from users ORDER BY id ASC" + " " + "LIMIT 5"
  {
    UnfilteredUsersWhere(5, 0);
    FivePaging();
    assert SelectUsers([]) == "SELECT * from users ORDER BY id ASC";
  }
}
