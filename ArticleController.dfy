/** The article controllers: each handler's table reads and writes, the errors it throws to
    the error handler, and the success response it writes otherwise. */
module ArticleController {
  import opened Wrappers
  import opened Strings
  import opened ContentModel
  import opened ErrorHandling
  import opened ArticleSql
  import opened UpdateSql
  import opened ArticleModel

  const NotFoundMessage := "글을 찾을 수 없습니다"
  const SlugTakenMessage := "이미 사용 중인 슬러그입니다"
  const CreatedMessage := "글이 생성되었습니다"
  const UpdateFailedMessage := "글 수정에 실패했습니다"
  const UpdatedMessage := "글이 수정되었습니다"
  const DeletedMessage := "글이 삭제되었습니다"
  const PublishedMessage := "글이 발행되었습니다"
  const UnpublishedMessage := "발행이 취소되었습니다"

  /** The error a refused statement reaches the error handler as: no status, not operational. */
  const QueryFailed := PlainError("query failed", None)

  /** The `data` of a success body. */
  datatype Payload =
    | NoData
    | ListingData(listings: seq<Listing>)
    | ArticleData(article: Row)
    | RowsData(rows: seq<Row>)
    | StatsData(stats: seq<YearCount>)
    | TagsData(tags: seq<string>)
    | IdData(id: int)

  /** A handler either writes a success body (`success: true`) with a status, an optional
      message, its data and an optional `count`, or throws to the error handler. */
  datatype Reply =
    | Replied(status: int, message: Option<string>, data: Payload, count: Option<nat>)
    | Thrown(error: Failure)

  function NotFound(): (e: Failure)
    ensures e.statusCode == Some(404) && e.isOperational
  {
    AppError(NotFoundMessage, 404, None)
  }

  function SlugTaken(): (e: Failure)
    ensures e.statusCode == Some(409) && e.isOperational
  {
    AppError(SlugTakenMessage, 409, None)
  }

  /** The public listing's query string; each parameter is absent or its text. */
  datatype ListQuery = ListQuery(year: Option<string>, tag: Option<string>, limit: Option<string>, offset: Option<string>)

  /** A number filter is set from a truthy (non-empty) query parameter through `parseInt`;
      `NaN` is kept as `None`, which the listing ignores like an absent filter. */
  function NumberFilter(q: Option<string>): (n: Option<int>)
    ensures n.Some? ==> TruthyText(q) && n == ParseInt(q.value)
    ensures TruthyText(q) ==> n == ParseInt(q.value)
  {
    if TruthyText(q) then ParseInt(q.value) else None
  }

  /** The filters `getAllArticles` hands to `findAll`. */
  function QueryFilters(q: ListQuery): (f: Filters)
    ensures f.year == NumberFilter(q.year) && f.limit == NumberFilter(q.limit) && f.offset == NumberFilter(q.offset)
    ensures f.tag.Some? <==> TruthyText(q.tag)
    ensures f.tag.Some? ==> f.tag == q.tag
  {
    Filters(NumberFilter(q.year), if TruthyText(q.tag) then q.tag else None, NumberFilter(q.limit), NumberFilter(q.offset))
  }

  /** A limit that reads as 0 limits nothing: `?limit=0` lists every matching article. */
  lemma ZeroParameterIgnored(q: ListQuery, rows: seq<Row>)
    requires q.limit == Some("0")
    ensures FindAllResult(QueryFilters(q), rows) == FindAllResult(QueryFilters(q.(limit := None)), rows)
  {
    var f := QueryFilters(q);
    var g := QueryFilters(q.(limit := None));
    assert ParseInt("0") == Some(0) by { ParseIntOfNatToString(0); assert NatToString(0) == "0"; }
    assert !Truthy(f.limit) && !Truthy(g.limit);
    WhereSame(rows, (r: Row) => Listed(f, r), (r: Row) => Listed(g, r));
  }

  /** A year that reads as 0 filters nothing: `?year=0` lists the articles of every year. */
  lemma ZeroYearIgnored(q: ListQuery, rows: seq<Row>)
    requires q.year == Some("0")
    ensures FindAllResult(QueryFilters(q), rows) == FindAllResult(QueryFilters(q.(year := None)), rows)
  {
    var f := QueryFilters(q);
    var g := QueryFilters(q.(year := None));
    assert ParseInt("0") == Some(0) by { ParseIntOfNatToString(0); assert NatToString(0) == "0"; }
    assert !Truthy(f.year) && !Truthy(g.year);
    assert f.tag == g.tag && f.limit == g.limit && f.offset == g.offset;
    forall r: Row ensures Listed(f, r) == Listed(g, r) { }
    WhereSame(rows, (r: Row) => Listed(f, r), (r: Row) => Listed(g, r));
  }

  /** The admin listing's flag: set exactly when the parameter is present, and true exactly
      for the text `true`. */
  function AdminFilter(published: Option<string>): (f: Option<bool>)
    ensures f.Some? <==> published.Some?
    ensures f == Some(true) <==> published == Some("true")
  {
    if published.Some? then Some(published.value == "true") else None
  }

  /** `getAllArticles`. */
  method GetAllArticles(table: ArticleTable, q: ListQuery) returns (reply: Reply)
    ensures reply == match FindAllResult(QueryFilters(q), table.rows)
      case None => Thrown(QueryFailed)
      case Some(rs) => Replied(200, None, ListingData(Listings(rs)), Some(|rs|))
  {
    var articles := table.FindAll(QueryFilters(q));
    if articles.None? {
      return Thrown(QueryFailed);
    }
    reply := Replied(200, None, ListingData(articles.value), Some(|articles.value|));
  }

  /** `getArticleBySlug`: 404 unless a published article has the slug; a hit counts a view. */
  method GetArticleBySlug(table: ArticleTable, slug: string) returns (reply: Reply)
    requires table.Valid()
    modifies table
    ensures table.Valid()
    ensures FirstPublished(old(table.rows), slug).None? ==> reply == Thrown(NotFound()) && table.rows == old(table.rows)
    ensures FirstPublished(old(table.rows), slug).Some? ==>
      var hit := FirstPublished(old(table.rows), slug).value;
      reply == Replied(200, None, ArticleData(hit), None) && table.rows == BumpView(old(table.rows), hit.id)
    ensures table.nextId == old(table.nextId)
  {
    var article := table.FindBySlug(slug);
    if article.None? {
      return Thrown(NotFound());
    }
    reply := Replied(200, None, ArticleData(article.value), None);
  }

  /** `getYearStats`. */
  method GetYearStats(table: ArticleTable) returns (reply: Reply)
    ensures reply == Replied(200, None, StatsData(YearStats(table.rows)), None)
  {
    var stats := table.GetYearStats();
    reply := Replied(200, None, StatsData(stats), None);
  }

  /** `getAllTags`. */
  method GetAllTags(table: ArticleTable) returns (reply: Reply)
    ensures reply.Replied? && reply.status == 200 && reply.data.TagsData?
    ensures forall t :: t in reply.data.tags <==> PublishedTag(table.rows, t)
    ensures Ordering.StrictlyAscending(reply.data.tags)
  {
    var tags := table.GetAllTags();
    reply := Replied(200, None, TagsData(tags), None);
  }

  /** `getAllArticlesForAdmin`. */
  method GetAllArticlesForAdmin(table: ArticleTable, published: Option<string>) returns (reply: Reply)
    ensures var rs := AdminResult(AdminFilter(published), table.rows);
      reply == Replied(200, None, RowsData(rs), Some(|rs|))
  {
    var articles := table.FindAllForAdmin(AdminFilter(published));
    reply := Replied(200, None, RowsData(articles), Some(|articles|));
  }

  /** `getArticleById`: 404 unless some row, published or not, has the id; an id that does
      not parse (`NaN`) matches no row. */
  method GetArticleById(table: ArticleTable, idText: string) returns (reply: Reply)
    ensures ParseInt(idText).None? ==> reply == Thrown(NotFound())
    ensures ParseInt(idText).Some? ==> reply == match RowWithId(table.rows, ParseInt(idText).value)
      case None => Thrown(NotFound())
      case Some(r) => Replied(200, None, ArticleData(r), None)
  {
    var id := ParseInt(idText);
    if id.None? {
      return Thrown(NotFound());
    }
    var article := table.FindById(id.value);
    if article.None? {
      return Thrown(NotFound());
    }
    reply := Replied(200, None, ArticleData(article.value), None);
  }

  /** `createArticle`: the duplicate check is `findBySlug`, so it sees only published articles
      and counts a view on the article it finds; otherwise the row is inserted, 201. */
  method CreateArticle(table: ArticleTable, data: NewArticle, now: int) returns (reply: Reply)
    requires table.Valid()
    modifies table
    ensures table.Valid()
    ensures FirstPublished(old(table.rows), data.slug).Some? ==>
      reply == Thrown(SlugTaken()) &&
      table.rows == BumpView(old(table.rows), FirstPublished(old(table.rows), data.slug).value.id) &&
      table.nextId == old(table.nextId)
    ensures FirstPublished(old(table.rows), data.slug).None? ==>
      reply == Replied(201, Some(CreatedMessage), IdData(old(table.nextId)), None) &&
      table.rows == old(table.rows) + [NewRow(data, old(table.nextId), now)] &&
      table.nextId == old(table.nextId) + 1
  {
    var existing := table.FindBySlug(data.slug);
    if existing.Some? {
      return Thrown(SlugTaken());
    }
    var articleId := table.Create(data, now);
    reply := Replied(201, Some(CreatedMessage), IdData(articleId), None);
  }

  /** The update checks the slug only when one is given, is non-empty and differs from the
      article's current slug. */
  predicate ChecksSlug(p: Patch, current: Row)
  {
    p.slug.Some? && p.slug.value != "" && p.slug.value != current.slug
  }

  /** `updateArticle`: 404 for an unknown id; 409 when the slug check finds a published
      article (counting a view on it); the model's throw for an empty patch; otherwise the
      row is patched. */
  method UpdateArticle(table: ArticleTable, idText: string, p: Patch) returns (reply: Reply)
    requires table.Valid()
    modifies table
    ensures table.Valid() && table.nextId == old(table.nextId)
    ensures ParseInt(idText).None? || RowWithId(old(table.rows), ParseInt(idText).value).None? ==>
      reply == Thrown(NotFound()) && table.rows == old(table.rows)
    ensures ParseInt(idText).Some? && RowWithId(old(table.rows), ParseInt(idText).value).Some? ==>
      var id := ParseInt(idText).value;
      var current := RowWithId(old(table.rows), id).value;
      if ChecksSlug(p, current) && FirstPublished(old(table.rows), p.slug.value).Some? then
        reply == Thrown(SlugTaken()) &&
        table.rows == BumpView(old(table.rows), FirstPublished(old(table.rows), p.slug.value).value.id)
      else if NothingDefined(p) then
        reply == Thrown(PlainError(NoFieldsMessage, None)) && table.rows == old(table.rows)
      else
        reply == Replied(200, Some(UpdatedMessage), NoData, None) && table.rows == PatchWhere(old(table.rows), id, p)
  {
    var id := ParseInt(idText);
    if id.None? {
      return Thrown(NotFound());
    }
    var existing := table.FindById(id.value);
    if existing.None? {
      return Thrown(NotFound());
    }
    if p.slug.Some? && p.slug.value != "" && p.slug.value != existing.value.slug {
      var duplicate := table.FindBySlug(p.slug.value);
      if duplicate.Some? {
        return Thrown(SlugTaken());
      }
    }
    var updated := table.Update(id.value, p);
    if updated.Threw? {
      return Thrown(updated.error);
    }
    if !updated.value {
      return Thrown(AppError(UpdateFailedMessage, 500, None));
    }
    reply := Replied(200, Some(UpdatedMessage), NoData, None);
  }

  /** `deleteArticle`: 404 unless a row had the id. */
  method DeleteArticle(table: ArticleTable, idText: string) returns (reply: Reply)
    requires table.Valid()
    modifies table
    ensures table.Valid() && table.nextId == old(table.nextId)
    ensures ParseInt(idText).None? ==> reply == Thrown(NotFound()) && table.rows == old(table.rows)
    ensures ParseInt(idText).Some? ==>
      var id := ParseInt(idText).value;
      table.rows == Where(old(table.rows), (x: Row) => x.id != id) &&
      reply == if exists x :: x in old(table.rows) && x.id == id
               then Replied(200, Some(DeletedMessage), NoData, None) else Thrown(NotFound())
  {
    var id := ParseInt(idText);
    if id.None? {
      return Thrown(NotFound());
    }
    var deleted := table.Delete(id.value);
    if !deleted {
      return Thrown(NotFound());
    }
    reply := Replied(200, Some(DeletedMessage), NoData, None);
  }

  /** `togglePublish`: 404 for an unknown id; otherwise an update of `published` alone, which
      throws "No fields to update" when the body has no `published`; the message follows the
      flag. */
  method TogglePublish(table: ArticleTable, idText: string, published: Option<bool>) returns (reply: Reply)
    requires table.Valid()
    modifies table
    ensures table.Valid() && table.nextId == old(table.nextId)
    ensures ParseInt(idText).None? || RowWithId(old(table.rows), ParseInt(idText).value).None? ==>
      reply == Thrown(NotFound()) && table.rows == old(table.rows)
    ensures ParseInt(idText).Some? && RowWithId(old(table.rows), ParseInt(idText).value).Some? ==>
      if published.None? then
        reply == Thrown(PlainError(NoFieldsMessage, None)) && table.rows == old(table.rows)
      else
        table.rows == PatchWhere(old(table.rows), ParseInt(idText).value, PublishPatch(published)) &&
        reply == Replied(200, Some(if published.value then PublishedMessage else UnpublishedMessage), NoData, None)
  {
    var id := ParseInt(idText);
    if id.None? {
      return Thrown(NotFound());
    }
    var article := table.FindById(id.value);
    if article.None? {
      return Thrown(NotFound());
    }
    PublishPatchEmpty(published);
    var outcome := table.Update(id.value, PublishPatch(published));
    if outcome.Threw? {
      return Thrown(outcome.error);
    }
    reply := Replied(200, Some(if published == Some(true) then PublishedMessage else UnpublishedMessage), NoData, None);
  }

  /** Exactly the published-only patch is empty when the body has no `published`. */
  lemma PublishPatchEmpty(published: Option<bool>)
    ensures NothingDefined(PublishPatch(published)) <==> published.None?
  {
    if published.Some? {
      assert Defined(PublishPatch(published), PublishedCol);
    }
  }

  /** An empty patch reaches the error handler as a plain error: a 500 whose message is
      hidden in production. */
  lemma EmptyPatchAnswered(env: Option<string>)
    ensures Answer(PlainError(NoFieldsMessage, None), env) ==
      (500, if env == Some("production") then MaskedMessage else NoFieldsMessage)
  {
  }

  /** The slug check looks only at published rows: an unpublished article with the slug does
      not stop a second article from taking it. */
  lemma UnpublishedSlugNotDetected(rows: seq<Row>, hidden: Row)
    requires hidden in rows && !hidden.published
    requires forall x :: x in rows && x.slug == hidden.slug ==> !x.published
    ensures FirstPublished(rows, hidden.slug).None?
  {
  }

  /** A published article with the slug is always found, so its slug cannot be taken twice
      through the checks. */
  lemma PublishedSlugDetected(rows: seq<Row>, taken: Row)
    requires taken in rows && taken.published
    ensures FirstPublished(rows, taken.slug).Some?
    ensures FirstPublished(rows, taken.slug).value.slug == taken.slug
  {
  }

  /** A failed duplicate check still costs the found article one view and changes nothing
      else. */
  lemma FailedCheckCountsView(rows: seq<Row>, slug: string)
    requires DistinctRowIds(rows)
    requires FirstPublished(rows, slug).Some?
    ensures var hit := FirstPublished(rows, slug).value;
      forall i :: 0 <= i < |rows| ==>
        BumpView(rows, hit.id)[i] == if rows[i] == hit then rows[i].(viewCount := rows[i].viewCount + 1) else rows[i]
  {
    var hit := FirstPublished(rows, slug).value;
    forall i | 0 <= i < |rows| ensures BumpView(rows, hit.id)[i] == if rows[i] == hit then rows[i].(viewCount := rows[i].viewCount + 1) else rows[i] {
      if rows[i].id == hit.id {
        var k :| 0 <= k < |rows| && rows[k] == hit;
        assert k == i;
      }
    }
  }
}
