/** The article model: the `articles` table as an object whose rows its static methods read
    and change, each method sending the statement the SQL modules give meaning to. */
module ArticleModel {
  import opened Wrappers
  import opened Ordering
  import opened ContentModel
  import opened ErrorHandling
  import opened ArticleSql
  import opened UpdateSql

  /** A call that returns a value or throws. */
  datatype Outcome<T> = Done(value: T) | Threw(error: Failure)

  /** The columns the public listing selects: no `video_url`, `content` or `published`. */
  datatype Listing = Listing(
    id: int,
    title: string,
    slug: string,
    year: int,
    conference: Option<string>,
    speaker: Option<string>,
    date: Option<string>,
    summary: Option<string>,
    tags: TagsColumn,
    thumbnail: Option<string>,
    viewCount: int,
    createdAt: int,
    updatedAt: int)

  function ListingOf(r: Row): Listing
  {
    Listing(r.id, r.title, r.slug, r.year, r.conference, r.speaker, r.date, r.summary, r.tags,
            r.thumbnail, r.viewCount, r.createdAt, r.updatedAt)
  }

  function Listings(rs: seq<Row>): (r: seq<Listing>)
    ensures |r| == |rs| && forall i :: 0 <= i < |rs| ==> r[i] == ListingOf(rs[i])
  {
    seq(|rs|, i requires 0 <= i < |rs| => ListingOf(rs[i]))
  }

  /** A request body for `create`. An optional text field that is absent or `null` is `None`;
      `tags` is `None` when absent or `null`; `content` is `None` for a JSON `null`. */
  datatype NewArticle = NewArticle(
    title: string,
    slug: string,
    year: int,
    conference: Option<string>,
    speaker: Option<string>,
    date: Option<string>,
    summary: Option<string>,
    tags: Option<seq<string>>,
    videoUrl: Option<string>,
    thumbnail: Option<string>,
    content: Option<ArticleContent>,
    published: Option<bool>)

  /** `value || null` for a text field: the empty string is falsy. */
  function OrNull(v: Option<string>): (r: Option<string>)
    ensures r.None? <==> v.None? || v.value == ""
    ensures r.Some? ==> r == v
  {
    if v.Some? && v.value != "" then v else None
  }

  /** The row `create` inserts, with the id and clock reading the database assigns; the view
      count starts at 0. */
  function NewRow(data: NewArticle, id: int, now: int): Row
  {
    Row(id, data.title, data.slug, data.year, OrNull(data.conference), OrNull(data.speaker),
        OrNull(data.date), OrNull(data.summary), TagArray(data.tags.GetOr([])), OrNull(data.videoUrl),
        OrNull(data.thumbnail), data.content, data.published == Some(true), 0, now, now)
  }

  /** `create`'s defaults: falsy optional text is stored as NULL, missing tags as `[]`, and
      `published` is false unless it is `true`. */
  lemma NewRowDefaults(data: NewArticle, id: int, now: int)
    ensures var r := NewRow(data, id, now);
      (r.conference.None? <==> data.conference.None? || data.conference.value == "") &&
      (r.speaker.None? <==> data.speaker.None? || data.speaker.value == "") &&
      (r.date.None? <==> data.date.None? || data.date.value == "") &&
      (r.summary.None? <==> data.summary.None? || data.summary.value == "") &&
      (r.videoUrl.None? <==> data.videoUrl.None? || data.videoUrl.value == "") &&
      (r.thumbnail.None? <==> data.thumbnail.None? || data.thumbnail.value == "") &&
      (data.tags.None? ==> r.tags == TagArray([])) &&
      (r.published <==> data.published == Some(true)) &&
      r.viewCount == 0 && r.id == id && r.title == data.title && r.slug == data.slug
  {
  }

  /** The ids of `rows` are pairwise different (the primary key). */
  predicate DistinctRowIds(rows: seq<Row>)
  {
    forall i, j :: 0 <= i < j < |rows| ==> rows[i].id != rows[j].id
  }

  lemma {:induction false} WhereDistinctIds(rows: seq<Row>, keep: Row -> bool)
    requires DistinctRowIds(rows)
    ensures DistinctRowIds(Where(rows, keep))
  {
    if |rows| > 0 {
      var init := rows[..|rows| - 1];
      var last := rows[|rows| - 1];
      assert DistinctRowIds(init);
      WhereDistinctIds(init, keep);
      var w := Where(init, keep);
      if keep(last) {
        forall i | 0 <= i < |w| ensures w[i].id != last.id {
          assert w[i] in init;
        }
      }
    }
  }

  /** `UPDATE articles SET view_count = view_count + 1 WHERE id = ?`. */
  function BumpView(rows: seq<Row>, id: int): (r: seq<Row>)
    ensures |r| == |rows|
    ensures forall i :: 0 <= i < |rows| ==>
      r[i] == if rows[i].id == id then rows[i].(viewCount := rows[i].viewCount + 1) else rows[i]
  {
    if |rows| == 0 then []
    else
      var last := rows[|rows| - 1];
      BumpView(rows[..|rows| - 1], id) + [if last.id == id then last.(viewCount := last.viewCount + 1) else last]
  }

  /** The first published row with the slug (`WHERE slug = ? AND published = true`, first
      result). */
  function FirstPublished(rows: seq<Row>, slug: string): (r: Option<Row>)
    ensures r.None? <==> forall x :: x in rows ==> !(x.slug == slug && x.published)
    ensures r.Some? ==> r.value in rows && r.value.slug == slug && r.value.published
  {
    var hits := Where(rows, (x: Row) => x.slug == slug && x.published);
    if |hits| == 0 then None
    else
      assert hits[0] in hits;
      Some(hits[0])
  }

  /** The row with the id, published or not (`SELECT * FROM articles WHERE id = ?`). */
  function RowWithId(rows: seq<Row>, id: int): (r: Option<Row>)
    ensures r.None? <==> forall x :: x in rows ==> x.id != id
    ensures r.Some? ==> r.value in rows && r.value.id == id
  {
    var hits := Where(rows, (x: Row) => x.id == id);
    if |hits| == 0 then None
    else
      assert hits[0] in hits;
      Some(hits[0])
  }

  /** A year and the number of published rows of that year. */
  datatype YearCount = YearCount(year: int, count: nat)

  /** Some published row has year `y`. */
  predicate HasPublishedYear(rows: seq<Row>, y: int)
  {
    exists x :: x in rows && x.published && x.year == y
  }

  /** The number of published rows of year `y`. */
  function YearCountOf(rows: seq<Row>, y: int): (n: nat)
    ensures n > 0 <==> HasPublishedYear(rows, y)
  {
    var hits := Where(rows, (x: Row) => x.published && x.year == y);
    assert |hits| > 0 ==> hits[0] in hits;
    |hits|
  }

  /** The years of the published rows, one per row. */
  function PublishedYears(rows: seq<Row>): (ys: seq<int>)
    ensures forall y :: y in ys <==> HasPublishedYear(rows, y)
  {
    var pub := Where(rows, (x: Row) => x.published);
    var ys := seq(|pub|, i requires 0 <= i < |pub| => pub[i].year);
    forall y ensures y in ys <==> HasPublishedYear(rows, y) {
      if y in ys {
        var i :| 0 <= i < |pub| && ys[i] == y;
        assert pub[i] in pub;
      }
      if HasPublishedYear(rows, y) {
        var x :| x in rows && x.published && x.year == y;
        assert x in pub;
        var i :| 0 <= i < |pub| && pub[i] == x;
        assert ys[i] == y;
      }
    }
    ys
  }

  /** The years of a statistics list, in order. */
  function StatYears(r: seq<YearCount>): (ys: seq<int>)
    ensures |ys| == |r| && forall i :: 0 <= i < |r| ==> ys[i] == r[i].year
  {
    seq(|r|, i requires 0 <= i < |r| => r[i].year)
  }

  /** `GROUP BY year ORDER BY year DESC` over the published rows: one entry per year that
      has a published row, largest first, each with its count. */
  function YearStats(rows: seq<Row>): (r: seq<YearCount>)
    ensures StrictlyDescending(StatYears(r))
    ensures forall y :: y in StatYears(r) <==> HasPublishedYear(rows, y)
    ensures forall i :: 0 <= i < |r| ==> r[i].count == YearCountOf(rows, r[i].year) && r[i].count > 0
  {
    var ys := DistinctDescending(PublishedYears(rows));
    var r := seq(|ys|, i requires 0 <= i < |ys| => YearCount(ys[i], YearCountOf(rows, ys[i])));
    assert StatYears(r) == ys;
    assert forall i :: 0 <= i < |ys| ==> ys[i] in ys;
    r
  }

  /** A tag of some published row whose tags column is an array. */
  predicate PublishedTag(rows: seq<Row>, t: string)
  {
    exists k :: 0 <= k < |rows| && rows[k].published && HasTag(rows[k], t)
  }

  /** A tag is published exactly when some row of the published rows carries it. */
  lemma PublishedResultsTags(rows: seq<Row>, results: seq<Row>)
    requires forall x :: x in results <==> x in rows && x.published
    ensures forall t :: PublishedTag(rows, t) <==> exists k :: 0 <= k < |results| && HasTag(results[k], t)
  {
    forall t ensures PublishedTag(rows, t) <==> exists k :: 0 <= k < |results| && HasTag(results[k], t) {
      if PublishedTag(rows, t) {
        var k :| 0 <= k < |rows| && rows[k].published && HasTag(rows[k], t);
        assert rows[k] in results;
        var m :| 0 <= m < |results| && results[m] == rows[k];
      }
      if exists k :: 0 <= k < |results| && HasTag(results[k], t) {
        var k :| 0 <= k < |results| && HasTag(results[k], t);
        assert results[k] in results;
        var m :| 0 <= m < |rows| && rows[m] == results[k];
      }
    }
  }

  /** The tag arrays of the published rows, concatenated in table order. */
  function PublishedTagList(rows: seq<Row>): (r: seq<string>)
    ensures forall t :: t in r <==> PublishedTag(rows, t)
  {
    if |rows| == 0 then []
    else
      var first := if rows[0].published && rows[0].tags.TagArray? then rows[0].tags.tags else [];
      var rest := PublishedTagList(rows[1..]);
      assert forall t :: PublishedTag(rows, t) <==> t in first || PublishedTag(rows[1..], t) by {
        forall t ensures PublishedTag(rows, t) <==> t in first || PublishedTag(rows[1..], t) {
          if PublishedTag(rows, t) && t !in first {
            var k :| 0 <= k < |rows| && rows[k].published && HasTag(rows[k], t);
            assert rows[1..][k - 1] == rows[k];
          }
          if PublishedTag(rows[1..], t) {
            var k :| 0 <= k < |rows[1..]| && rows[1..][k].published && HasTag(rows[1..][k], t);
            assert rows[k + 1] == rows[1..][k];
          }
        }
      }
      first + rest
  }

  const NoFieldsMessage := "No fields to update"

  /** The `articles` table and the id counter of its AUTO_INCREMENT key. */
  class ArticleTable {
    var rows: seq<Row>
    var nextId: int

    /** Ids are unique and below the counter, which starts at 1. */
    ghost predicate Valid()
      reads this
    {
      DistinctRowIds(rows) && nextId >= 1 && forall x :: x in rows ==> 1 <= x.id < nextId
    }

    constructor ()
      ensures Valid() && rows == [] && nextId == 1
    {
      rows := [];
      nextId := 1;
    }

    /** `findAll`: the listing statement run over the table, projected to the listing
        columns; `None` when the database refuses it (a negative LIMIT or OFFSET). */
    method FindAll(f: Filters) returns (result: Option<seq<Listing>>)
      ensures result == match FindAllResult(f, rows)
        case None => None
        case Some(rs) => Some(Listings(rs))
    {
      var sql, params := BuildFindAll(f);
      var fetched := Run(sql, params, rows);
      if fetched.None? {
        return None;
      }
      result := Some(Listings(fetched.value));
    }

    /** `incrementViewCount`. */
    method IncrementViewCount(id: int)
      requires Valid()
      modifies this
      ensures Valid()
      ensures rows == BumpView(old(rows), id) && nextId == old(nextId)
    {
      rows := BumpView(rows, id);
    }

    /** `findBySlug`: the first published row with the slug, as it was read; on a hit its
        stored view count is then incremented. */
    method FindBySlug(slug: string) returns (article: Option<Row>)
      requires Valid()
      modifies this
      ensures Valid()
      ensures article == FirstPublished(old(rows), slug)
      ensures rows == (if article.Some? then BumpView(old(rows), article.value.id) else old(rows))
      ensures nextId == old(nextId)
    {
      var results := Where(rows, (x: Row) => x.slug == slug && x.published);
      if |results| == 0 {
        return None;
      }
      article := Some(results[0]);
      IncrementViewCount(results[0].id);
    }

    /** `findById`: published or not. */
    method FindById(id: int) returns (article: Option<Row>)
      ensures article == RowWithId(rows, id)
    {
      var results := Where(rows, (x: Row) => x.id == id);
      if |results| == 0 {
        return None;
      }
      article := Some(results[0]);
    }

    /** `create`: inserts the row with the defaults and returns its new id. */
    method Create(data: NewArticle, now: int) returns (insertId: int)
      requires Valid()
      modifies this
      ensures Valid()
      ensures insertId == old(nextId)
      ensures rows == old(rows) + [NewRow(data, insertId, now)] && nextId == old(nextId) + 1
    {
      insertId := nextId;
      rows := rows + [NewRow(data, insertId, now)];
      nextId := nextId + 1;
    }

    /** `update`: with no field defined it throws "No fields to update" and sends nothing;
        otherwise it patches the row with the id and reports whether one matched. */
    method Update(id: int, p: Patch) returns (outcome: Outcome<bool>)
      requires Valid()
      modifies this
      ensures Valid()
      ensures NothingDefined(p) ==> outcome == Threw(PlainError(NoFieldsMessage, None)) && rows == old(rows)
      ensures !NothingDefined(p) ==>
        outcome == Done(exists x :: x in old(rows) && x.id == id) && rows == PatchWhere(old(rows), id, p)
      ensures nextId == old(nextId)
    {
      var st, sql := BuildUpdate(id, p);
      UpdateForShape(id, p);
      if st.None? {
        return Threw(PlainError(NoFieldsMessage, None));
      }
      UpdateMeaning(id, p, rows);
      var result := ExecuteUpdate(st.value.columns, st.value.params, rows).value;
      PatchKeepsIds(rows, id, p);
      rows := result.0;
      outcome := Done(result.1 > 0);
    }

    /** `delete`: removes the row with the id and reports whether there was one. */
    method Delete(id: int) returns (deleted: bool)
      requires Valid()
      modifies this
      ensures Valid()
      ensures rows == Where(old(rows), (x: Row) => x.id != id) && nextId == old(nextId)
      ensures deleted <==> exists x :: x in old(rows) && x.id == id
    {
      var affected := MatchCount(rows, id);
      WhereDistinctIds(rows, (x: Row) => x.id != id);
      rows := Where(rows, (x: Row) => x.id != id);
      deleted := affected > 0;
    }

    /** `getYearStats`. */
    method GetYearStats() returns (stats: seq<YearCount>)
      ensures stats == YearStats(rows)
    {
      stats := YearStats(rows);
    }

    /** `getAllTags`: collect the tags of the published rows' arrays into a set (in first
        insertion order), then sort it. */
    method GetAllTags() returns (tags: seq<string>)
      ensures StrictlyAscending(tags)
      ensures forall t :: t in tags <==> PublishedTag(rows, t)
      ensures tags == DistinctAscending(PublishedTagList(rows))
    {
      var results := Where(rows, (x: Row) => x.published);
      var tagSet: seq<string> := [];
      for i := 0 to |results|
        invariant NoDuplicates(tagSet)
        invariant forall t :: t in tagSet <==> exists k :: 0 <= k < i && HasTag(results[k], t)
      {
        if results[i].tags.TagArray? {
          var rowTags := results[i].tags.tags;
          for j := 0 to |rowTags|
            invariant NoDuplicates(tagSet)
            invariant forall t :: t in tagSet <==> (exists k :: 0 <= k < i && HasTag(results[k], t)) || t in rowTags[..j]
          {
            assert rowTags[..j + 1] == rowTags[..j] + [rowTags[j]];
            if rowTags[j] !in tagSet {
              tagSet := tagSet + [rowTags[j]];
            }
          }
          assert rowTags[..|rowTags|] == rowTags;
        }
      }
      tags := SortBy(tagSet, LexLeq);
      SortDistinctStrings(tagSet);
      PublishedResultsTags(rows, results);
      AscendingUnique(tags, DistinctAscending(PublishedTagList(rows)));
    }

    /** `findAllForAdmin`. */
    method FindAllForAdmin(published: Option<bool>) returns (result: seq<Row>)
      ensures result == AdminResult(published, rows)
    {
      var sql, params := BuildFindAllForAdmin(published);
      result := Run(sql, params, rows).value;
    }
  }

  /** Patching keeps every row's id, so the key stays valid. */
  lemma PatchKeepsIds(rows: seq<Row>, id: int, p: Patch)
    ensures DistinctRowIds(rows) ==> DistinctRowIds(PatchWhere(rows, id, p))
    ensures forall x :: x in PatchWhere(rows, id, p) ==> exists y :: y in rows && y.id == x.id
  {
    var r := PatchWhere(rows, id, p);
    forall x | x in r ensures exists y :: y in rows && y.id == x.id {
      var i :| 0 <= i < |r| && r[i] == x;
      assert rows[i] in rows;
    }
  }
}
