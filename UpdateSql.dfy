/** The article model's UPDATE statement: which columns a patch sets, the parameters bound to
    them, and what the statement does to the table. */
module UpdateSql {
  import opened Wrappers
  import opened Strings
  import opened ContentModel
  import opened ArticleSql

  /** The columns an update may set. */
  datatype Column =
    | TitleCol | SlugCol | YearCol | ConferenceCol | SpeakerCol | DateCol | SummaryCol
    | TagsCol | VideoUrlCol | ThumbnailCol | ContentCol | PublishedCol

  /** The fixed order in which the update tests the patch's fields. */
  const Columns: seq<Column> :=
    [TitleCol, SlugCol, YearCol, ConferenceCol, SpeakerCol, DateCol, SummaryCol,
     TagsCol, VideoUrlCol, ThumbnailCol, ContentCol, PublishedCol]

  function ColumnName(c: Column): string
  {
    match c
    case TitleCol => "title"
    case SlugCol => "slug"
    case YearCol => "year"
    case ConferenceCol => "conference"
    case SpeakerCol => "speaker"
    case DateCol => "date"
    case SummaryCol => "summary"
    case TagsCol => "tags"
    case VideoUrlCol => "video_url"
    case ThumbnailCol => "thumbnail"
    case ContentCol => "content"
    case PublishedCol => "published"
  }

  /** The position of a column in `Columns`. */
  function ColumnIndex(c: Column): (i: nat)
    ensures i < |Columns| && Columns[i] == c
  {
    match c
    case TitleCol => 0
    case SlugCol => 1
    case YearCol => 2
    case ConferenceCol => 3
    case SpeakerCol => 4
    case DateCol => 5
    case SummaryCol => 6
    case TagsCol => 7
    case VideoUrlCol => 8
    case ThumbnailCol => 9
    case ContentCol => 10
    case PublishedCol => 11
  }

  /** Every column is listed once. */
  lemma ColumnsComplete()
    ensures forall c: Column :: c in Columns
    ensures NoRepeats(Columns)
  {
    forall c: Column ensures c in Columns {
      assert Columns[ColumnIndex(c)] == c;
    }
  }

  /** A request body for an update. The outer `None` is a field that is `undefined` and so
      left alone; for a nullable column the inner `None` is an explicit `null`. */
  datatype Patch = Patch(
    title: Option<string>,
    slug: Option<string>,
    year: Option<int>,
    conference: Option<Option<string>>,
    speaker: Option<Option<string>>,
    date: Option<Option<string>>,
    summary: Option<Option<string>>,
    tags: Option<TagsColumn>,
    videoUrl: Option<Option<string>>,
    thumbnail: Option<Option<string>>,
    content: Option<Option<ArticleContent>>,
    published: Option<bool>)

  /** The patch that sets only `published` (`{ published }`). */
  function PublishPatch(published: Option<bool>): (p: Patch)
    ensures p.published == published
  {
    Patch(None, None, None, None, None, None, None, None, None, None, None, published)
  }

  /** The patch's field for `c` is not `undefined`. */
  predicate Defined(p: Patch, c: Column)
  {
    match c
    case TitleCol => p.title.Some?
    case SlugCol => p.slug.Some?
    case YearCol => p.year.Some?
    case ConferenceCol => p.conference.Some?
    case SpeakerCol => p.speaker.Some?
    case DateCol => p.date.Some?
    case SummaryCol => p.summary.Some?
    case TagsCol => p.tags.Some?
    case VideoUrlCol => p.videoUrl.Some?
    case ThumbnailCol => p.thumbnail.Some?
    case ContentCol => p.content.Some?
    case PublishedCol => p.published.Some?
  }

  /** A nullable text value as a parameter. */
  function NullableText(v: Option<string>): Param
  {
    if v.Some? then TextParam(v.value) else NullParam
  }

  /** The parameter pushed for a defined field. */
  function Bound(p: Patch, c: Column): Param
    requires Defined(p, c)
  {
    match c
    case TitleCol => TextParam(p.title.value)
    case SlugCol => TextParam(p.slug.value)
    case YearCol => IntParam(p.year.value)
    case ConferenceCol => NullableText(p.conference.value)
    case SpeakerCol => NullableText(p.speaker.value)
    case DateCol => NullableText(p.date.value)
    case SummaryCol => NullableText(p.summary.value)
    case TagsCol => TagsParam(p.tags.value)
    case VideoUrlCol => NullableText(p.videoUrl.value)
    case ThumbnailCol => NullableText(p.thumbnail.value)
    case ContentCol => ContentParam(p.content.value)
    case PublishedCol => FlagParam(p.published.value)
  }

  /** A row's value in column `c`, in the form of a parameter. */
  function ColumnValue(r: Row, c: Column): Param
  {
    match c
    case TitleCol => TextParam(r.title)
    case SlugCol => TextParam(r.slug)
    case YearCol => IntParam(r.year)
    case ConferenceCol => NullableText(r.conference)
    case SpeakerCol => NullableText(r.speaker)
    case DateCol => NullableText(r.date)
    case SummaryCol => NullableText(r.summary)
    case TagsCol => TagsParam(r.tags)
    case VideoUrlCol => NullableText(r.videoUrl)
    case ThumbnailCol => NullableText(r.thumbnail)
    case ContentCol => ContentParam(r.content)
    case PublishedCol => FlagParam(r.published)
  }

  /** The kinds of value a column takes: title, slug and year refuse NULL. */
  predicate Fits(c: Column, v: Param)
  {
    match c
    case TitleCol => v.TextParam?
    case SlugCol => v.TextParam?
    case YearCol => v.IntParam?
    case TagsCol => v.TagsParam?
    case ContentCol => v.ContentParam?
    case PublishedCol => v.FlagParam?
    case _ => v.TextParam? || v.NullParam?
  }

  /** The columns other than those an update may set: id, view count and the timestamps. */
  predicate SameIdentity(a: Row, b: Row)
  {
    a.id == b.id && a.viewCount == b.viewCount && a.createdAt == b.createdAt && a.updatedAt == b.updatedAt
  }

  /** `c = ?` with `v` bound: the database writes `v` into column `c` and nothing else, or
      refuses a value of the wrong kind. */
  function SetColumn(r: Row, c: Column, v: Param): (r': Option<Row>)
    ensures r'.Some? <==> Fits(c, v)
    ensures r'.Some? ==> ColumnValue(r'.value, c) == v && SameIdentity(r'.value, r)
    ensures r'.Some? ==> forall d :: d != c ==> ColumnValue(r'.value, d) == ColumnValue(r, d)
  {
    if !Fits(c, v) then None
    else
      match c
      case TitleCol => Some(r.(title := v.s))
      case SlugCol => Some(r.(slug := v.s))
      case YearCol => Some(r.(year := v.n))
      case ConferenceCol => Some(r.(conference := if v.TextParam? then Some(v.s) else None))
      case SpeakerCol => Some(r.(speaker := if v.TextParam? then Some(v.s) else None))
      case DateCol => Some(r.(date := if v.TextParam? then Some(v.s) else None))
      case SummaryCol => Some(r.(summary := if v.TextParam? then Some(v.s) else None))
      case TagsCol => Some(r.(tags := v.tags))
      case VideoUrlCol => Some(r.(videoUrl := if v.TextParam? then Some(v.s) else None))
      case ThumbnailCol => Some(r.(thumbnail := if v.TextParam? then Some(v.s) else None))
      case ContentCol => Some(r.(content := v.content))
      case PublishedCol => Some(r.(published := v.b))
  }

  /** The SET list applied left to right. */
  function Assignments(r: Row, cs: seq<Column>, ps: seq<Param>): Option<Row>
    requires |cs| == |ps|
  {
    if |cs| == 0 then Some(r)
    else
      match Assignments(r, cs[..|cs| - 1], ps[..|ps| - 1])
      case None => None
      case Some(r0) => SetColumn(r0, cs[|cs| - 1], ps[|ps| - 1])
  }

  /** The SET list applied to every row whose id is `id`. */
  function UpdateRows(rows: seq<Row>, cs: seq<Column>, ps: seq<Param>, id: int): Option<seq<Row>>
    requires |cs| == |ps|
  {
    if |rows| == 0 then Some([])
    else
      var last := rows[|rows| - 1];
      match UpdateRows(rows[..|rows| - 1], cs, ps, id)
      case None => None
      case Some(init) =>
        if last.id != id then Some(init + [last])
        else match Assignments(last, cs, ps)
          case None => None
          case Some(r) => Some(init + [r])
  }

  /** The number of rows whose id is `id`. */
  function MatchCount(rows: seq<Row>, id: int): (n: nat)
    ensures n > 0 <==> exists x :: x in rows && x.id == id
  {
    if |rows| == 0 then 0
    else
      var init := rows[..|rows| - 1];
      assert rows == init + [rows[|rows| - 1]];
      MatchCount(init, id) + (if rows[|rows| - 1].id == id then 1 else 0)
  }

  /** `UPDATE articles SET c1 = ?, … WHERE id = ?` with the SET parameters followed by the
      id: the new table and the affected-row count (the driver counts matched rows). `None`
      is a statement the database refuses: an empty SET list, a wrong parameter count or
      kind. */
  function ExecuteUpdate(cs: seq<Column>, ps: seq<Param>, rows: seq<Row>): Option<(seq<Row>, nat)>
  {
    if |cs| == 0 || |ps| != |cs| + 1 || !ps[|cs|].IntParam? then None
    else
      match UpdateRows(rows, cs, ps[..|cs|], ps[|cs|].n)
      case None => None
      case Some(rs) => Some((rs, MatchCount(rows, ps[|cs|].n)))
  }

  /** The SQL text of the statement. */
  function UpdateText(cs: seq<Column>): string
  {
    "UPDATE articles SET " + Join(AssignmentTexts(cs), ", ") + " WHERE id = ?"
  }

  function AssignmentTexts(cs: seq<Column>): (r: seq<string>)
    ensures |r| == |cs|
    ensures forall i :: 0 <= i < |cs| ==> r[i] == ColumnName(cs[i]) + " = ?"
  {
    if |cs| == 0 then [] else AssignmentTexts(cs[..|cs| - 1]) + [ColumnName(cs[|cs| - 1]) + " = ?"]
  }

  /** The defined columns among `cs`, in order. */
  function DefinedAmong(p: Patch, cs: seq<Column>): (r: seq<Column>)
    ensures forall c :: c in r <==> c in cs && Defined(p, c)
  {
    if |cs| == 0 then []
    else
      var init := DefinedAmong(p, cs[..|cs| - 1]);
      assert cs == cs[..|cs| - 1] + [cs[|cs| - 1]];
      if Defined(p, cs[|cs| - 1]) then init + [cs[|cs| - 1]] else init
  }

  /** The parameters bound for the defined columns among `cs`, in the same order. */
  function BoundAmong(p: Patch, cs: seq<Column>): (r: seq<Param>)
    ensures |r| == |DefinedAmong(p, cs)|
    ensures forall i :: 0 <= i < |r| ==> Defined(p, DefinedAmong(p, cs)[i]) && r[i] == Bound(p, DefinedAmong(p, cs)[i])
  {
    if |cs| == 0 then []
    else
      var c := cs[|cs| - 1];
      var init := BoundAmong(p, cs[..|cs| - 1]);
      if Defined(p, c) then
        assert DefinedAmong(p, cs) == DefinedAmong(p, cs[..|cs| - 1]) + [c];
        assert c in cs;
        init + [Bound(p, c)]
      else init
  }

  /** A built UPDATE: the SET columns and all parameters (the values, then the id). */
  datatype UpdateStatement = UpdateStatement(columns: seq<Column>, params: seq<Param>)

  /** The reference meaning of a patch on one row: every defined field overrides, every other
      column is kept. */
  function Patched(r: Row, p: Patch): Row
  {
    r.(title := p.title.GetOr(r.title),
       slug := p.slug.GetOr(r.slug),
       year := p.year.GetOr(r.year),
       conference := p.conference.GetOr(r.conference),
       speaker := p.speaker.GetOr(r.speaker),
       date := p.date.GetOr(r.date),
       summary := p.summary.GetOr(r.summary),
       tags := p.tags.GetOr(r.tags),
       videoUrl := p.videoUrl.GetOr(r.videoUrl),
       thumbnail := p.thumbnail.GetOr(r.thumbnail),
       content := p.content.GetOr(r.content),
       published := p.published.GetOr(r.published))
  }

  /** Column by column, a patched row holds the bound value where the field is defined and
      its old value elsewhere; id, view count and timestamps are kept. */
  lemma PatchedColumns(r: Row, p: Patch)
    ensures SameIdentity(Patched(r, p), r)
    ensures forall c :: ColumnValue(Patched(r, p), c) == (if Defined(p, c) then Bound(p, c) else ColumnValue(r, c))
  {
    forall c ensures ColumnValue(Patched(r, p), c) == (if Defined(p, c) then Bound(p, c) else ColumnValue(r, c)) {
    }
  }

  /** A row is determined by its id, view count, timestamps and settable columns. */
  lemma RowsAgree(a: Row, b: Row)
    requires SameIdentity(a, b)
    requires forall c :: ColumnValue(a, c) == ColumnValue(b, c)
    ensures a == b
  {
    assert ColumnValue(a, TitleCol) == ColumnValue(b, TitleCol);
    assert ColumnValue(a, SlugCol) == ColumnValue(b, SlugCol);
    assert ColumnValue(a, YearCol) == ColumnValue(b, YearCol);
    assert ColumnValue(a, ConferenceCol) == ColumnValue(b, ConferenceCol);
    assert ColumnValue(a, SpeakerCol) == ColumnValue(b, SpeakerCol);
    assert ColumnValue(a, DateCol) == ColumnValue(b, DateCol);
    assert ColumnValue(a, SummaryCol) == ColumnValue(b, SummaryCol);
    assert ColumnValue(a, TagsCol) == ColumnValue(b, TagsCol);
    assert ColumnValue(a, VideoUrlCol) == ColumnValue(b, VideoUrlCol);
    assert ColumnValue(a, ThumbnailCol) == ColumnValue(b, ThumbnailCol);
    assert ColumnValue(a, ContentCol) == ColumnValue(b, ContentCol);
    assert ColumnValue(a, PublishedCol) == ColumnValue(b, PublishedCol);
  }

  predicate NoRepeats(cs: seq<Column>)
  {
    forall i, j :: 0 <= i < j < |cs| ==> cs[i] != cs[j]
  }

  /** Applying the defined columns among distinct `cs` writes exactly those columns, each with
      its bound value. */
  lemma {:induction false} AssignDefined(r: Row, p: Patch, cs: seq<Column>)
    requires NoRepeats(cs)
    ensures Assignments(r, DefinedAmong(p, cs), BoundAmong(p, cs)).Some?
    ensures SameIdentity(Assignments(r, DefinedAmong(p, cs), BoundAmong(p, cs)).value, r)
    ensures forall d ::
              ColumnValue(Assignments(r, DefinedAmong(p, cs), BoundAmong(p, cs)).value, d) ==
              if d in cs && Defined(p, d) then Bound(p, d) else ColumnValue(r, d)
  {
    if |cs| > 0 {
      var init := cs[..|cs| - 1];
      var c := cs[|cs| - 1];
      assert NoRepeats(init);
      AssignDefined(r, p, init);
      assert cs == init + [c];
      assert c !in init;
      if Defined(p, c) {
        var ds := DefinedAmong(p, init);
        var bs := BoundAmong(p, init);
        assert DefinedAmong(p, cs) == ds + [c];
        assert BoundAmong(p, cs) == bs + [Bound(p, c)];
        assert (ds + [c])[..|ds|] == ds;
        assert (bs + [Bound(p, c)])[..|bs|] == bs;
        var r0 := Assignments(r, ds, bs).value;
        assert Assignments(r, DefinedAmong(p, cs), BoundAmong(p, cs)) == SetColumn(r0, c, Bound(p, c));
        BoundFits(p, c);
      }
    }
  }

  /** A bound value always has its column's kind. */
  lemma BoundFits(p: Patch, c: Column)
    requires Defined(p, c)
    ensures Fits(c, Bound(p, c))
  {
  }

  /** So the SET list of a patch turns a row into the patched row. */
  lemma AssignmentsPatch(r: Row, p: Patch)
    ensures Assignments(r, DefinedAmong(p, Columns), BoundAmong(p, Columns)) == Some(Patched(r, p))
  {
    ColumnsComplete();
    AssignDefined(r, p, Columns);
    PatchedColumns(r, p);
    RowsAgree(Assignments(r, DefinedAmong(p, Columns), BoundAmong(p, Columns)).value, Patched(r, p));
  }

  /** The reference meaning on a table: the rows whose id is `id` are patched, the others kept. */
  function PatchWhere(rows: seq<Row>, id: int, p: Patch): (r: seq<Row>)
    ensures |r| == |rows|
    ensures forall i :: 0 <= i < |rows| ==> r[i] == if rows[i].id == id then Patched(rows[i], p) else rows[i]
  {
    if |rows| == 0 then []
    else
      var last := rows[|rows| - 1];
      PatchWhere(rows[..|rows| - 1], id, p) + [if last.id == id then Patched(last, p) else last]
  }

  lemma {:induction false} UpdateRowsPatch(rows: seq<Row>, id: int, p: Patch)
    ensures UpdateRows(rows, DefinedAmong(p, Columns), BoundAmong(p, Columns), id) == Some(PatchWhere(rows, id, p))
  {
    if |rows| > 0 {
      UpdateRowsPatch(rows[..|rows| - 1], id, p);
      AssignmentsPatch(rows[|rows| - 1], p);
    }
  }

  /** The patch sets no field at all. */
  predicate NothingDefined(p: Patch)
  {
    forall c :: !Defined(p, c)
  }

  /** The statement `update` sends for `id` and `p`: `None` is the "No fields to update" throw. */
  function UpdateFor(id: int, p: Patch): Option<UpdateStatement>
  {
    var cs := DefinedAmong(p, Columns);
    if |cs| == 0 then None else Some(UpdateStatement(cs, BoundAmong(p, Columns) + [IntParam(id)]))
  }

  /** The statement is built exactly when some field is defined; its SET columns are the
      defined ones in the fixed order, each once, and its parameters are their values followed
      by the id. */
  lemma UpdateForShape(id: int, p: Patch)
    ensures UpdateFor(id, p).None? <==> NothingDefined(p)
    ensures UpdateFor(id, p).Some? ==>
      var st := UpdateFor(id, p).value;
      (forall c :: c in st.columns <==> Defined(p, c)) &&
      NoRepeats(st.columns) &&
      |st.params| == |st.columns| + 1 &&
      st.params[|st.columns|] == IntParam(id) &&
      forall i :: 0 <= i < |st.columns| ==> st.params[i] == Bound(p, st.columns[i])
  {
    ColumnsComplete();
    if NothingDefined(p) {
      if |DefinedAmong(p, Columns)| > 0 {
        assert DefinedAmong(p, Columns)[0] in DefinedAmong(p, Columns);
      }
    } else {
      var c :| Defined(p, c);
      assert c in DefinedAmong(p, Columns);
      DefinedAmongNoRepeats(p, Columns);
    }
  }

  lemma {:induction false} DefinedAmongNoRepeats(p: Patch, cs: seq<Column>)
    requires NoRepeats(cs)
    ensures NoRepeats(DefinedAmong(p, cs))
  {
    if |cs| > 0 {
      var init := cs[..|cs| - 1];
      assert NoRepeats(init);
      DefinedAmongNoRepeats(p, init);
      assert cs == init + [cs[|cs| - 1]];
      assert cs[|cs| - 1] !in init;
    }
  }

  /** Running the built statement patches exactly the rows with that id and reports how many
      there were. */
  lemma UpdateMeaning(id: int, p: Patch, rows: seq<Row>)
    requires UpdateFor(id, p).Some?
    ensures ExecuteUpdate(UpdateFor(id, p).value.columns, UpdateFor(id, p).value.params, rows)
      == Some((PatchWhere(rows, id, p), MatchCount(rows, id)))
  {
    var cs := DefinedAmong(p, Columns);
    var ps := BoundAmong(p, Columns) + [IntParam(id)];
    assert ps[..|cs|] == BoundAmong(p, Columns);
    UpdateRowsPatch(rows, id, p);
  }

  /** `update`'s assembly: each of the twelve fields, in the fixed order, adds its column and
      parameter when it is defined; no field is the "No fields to update" error; otherwise the
      id is pushed last and the SET list joined into the statement text. */
  method BuildUpdate(id: int, p: Patch) returns (st: Option<UpdateStatement>, sql: string)
    ensures st == UpdateFor(id, p)
    ensures st.Some? ==> sql == UpdateText(st.value.columns)
  {
    var fields: seq<Column> := [];
    var params: seq<Param> := [];
    for i := 0 to |Columns|
      invariant fields == DefinedAmong(p, Columns[..i])
      invariant params == BoundAmong(p, Columns[..i])
    {
      assert Columns[..i + 1][..i] == Columns[..i];
      if Defined(p, Columns[i]) {
        fields := fields + [Columns[i]];
        params := params + [Bound(p, Columns[i])];
      }
    }
    assert Columns[..|Columns|] == Columns;
    if |fields| == 0 {
      return None, "";
    }
    params := params + [IntParam(id)];
    sql := UpdateText(fields);
    st := Some(UpdateStatement(fields, params));
  }
}
