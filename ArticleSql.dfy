/** The `articles` table as rows, the SQL statements the article model sends, and their
    meaning: which rows a SELECT returns in which order, and what an UPDATE writes. */
module ArticleSql {
  import opened Wrappers
  import opened Strings
  import opened Ordering
  import opened ContentModel

  /** The JSON `tags` column: an array of strings, or `null`. */
  datatype TagsColumn = TagArray(tags: seq<string>) | NullTags

  /** One stored row. Nullable columns are `Option`s; `date` is the `YYYY-MM-DD` text of the
      DATE column; the timestamps are opaque readings of the database clock. */
  datatype Row = Row(
    id: int,
    title: string,
    slug: string,
    year: int,
    conference: Option<string>,
    speaker: Option<string>,
    date: Option<string>,
    summary: Option<string>,
    tags: TagsColumn,
    videoUrl: Option<string>,
    thumbnail: Option<string>,
    content: Option<ArticleContent>,
    published: bool,
    viewCount: int,
    createdAt: int,
    updatedAt: int)

  /** `JSON_CONTAINS(tags, JSON.stringify(tag))`: the column is an array holding `tag`. */
  predicate HasTag(r: Row, tag: string)
  {
    r.tags.TagArray? && tag in r.tags.tags
  }

  /** The rows of `rows` that satisfy `keep`, in table order (a WHERE condition). */
  function Where(rows: seq<Row>, keep: Row -> bool): (r: seq<Row>)
    ensures |r| <= |rows|
    ensures forall x :: x in r <==> x in rows && keep(x)
    ensures multiset(r) <= multiset(rows)
  {
    if |rows| == 0 then []
    else
      var init := Where(rows[..|rows| - 1], keep);
      assert rows == rows[..|rows| - 1] + [rows[|rows| - 1]];
      if keep(rows[|rows| - 1]) then init + [rows[|rows| - 1]] else init
  }

  /** Two conditions in a row select what their conjunction selects. */
  lemma {:induction false} WhereWhere(rows: seq<Row>, p: Row -> bool, q: Row -> bool, both: Row -> bool)
    requires forall x :: both(x) == (p(x) && q(x))
    ensures Where(Where(rows, p), q) == Where(rows, both)
  {
    if |rows| > 0 {
      var init := rows[..|rows| - 1];
      var last := rows[|rows| - 1];
      WhereWhere(init, p, q, both);
      if p(last) {
        assert Where(rows, p) == Where(init, p) + [last];
        assert (Where(init, p) + [last])[..|Where(init, p)|] == Where(init, p);
      }
    }
  }

  /** A condition that holds of every row selects them all. */
  lemma {:induction false} WhereAll(rows: seq<Row>, keep: Row -> bool)
    requires forall x :: x in rows ==> keep(x)
    ensures Where(rows, keep) == rows
  {
    if |rows| > 0 {
      var init, last := rows[..|rows| - 1], rows[|rows| - 1];
      assert rows == init + [last];
      assert forall x :: x in init ==> x in rows;
      assert keep(last);
      WhereAll(init, keep);
      assert Where(rows, keep) == Where(init, keep) + [last];
    }
  }

  /** `LIMIT limit OFFSET offset`: skip `offset` rows, then keep at most `limit`. */
  function Window(rows: seq<Row>, offset: nat, limit: nat): (r: seq<Row>)
    ensures |r| <= limit
    ensures forall x :: x in r ==> x in rows
  {
    var rest := if offset <= |rows| then rows[offset..] else [];
    if limit <= |rest| then rest[..limit] else rest
  }

  /** A window of an ordered list is ordered. */
  lemma WindowSorted(rows: seq<Row>, offset: nat, limit: nat, le: (Row, Row) -> bool)
    requires SortedBy(rows, le)
    ensures SortedBy(Window(rows, offset, limit), le)
  {
    var rest := if offset <= |rows| then rows[offset..] else [];
    var r := Window(rows, offset, limit);
    forall i, j | 0 <= i < j < |r| ensures le(r[i], r[j]) {
      assert r[i] == rows[offset + i] && r[j] == rows[offset + j];
    }
  }

  /** MySQL's `date DESC`: a later date first, and NULL after every date. */
  predicate DateLater(a: Option<string>, b: Option<string>)
  {
    a.Some? && (b.None? || LexLess(b.value, a.value))
  }

  /** `ORDER BY date DESC, id DESC`: `a` may come before `b`. */
  predicate DateIdFirst(a: Row, b: Row)
  {
    DateLater(a.date, b.date) || (a.date == b.date && a.id >= b.id)
  }

  /** `ORDER BY updated_at DESC`: `a` may come before `b`. */
  predicate UpdatedFirst(a: Row, b: Row)
  {
    a.updatedAt >= b.updatedAt
  }

  lemma DateLaterTotal(a: Option<string>, b: Option<string>)
    ensures DateLater(a, b) || DateLater(b, a) || a == b
  {
    if a.Some? && b.Some? && a.value != b.value {
      LexTotal(a.value, b.value);
    }
  }

  lemma DateLaterTransitive(a: Option<string>, b: Option<string>, c: Option<string>)
    requires DateLater(a, b) && DateLater(b, c)
    ensures DateLater(a, c)
  {
    if c.Some? {
      LexTransitive(c.value, b.value, a.value);
    }
  }

  lemma DateLaterAsymmetric(a: Option<string>, b: Option<string>)
    requires DateLater(a, b)
    ensures !DateLater(b, a) && a != b
  {
    if b.Some? {
      if LexLess(a.value, b.value) {
        LexTransitive(b.value, a.value, b.value);
        LexIrreflexive(b.value);
      }
      LexIrreflexive(b.value);
    }
  }

  /** The listing order orders every pair of rows and is transitive. */
  lemma DateIdFirstPreorder()
    ensures TotalPreorder(DateIdFirst)
  {
    forall a: Row, b: Row ensures DateIdFirst(a, b) || DateIdFirst(b, a) {
      DateLaterTotal(a.date, b.date);
    }
    forall a: Row, b: Row, c: Row | DateIdFirst(a, b) && DateIdFirst(b, c) ensures DateIdFirst(a, c) {
      if DateLater(a.date, b.date) && DateLater(b.date, c.date) {
        DateLaterTransitive(a.date, b.date, c.date);
      }
    }
  }

  lemma UpdatedFirstPreorder()
    ensures TotalPreorder(UpdatedFirst)
  {
  }

  /** Rows with different ids are never tied in the listing order, so it is a strict order on
      a table whose ids are distinct. */
  lemma DateIdFirstAntisymmetric(a: Row, b: Row)
    requires DateIdFirst(a, b) && DateIdFirst(b, a)
    ensures a.id == b.id
  {
    if DateLater(a.date, b.date) {
      DateLaterAsymmetric(a.date, b.date);
    } else if DateLater(b.date, a.date) {
      DateLaterAsymmetric(b.date, a.date);
    }
  }

  /** A statement parameter, as bound to a `?`. JSON-encoded parameters (`tags`, `content`,
      the tag filter) are kept as the values they encode. */
  datatype Param =
    | IntParam(n: int)
    | TextParam(s: string)
    | NullParam
    | FlagParam(b: bool)
    | TagsParam(tags: TagsColumn)
    | ContentParam(content: Option<ArticleContent>)

  /** The fragments the SELECT statements are assembled from, in the order they are appended. */
  datatype Clause =
    | SelectListing
    | SelectEverything
    | AndYear
    | AndTag
    | AndPublished
    | OrderByDateDesc
    | OrderByUpdatedDesc
    | LimitClause
    | OffsetClause

  function ClauseText(c: Clause): string
  {
    match c
    case SelectListing =>
      "SELECT id, title, slug, year, conference, speaker, date, summary, tags, thumbnail, view_count, created_at, updated_at FROM articles WHERE published = true"
    case SelectEverything => "SELECT * FROM articles WHERE 1=1"
    case AndYear => " AND year = ?"
    case AndTag => " AND JSON_CONTAINS(tags, ?)"
    case AndPublished => " AND published = ?"
    case OrderByDateDesc => " ORDER BY date DESC, id DESC"
    case OrderByUpdatedDesc => " ORDER BY updated_at DESC"
    case LimitClause => " LIMIT ?"
    case OffsetClause => " OFFSET ?"
  }

  /** The SQL text of a statement. */
  function SqlText(cs: seq<Clause>): string
  {
    if |cs| == 0 then "" else SqlText(cs[..|cs| - 1]) + ClauseText(cs[|cs| - 1])
  }

  /** The number of `?` placeholders in a fragment's text. */
  function Placeholders(c: Clause): nat
  {
    match c
    case AndYear => 1
    case AndTag => 1
    case AndPublished => 1
    case LimitClause => 1
    case OffsetClause => 1
    case _ => 0
  }

  function PlaceholderCount(cs: seq<Clause>): nat
  {
    if |cs| == 0 then 0 else PlaceholderCount(cs[..|cs| - 1]) + Placeholders(cs[|cs| - 1])
  }

  lemma {:induction false} PlaceholderCountAppend(a: seq<Clause>, b: seq<Clause>)
    ensures PlaceholderCount(a + b) == PlaceholderCount(a) + PlaceholderCount(b)
    decreases |b|
  {
    if |b| > 0 {
      PlaceholderCountAppend(a, b[..|b| - 1]);
      assert (a + b)[..|a + b| - 1] == a + b[..|b| - 1];
    } else {
      assert a + b == a;
    }
  }

  /** A SELECT being read: the candidate rows so far, and the LIMIT and OFFSET seen. */
  datatype Selection = Selection(rows: seq<Row>, limit: Option<nat>, offset: Option<nat>)

  /** The effect of one fragment with its parameters `q`: the select picks the candidate
      rows, a condition narrows them, ORDER BY sorts them, LIMIT and a directly following
      OFFSET fix the window. `None` is a statement the database refuses: a parameter of the
      wrong kind, a negative LIMIT or OFFSET, an OFFSET without LIMIT, or anything after it. */
  function Step(sel: Selection, c: Clause, q: seq<Param>): Option<Selection>
    requires |q| == Placeholders(c)
  {
    if sel.offset.Some? || (sel.limit.Some? && c != OffsetClause) then None
    else
      match c
      case SelectListing => Some(sel.(rows := Where(sel.rows, (r: Row) => r.published)))
      case SelectEverything => Some(sel)
      case AndYear =>
        if q[0].IntParam? then Some(sel.(rows := Where(sel.rows, (r: Row) => r.year == q[0].n))) else None
      case AndTag =>
        if q[0].TextParam? then Some(sel.(rows := Where(sel.rows, (r: Row) => HasTag(r, q[0].s)))) else None
      case AndPublished =>
        if q[0].FlagParam? then Some(sel.(rows := Where(sel.rows, (r: Row) => r.published == q[0].b))) else None
      case OrderByDateDesc => Some(sel.(rows := SortBy(sel.rows, DateIdFirst)))
      case OrderByUpdatedDesc => Some(sel.(rows := SortBy(sel.rows, UpdatedFirst)))
      case LimitClause =>
        if q[0].IntParam? && q[0].n >= 0 then Some(sel.(limit := Some(q[0].n))) else None
      case OffsetClause =>
        if sel.limit.Some? && q[0].IntParam? && q[0].n >= 0 then Some(sel.(offset := Some(q[0].n))) else None
  }

  /** Reading the fragments `cs` left to right over the table, each taking its placeholders'
      parameters from `ps` in order; `None` also when the parameter count is wrong. */
  function Fold(cs: seq<Clause>, ps: seq<Param>, rows: seq<Row>): Option<Selection>
    decreases |cs|
  {
    if |cs| == 0 then (if |ps| == 0 then Some(Selection(rows, None, None)) else None)
    else
      var c := cs[|cs| - 1];
      var k := Placeholders(c);
      if |ps| < k then None
      else
        match Fold(cs[..|cs| - 1], ps[..|ps| - k], rows)
        case None => None
        case Some(sel) => Step(sel, c, ps[|ps| - k..])
  }

  /** What a SELECT assembled from `cs` with parameters `ps` returns from `rows`. */
  function Run(cs: seq<Clause>, ps: seq<Param>, rows: seq<Row>): Option<seq<Row>>
  {
    match Fold(cs, ps, rows)
    case None => None
    case Some(sel) =>
      Some(if sel.limit.Some? then Window(sel.rows, sel.offset.GetOr(0), sel.limit.value) else sel.rows)
  }

  /** A statement: its fragments and the parameters bound to their placeholders, in order. */
  datatype Statement = Statement(clauses: seq<Clause>, params: seq<Param>)

  /** Appending a fragment and its parameters (`sql += …; params.push(…)`). */
  function Push(st: Statement, c: Clause, q: seq<Param>): Statement
  {
    Statement(st.clauses + [c], st.params + q)
  }

  /** Appending a fragment applies its step to what the statement read so far. */
  lemma FoldPush(st: Statement, c: Clause, q: seq<Param>, rows: seq<Row>)
    requires |q| == Placeholders(c)
    ensures Fold(Push(st, c, q).clauses, Push(st, c, q).params, rows) ==
      match Fold(st.clauses, st.params, rows)
      case None => None
      case Some(sel) => Step(sel, c, q)
  {
    var cs := st.clauses + [c];
    var ps := st.params + q;
    assert cs[..|cs| - 1] == st.clauses && cs[|cs| - 1] == c;
    assert ps[..|ps| - |q|] == st.params && ps[|ps| - |q|..] == q;
  }

  lemma PlaceholdersPush(st: Statement, c: Clause, q: seq<Param>)
    requires PlaceholderCount(st.clauses) == |st.params| && |q| == Placeholders(c)
    ensures PlaceholderCount(Push(st, c, q).clauses) == |Push(st, c, q).params|
  {
    assert (st.clauses + [c])[..|st.clauses|] == st.clauses;
  }

  /** The public listing's filters; `None` is a filter that was not set (or is `NaN`). */
  datatype Filters = Filters(year: Option<int>, tag: Option<string>, limit: Option<int>, offset: Option<int>)

  /** A number filter is applied only when truthy: set, and not 0. */
  predicate Truthy(n: Option<int>)
  {
    n.Some? && n.value != 0
  }

  /** A text filter is applied only when truthy: set, and not empty. */
  predicate TruthyText(s: Option<string>)
  {
    s.Some? && s.value != ""
  }

  /** The first stages of `findAll`'s statement: the published listing with the optional year
      and tag conditions. */
  function ListingConditions(f: Filters): Statement
  {
    var base := Statement([SelectListing], []);
    var withYear := if Truthy(f.year) then Push(base, AndYear, [IntParam(f.year.value)]) else base;
    if TruthyText(f.tag) then Push(withYear, AndTag, [TextParam(f.tag.value)]) else withYear
  }

  /** The statement `findAll` assembles: the conditions, the date order, and LIMIT with OFFSET
      nested inside it. */
  function FindAllStatement(f: Filters): Statement
  {
    var ordered := Push(ListingConditions(f), OrderByDateDesc, []);
    var limited := if Truthy(f.limit) then Push(ordered, LimitClause, [IntParam(f.limit.value)]) else ordered;
    if Truthy(f.limit) && Truthy(f.offset) then Push(limited, OffsetClause, [IntParam(f.offset.value)]) else limited
  }

  /** A row the listing's conditions select. */
  predicate Listed(f: Filters, r: Row)
  {
    r.published && (Truthy(f.year) ==> r.year == f.year.value) && (TruthyText(f.tag) ==> HasTag(r, f.tag.value))
  }

  /** What the listing means: of the published rows matching the truthy filters, the latest
      date first (ties by larger id first); with a truthy limit, the window of that many rows
      after a truthy offset. Negative limits and offsets are refused by the database. */
  function FindAllResult(f: Filters, rows: seq<Row>): Option<seq<Row>>
  {
    var ordered := SortBy(Where(rows, (r: Row) => Listed(f, r)), DateIdFirst);
    if !Truthy(f.limit) then Some(ordered)
    else if f.limit.value < 0 || (Truthy(f.offset) && f.offset.value < 0) then None
    else Some(Window(ordered, if Truthy(f.offset) then f.offset.value else 0, f.limit.value))
  }

  /** The statement has one parameter per placeholder. */
  lemma FindAllPlaceholders(f: Filters)
    ensures PlaceholderCount(FindAllStatement(f).clauses) == |FindAllStatement(f).params|
  {
    var base := Statement([SelectListing], []);
    var withYear := if Truthy(f.year) then Push(base, AndYear, [IntParam(f.year.value)]) else base;
    var cond := ListingConditions(f);
    var ordered := Push(cond, OrderByDateDesc, []);
    var limited := if Truthy(f.limit) then Push(ordered, LimitClause, [IntParam(f.limit.value)]) else ordered;
    assert PlaceholderCount(base.clauses) == 0 by { assert base.clauses[..0] == []; }
    if Truthy(f.year) { PlaceholdersPush(base, AndYear, [IntParam(f.year.value)]); }
    if TruthyText(f.tag) { PlaceholdersPush(withYear, AndTag, [TextParam(f.tag.value)]); }
    PlaceholdersPush(cond, OrderByDateDesc, []);
    if Truthy(f.limit) { PlaceholdersPush(ordered, LimitClause, [IntParam(f.limit.value)]); }
    if Truthy(f.limit) && Truthy(f.offset) { PlaceholdersPush(limited, OffsetClause, [IntParam(f.offset.value)]); }
  }

  /** The fragments of `findAll`'s statement, written out. */
  lemma FindAllClauses(f: Filters)
    ensures FindAllStatement(f).clauses ==
      [SelectListing] + (if Truthy(f.year) then [AndYear] else []) + (if TruthyText(f.tag) then [AndTag] else [])
      + [OrderByDateDesc]
      + (if Truthy(f.limit) then [LimitClause] else [])
      + (if Truthy(f.limit) && Truthy(f.offset) then [OffsetClause] else [])
  {
  }

  /** Each optional fragment appears exactly when its filter is truthy; OFFSET only with LIMIT. */
  lemma FindAllStatementShape(f: Filters)
    ensures OffsetClause in FindAllStatement(f).clauses <==> Truthy(f.limit) && Truthy(f.offset)
    ensures LimitClause in FindAllStatement(f).clauses <==> Truthy(f.limit)
    ensures AndYear in FindAllStatement(f).clauses <==> Truthy(f.year)
    ensures AndTag in FindAllStatement(f).clauses <==> TruthyText(f.tag)
  {
    var y: seq<Clause> := if Truthy(f.year) then [AndYear] else [];
    var t: seq<Clause> := if TruthyText(f.tag) then [AndTag] else [];
    var l: seq<Clause> := if Truthy(f.limit) then [LimitClause] else [];
    var o: seq<Clause> := if Truthy(f.limit) && Truthy(f.offset) then [OffsetClause] else [];
    FindAllClauses(f);
    var cs := FindAllStatement(f).clauses;
    assert cs == [SelectListing] + y + t + [OrderByDateDesc] + l + o;
    forall x ensures x in cs <==> x == SelectListing || x in y || x in t || x == OrderByDateDesc || x in l || x in o {
      InSix([SelectListing], y, t, [OrderByDateDesc], l, o, x);
    }
  }

  lemma InSix(a: seq<Clause>, b: seq<Clause>, c: seq<Clause>, d: seq<Clause>, e: seq<Clause>, g: seq<Clause>, x: Clause)
    ensures x in a + b + c + d + e + g <==> x in a || x in b || x in c || x in d || x in e || x in g
  {
  }

  /** The conditions read over the table select exactly the listed rows. */
  lemma ListingConditionsMeaning(f: Filters, rows: seq<Row>)
    ensures Fold(ListingConditions(f).clauses, ListingConditions(f).params, rows)
      == Some(Selection(Where(rows, (r: Row) => Listed(f, r)), None, None))
  {
    var base := Statement([SelectListing], []);
    var withYear := if Truthy(f.year) then Push(base, AndYear, [IntParam(f.year.value)]) else base;
    var pub := (r: Row) => r.published;
    var yearOk := (r: Row) => r.published && (Truthy(f.year) ==> r.year == f.year.value);
    var listed := (r: Row) => Listed(f, r);
    assert Fold([], [], rows) == Some(Selection(rows, None, None));
    FoldPush(Statement([], []), SelectListing, [], rows);
    assert Push(Statement([], []), SelectListing, []) == base;
    assert Fold(base.clauses, base.params, rows) == Some(Selection(Where(rows, pub), None, None));
    if Truthy(f.year) {
      FoldPush(base, AndYear, [IntParam(f.year.value)], rows);
      WhereWhere(rows, pub, (r: Row) => r.year == f.year.value, yearOk);
    } else {
      assert forall x :: yearOk(x) == pub(x);
      WhereSame(rows, pub, yearOk);
    }
    assert Fold(withYear.clauses, withYear.params, rows) == Some(Selection(Where(rows, yearOk), None, None));
    if TruthyText(f.tag) {
      FoldPush(withYear, AndTag, [TextParam(f.tag.value)], rows);
      WhereWhere(rows, yearOk, (r: Row) => HasTag(r, f.tag.value), listed);
    } else {
      WhereSame(rows, yearOk, listed);
    }
  }

  /** Conditions that agree on every row select the same rows. */
  lemma {:induction false} WhereSame(rows: seq<Row>, p: Row -> bool, q: Row -> bool)
    requires forall x :: p(x) == q(x)
    ensures Where(rows, p) == Where(rows, q)
  {
    if |rows| > 0 {
      WhereSame(rows[..|rows| - 1], p, q);
    }
  }

  /** From the ordered rows, LIMIT and OFFSET cut the listing's window. */
  lemma PageMeaning(f: Filters, ordered: Statement, rows: seq<Row>, sorted: seq<Row>)
    requires Fold(ordered.clauses, ordered.params, rows) == Some(Selection(sorted, None, None))
    ensures (var limited := if Truthy(f.limit) then Push(ordered, LimitClause, [IntParam(f.limit.value)]) else ordered;
             var st := if Truthy(f.limit) && Truthy(f.offset) then Push(limited, OffsetClause, [IntParam(f.offset.value)]) else limited;
             Run(st.clauses, st.params, rows) ==
               if !Truthy(f.limit) then Some(sorted)
               else if f.limit.value < 0 || (Truthy(f.offset) && f.offset.value < 0) then None
               else Some(Window(sorted, if Truthy(f.offset) then f.offset.value else 0, f.limit.value)))
  {
    var limited := if Truthy(f.limit) then Push(ordered, LimitClause, [IntParam(f.limit.value)]) else ordered;
    if Truthy(f.limit) {
      FoldPush(ordered, LimitClause, [IntParam(f.limit.value)], rows);
      if Truthy(f.offset) {
        FoldPush(limited, OffsetClause, [IntParam(f.offset.value)], rows);
      }
    }
  }

  /** Running the listing statement gives the listing's meaning. */
  lemma FindAllMeaning(f: Filters, rows: seq<Row>)
    ensures Run(FindAllStatement(f).clauses, FindAllStatement(f).params, rows) == FindAllResult(f, rows)
  {
    var cond := ListingConditions(f);
    var sorted := SortBy(Where(rows, (r: Row) => Listed(f, r)), DateIdFirst);
    var ordered := Push(cond, OrderByDateDesc, []);
    ListingConditionsMeaning(f, rows);
    FoldPush(cond, OrderByDateDesc, [], rows);
    PageMeaning(f, ordered, rows, sorted);
  }

  /** The listing returns only published rows of the table that match the truthy filters,
      latest date first; without a truthy limit it returns every such row. */
  lemma FindAllResultProperties(f: Filters, rows: seq<Row>)
    ensures FindAllResult(f, rows).Some? ==>
      forall x :: x in FindAllResult(f, rows).value ==> x in rows && Listed(f, x)
    ensures FindAllResult(f, rows).Some? ==> SortedBy(FindAllResult(f, rows).value, DateIdFirst)
    ensures !Truthy(f.limit) ==>
      FindAllResult(f, rows).Some? && multiset(FindAllResult(f, rows).value) == multiset(Where(rows, (r: Row) => Listed(f, r)))
  {
    var matching := Where(rows, (r: Row) => Listed(f, r));
    var ordered := SortBy(matching, DateIdFirst);
    DateIdFirstPreorder();
    SortBySorted(matching, DateIdFirst);
    forall x | x in ordered ensures x in rows && Listed(f, x) {
      assert x in multiset(ordered);
    }
    if Truthy(f.limit) && f.limit.value >= 0 && !(Truthy(f.offset) && f.offset.value < 0) {
      WindowSorted(ordered, if Truthy(f.offset) then f.offset.value else 0, f.limit.value, DateIdFirst);
    }
  }

  /** `findAll`'s statement assembly: the fragments and parameters are appended one by one,
      each optional pair only when its filter is truthy, and OFFSET only inside the LIMIT
      branch. */
  method BuildFindAll(f: Filters) returns (sql: seq<Clause>, params: seq<Param>)
    ensures Statement(sql, params) == FindAllStatement(f)
    ensures PlaceholderCount(sql) == |params|
    ensures forall rows :: Run(sql, params, rows) == FindAllResult(f, rows)
  {
    sql := [SelectListing];
    params := [];
    if f.year.Some? && f.year.value != 0 {
      sql := sql + [AndYear];
      params := params + [IntParam(f.year.value)];
    }
    if f.tag.Some? && f.tag.value != "" {
      sql := sql + [AndTag];
      params := params + [TextParam(f.tag.value)];
    }
    assert Statement(sql, params) == ListingConditions(f);
    sql := sql + [OrderByDateDesc];
    ghost var ordered := Statement(sql, params);
    if f.limit.Some? && f.limit.value != 0 {
      sql := sql + [LimitClause];
      params := params + [IntParam(f.limit.value)];
      ghost var limited := Statement(sql, params);
      if f.offset.Some? && f.offset.value != 0 {
        sql := sql + [OffsetClause];
        params := params + [IntParam(f.offset.value)];
        assert Statement(sql, params) == Push(limited, OffsetClause, [IntParam(f.offset.value)]);
      }
    }
    assert Statement(sql, params) == FindAllStatement(f);
    FindAllSound(f);
  }

  /** The listing statement is well formed and means the listing on every table. */
  lemma FindAllSound(f: Filters)
    ensures PlaceholderCount(FindAllStatement(f).clauses) == |FindAllStatement(f).params|
    ensures forall rows :: Run(FindAllStatement(f).clauses, FindAllStatement(f).params, rows) == FindAllResult(f, rows)
  {
    FindAllPlaceholders(f);
    forall rows ensures Run(FindAllStatement(f).clauses, FindAllStatement(f).params, rows) == FindAllResult(f, rows) {
      FindAllMeaning(f, rows);
    }
  }

  /** The first stages of `findAllForAdmin`'s statement: every row, with the published
      condition when a flag is given. */
  function AdminConditions(published: Option<bool>): Statement
  {
    var base := Statement([SelectEverything], []);
    if published.Some? then Push(base, AndPublished, [FlagParam(published.value)]) else base
  }

  /** The statement `findAllForAdmin` assembles: the conditions, then the most recently
      updated first. */
  function AdminStatement(published: Option<bool>): Statement
  {
    Push(AdminConditions(published), OrderByUpdatedDesc, [])
  }

  /** A row the admin listing's condition selects. */
  predicate AdminListed(published: Option<bool>, r: Row)
  {
    published.Some? ==> r.published == published.value
  }

  /** What the admin listing means: the rows (published or not) matching the flag when one is
      given, latest update first. */
  function AdminResult(published: Option<bool>, rows: seq<Row>): seq<Row>
  {
    SortBy(Where(rows, (r: Row) => AdminListed(published, r)), UpdatedFirst)
  }

  /** Reading the bare SELECT keeps every row. */
  lemma SelectEverythingMeaning(rows: seq<Row>)
    ensures Fold([SelectEverything], [], rows) == Some(Selection(rows, None, None))
  {
    assert Fold([], [], rows) == Some(Selection(rows, None, None));
    FoldPush(Statement([], []), SelectEverything, [], rows);
    assert Push(Statement([], []), SelectEverything, []) == Statement([SelectEverything], []);
  }

  /** The admin condition read over the table selects exactly the rows it lists. */
  lemma AdminConditionsMeaning(published: Option<bool>, rows: seq<Row>)
    ensures Fold(AdminConditions(published).clauses, AdminConditions(published).params, rows)
      == Some(Selection(Where(rows, (r: Row) => AdminListed(published, r)), None, None))
  {
    var base := Statement([SelectEverything], []);
    var listed := (r: Row) => AdminListed(published, r);
    SelectEverythingMeaning(rows);
    if published.Some? {
      var flag := published.value;
      FoldPush(base, AndPublished, [FlagParam(flag)], rows);
      WhereSame(rows, (r: Row) => r.published == flag, listed);
    } else {
      WhereAll(rows, listed);
    }
  }

  /** Running the admin statement gives the admin listing's meaning. */
  lemma AdminMeaning(published: Option<bool>, rows: seq<Row>)
    ensures Run(AdminStatement(published).clauses, AdminStatement(published).params, rows) == Some(AdminResult(published, rows))
  {
    AdminConditionsMeaning(published, rows);
    FoldPush(AdminConditions(published), OrderByUpdatedDesc, [], rows);
  }

  /** The admin statement has one parameter per placeholder. */
  lemma AdminPlaceholders(published: Option<bool>)
    ensures PlaceholderCount(AdminStatement(published).clauses) == |AdminStatement(published).params|
  {
    var base := Statement([SelectEverything], []);
    assert PlaceholderCount(base.clauses) == 0 by { assert base.clauses[..0] == []; }
    if published.Some? {
      PlaceholdersPush(base, AndPublished, [FlagParam(published.value)]);
    }
    PlaceholdersPush(AdminConditions(published), OrderByUpdatedDesc, []);
  }

  /** The admin listing holds every matching row, unpublished ones included, exactly as often
      as the table does, and is ordered by update time, latest first. */
  lemma AdminResultProperties(published: Option<bool>, rows: seq<Row>)
    ensures multiset(AdminResult(published, rows)) == multiset(Where(rows, (r: Row) => AdminListed(published, r)))
    ensures forall x :: x in AdminResult(published, rows) <==> x in rows && AdminListed(published, x)
    ensures SortedBy(AdminResult(published, rows), UpdatedFirst)
  {
    var matching := Where(rows, (r: Row) => AdminListed(published, r));
    UpdatedFirstPreorder();
    SortBySorted(matching, UpdatedFirst);
    forall x ensures x in AdminResult(published, rows) <==> x in matching {
      assert x in AdminResult(published, rows) <==> x in multiset(AdminResult(published, rows));
    }
  }

  /** `findAllForAdmin`'s statement assembly. */
  method BuildFindAllForAdmin(published: Option<bool>) returns (sql: seq<Clause>, params: seq<Param>)
    ensures Statement(sql, params) == AdminStatement(published)
    ensures PlaceholderCount(sql) == |params|
    ensures forall rows :: Run(sql, params, rows) == Some(AdminResult(published, rows))
  {
    sql := [SelectEverything];
    params := [];
    if published.Some? {
      sql := sql + [AndPublished];
      params := params + [FlagParam(published.value)];
    }
    sql := sql + [OrderByUpdatedDesc];
    assert Statement(sql, params) == AdminStatement(published);
    forall rows ensures Run(sql, params, rows) == Some(AdminResult(published, rows)) {
      AdminMeaning(published, rows);
    }
    AdminPlaceholders(published);
  }
}
