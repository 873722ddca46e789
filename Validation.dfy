/** The request-body validators run before an article is created (`validateArticle`) or
    patched (`validateArticleUpdate`). */
module Validation {
  import opened Wrappers
  import opened Strings
  import opened ContentModel
  import opened ErrorHandling
  import MetadataForm

  /** The `year` field of a request body: absent, an integer, or any other JSON value
      (a fraction, a numeric string, `null`, a boolean …). */
  datatype YearValue = NoYear | IntYear(n: int) | NotInteger

  /** The fields the validators look at. A missing title or slug is `None`; so is a `null`
      one for `validateArticle`, whose `!slug` test treats both alike, while a `null` slug in
      `validateArticleUpdate` is not modelled. A falsy `content` (missing, `null`, `""`, `0`,
      `false`) is `None`. */
  datatype ArticleBody = ArticleBody(
    title: Option<string>,
    slug: Option<string>,
    year: YearValue,
    content: Option<ArticleContent>)

  /** The messages a validator can report. */
  datatype Complaint = TitleRequired | SlugRequired | SlugFormat | SlugMalformed | YearInvalid | ContentRequired

  function Message(c: Complaint): string
  {
    match c
    case TitleRequired => "제목은 필수입니다"
    case SlugRequired => "슬러그는 필수입니다"
    case SlugFormat => "슬러그는 소문자, 숫자, 하이픈만 사용할 수 있습니다"
    case SlugMalformed => "올바른 슬러그 형식이 아닙니다"
    case YearInvalid => "올바른 연도를 입력해주세요"
    case ContentRequired => "컨텐츠는 필수입니다"
  }

  function Messages(cs: seq<Complaint>): (r: seq<string>)
    ensures |r| == |cs|
    ensures forall i :: 0 <= i < |cs| ==> r[i] == Message(cs[i])
  {
    if |cs| == 0 then [] else Messages(cs[..|cs| - 1]) + [Message(cs[|cs| - 1])]
  }

  /** The body field a complaint is about, in the order the validators check them. */
  function FieldRank(c: Complaint): nat
  {
    match c
    case TitleRequired => 0
    case SlugRequired => 1
    case SlugFormat => 1
    case SlugMalformed => 1
    case YearInvalid => 2
    case ContentRequired => 3
  }

  predicate Blank(s: Option<string>)
  {
    s.None? || |Trim(s.value)| == 0
  }

  /** A year in the accepted range: an integer from 2013 up to next year, both inclusive. */
  predicate GoodYear(y: YearValue, currentYear: int)
  {
    y.IntYear? && 2013 <= y.n <= currentYear + 1
  }

  /** The requirements of a new article. */
  predicate AcceptableArticle(b: ArticleBody, currentYear: int)
  {
    !Blank(b.title) && !Blank(b.slug) && IsSlug(b.slug.value) && GoodYear(b.year, currentYear) && b.content.Some?
  }

  /** The requirements of a patch: only the slug and year that are present are checked. */
  predicate AcceptablePatch(b: ArticleBody, currentYear: int)
  {
    (b.slug.None? || (|Trim(b.slug.value)| > 0 && IsSlug(b.slug.value))) &&
    (b.year.NoYear? || GoodYear(b.year, currentYear))
  }

  /** At most one complaint per field, in field order. */
  predicate FieldOrdered(cs: seq<Complaint>)
  {
    forall i, j :: 0 <= i < j < |cs| ==> FieldRank(cs[i]) < FieldRank(cs[j])
  }

  /** `[c]` when `on` holds, otherwise nothing. */
  function When(on: bool, c: Complaint): (r: seq<Complaint>)
    ensures c in r <==> on
    ensures |r| <= 1 && forall x :: x in r ==> x == c
  {
    if on then [c] else []
  }

  /** What `validateArticle` complains about, field by field: a blank slug is "required",
      only a non-blank one is checked against the format. */
  function ArticleComplaints(b: ArticleBody, currentYear: int): seq<Complaint>
  {
    When(Blank(b.title), TitleRequired)
      + (if Blank(b.slug) then [SlugRequired] else When(!IsSlug(b.slug.value), SlugFormat))
      + When(!GoodYear(b.year, currentYear), YearInvalid)
      + When(b.content.None?, ContentRequired)
  }

  /** What `validateArticleUpdate` complains about: only a present slug and a present year. */
  function PatchComplaints(b: ArticleBody, currentYear: int): seq<Complaint>
  {
    When(b.slug.Some? && !(|Trim(b.slug.value)| > 0 && IsSlug(b.slug.value)), SlugMalformed)
      + When(!b.year.NoYear? && !GoodYear(b.year, currentYear), YearInvalid)
  }

  /** The verdict for a list of complaints: proceed, or a 400 joining their messages with ", ". */
  function Verdict(cs: seq<Complaint>): Option<Failure>
  {
    if |cs| == 0 then None else Some(AppError(Join(Messages(cs), ", "), 400, None))
  }

  /** `validateArticle`: each failed check pushes its complaint; the messages are joined at
      the end. */
  method ValidateArticle(b: ArticleBody, currentYear: int) returns (verdict: Option<Failure>)
    ensures verdict == Verdict(ArticleComplaints(b, currentYear))
  {
    var errors: seq<Complaint> := [];
    if b.title.None? || |Trim(b.title.value)| == 0 {
      errors := errors + [TitleRequired];
    }
    ghost var e1 := errors;
    if b.slug.None? || |Trim(b.slug.value)| == 0 {
      errors := errors + [SlugRequired];
    } else if !IsSlug(b.slug.value) {
      errors := errors + [SlugFormat];
    }
    ghost var e2 := errors;
    if !b.year.IntYear? || b.year.n == 0 || b.year.n < 2013 || b.year.n > currentYear + 1 {
      errors := errors + [YearInvalid];
    }
    ghost var e3 := errors;
    if b.content.None? {
      errors := errors + [ContentRequired];
    }
    assert e1 == When(Blank(b.title), TitleRequired);
    assert e2 == e1 + (if Blank(b.slug) then [SlugRequired] else When(!IsSlug(b.slug.value), SlugFormat));
    assert e3 == e2 + When(!GoodYear(b.year, currentYear), YearInvalid);
    assert errors == e3 + When(b.content.None?, ContentRequired);
    if |errors| > 0 {
      verdict := Some(AppError(Join(Messages(errors), ", "), 400, None));
    } else {
      verdict := None;
    }
  }

  /** `validateArticleUpdate`: the same pattern over the slug and year checks only. */
  method ValidateArticleUpdate(b: ArticleBody, currentYear: int) returns (verdict: Option<Failure>)
    ensures verdict == Verdict(PatchComplaints(b, currentYear))
  {
    var errors: seq<Complaint> := [];
    if b.slug.Some? && (|Trim(b.slug.value)| == 0 || !IsSlug(b.slug.value)) {
      errors := errors + [SlugMalformed];
    }
    ghost var e1 := errors;
    if !b.year.NoYear? && (!b.year.IntYear? || b.year.n < 2013 || b.year.n > currentYear + 1) {
      errors := errors + [YearInvalid];
    }
    assert errors == e1 + When(!b.year.NoYear? && !GoodYear(b.year, currentYear), YearInvalid);
    if |errors| > 0 {
      verdict := Some(AppError(Join(Messages(errors), ", "), 400, None));
    } else {
      verdict := None;
    }
  }

  /** A new article is accepted exactly when it meets every requirement; each failed
      requirement is reported, and a blank slug is reported as missing rather than as
      malformed. */
  lemma ArticleComplaintsExact(b: ArticleBody, currentYear: int)
    ensures |ArticleComplaints(b, currentYear)| == 0 <==> AcceptableArticle(b, currentYear)
    ensures TitleRequired in ArticleComplaints(b, currentYear) <==> Blank(b.title)
    ensures SlugRequired in ArticleComplaints(b, currentYear) <==> Blank(b.slug)
    ensures SlugFormat in ArticleComplaints(b, currentYear) <==> !Blank(b.slug) && !IsSlug(b.slug.value)
    ensures YearInvalid in ArticleComplaints(b, currentYear) <==> !GoodYear(b.year, currentYear)
    ensures ContentRequired in ArticleComplaints(b, currentYear) <==> b.content.None?
    ensures SlugMalformed !in ArticleComplaints(b, currentYear)
  {
    var t := When(Blank(b.title), TitleRequired);
    var s := if Blank(b.slug) then [SlugRequired] else When(!IsSlug(b.slug.value), SlugFormat);
    var y := When(!GoodYear(b.year, currentYear), YearInvalid);
    var c := When(b.content.None?, ContentRequired);
    assert ArticleComplaints(b, currentYear) == t + s + y + c;
  }

  /** Every complaint of `a` is about a field before `k`. */
  predicate RanksBelow(a: seq<Complaint>, k: nat)
  {
    forall i :: 0 <= i < |a| ==> FieldRank(a[i]) < k
  }

  /** Every complaint of `a` is about field `k` or a later one. */
  predicate RanksFrom(a: seq<Complaint>, k: nat)
  {
    forall i :: 0 <= i < |a| ==> k <= FieldRank(a[i])
  }

  /** Concatenating field-ordered lists whose fields come one after the other keeps field order. */
  lemma {:induction false} FieldOrderedAppend(a: seq<Complaint>, b: seq<Complaint>, k: nat)
    requires FieldOrdered(a) && FieldOrdered(b) && RanksBelow(a, k) && RanksFrom(b, k)
    ensures FieldOrdered(a + b)
  {
    forall i, j | 0 <= i < j < |a + b| ensures FieldRank((a + b)[i]) < FieldRank((a + b)[j]) {
      if j < |a| {
        assert (a + b)[i] == a[i] && (a + b)[j] == a[j];
      } else if i >= |a| {
        assert (a + b)[i] == b[i - |a|] && (a + b)[j] == b[j - |a|];
      } else {
        assert (a + b)[i] == a[i] && (a + b)[j] == b[j - |a|];
      }
    }
  }

  lemma RanksBelowAppend(a: seq<Complaint>, b: seq<Complaint>, k: nat)
    requires RanksBelow(a, k) && RanksBelow(b, k)
    ensures RanksBelow(a + b, k)
  {
    forall i | 0 <= i < |a + b| ensures FieldRank((a + b)[i]) < k {
      if i >= |a| {
        assert (a + b)[i] == b[i - |a|];
      }
    }
  }

  lemma WhenRanked(on: bool, c: Complaint)
    ensures FieldOrdered(When(on, c)) && RanksBelow(When(on, c), FieldRank(c) + 1) && RanksFrom(When(on, c), FieldRank(c))
  {
  }

  /** Appending a piece about field `k` to complaints about earlier fields. */
  lemma AppendPiece(a: seq<Complaint>, p: seq<Complaint>, k: nat)
    requires FieldOrdered(a) && RanksBelow(a, k) && FieldOrdered(p) && RanksFrom(p, k) && RanksBelow(p, k + 1)
    ensures FieldOrdered(a + p) && RanksBelow(a + p, k + 1)
  {
    FieldOrderedAppend(a, p, k);
    RanksBelowAppend(a, p, k + 1);
  }

  /** The four pieces `validateArticle` may push, in field order, whichever checks fail. */
  lemma PiecesOrdered(titleBlank: bool, slugBlank: bool, slugBad: bool, yearBad: bool, contentMissing: bool)
    ensures FieldOrdered(When(titleBlank, TitleRequired)
      + (if slugBlank then [SlugRequired] else When(slugBad, SlugFormat))
      + When(yearBad, YearInvalid) + When(contentMissing, ContentRequired))
  {
    var t := When(titleBlank, TitleRequired);
    var s := if slugBlank then When(true, SlugRequired) else When(slugBad, SlugFormat);
    var y := When(yearBad, YearInvalid);
    var c := When(contentMissing, ContentRequired);
    WhenRanked(titleBlank, TitleRequired);
    if slugBlank { WhenRanked(true, SlugRequired); } else { WhenRanked(slugBad, SlugFormat); }
    WhenRanked(yearBad, YearInvalid);
    WhenRanked(contentMissing, ContentRequired);
    AppendPiece(t, s, 1);
    AppendPiece(t + s, y, 2);
    AppendPiece(t + s + y, c, 3);
  }

  /** `validateArticle` reports at most one complaint per field, in the order title, slug,
      year, content. */
  lemma ArticleComplaintsOrdered(b: ArticleBody, currentYear: int)
    ensures FieldOrdered(ArticleComplaints(b, currentYear))
  {
    PiecesOrdered(Blank(b.title), Blank(b.slug), !Blank(b.slug) && !IsSlug(b.slug.value),
      !GoodYear(b.year, currentYear), b.content.None?);
  }

  /** The patch validator reports at most a slug complaint followed by a year complaint, and
      passes exactly the acceptable patches. */
  lemma PatchComplaintsExact(b: ArticleBody, currentYear: int)
    ensures |PatchComplaints(b, currentYear)| == 0 <==> AcceptablePatch(b, currentYear)
    ensures FieldOrdered(PatchComplaints(b, currentYear))
    ensures forall x :: x in PatchComplaints(b, currentYear) ==> x == SlugMalformed || x == YearInvalid
  {
    var s := When(b.slug.Some? && !(|Trim(b.slug.value)| > 0 && IsSlug(b.slug.value)), SlugMalformed);
    var y := When(!b.year.NoYear? && !GoodYear(b.year, currentYear), YearInvalid);
    assert RanksBelow(s, 2) && RanksFrom(y, 2);
    FieldOrderedAppend(s, y, 2);
  }

  /** A slug with surrounding spaces is not blank but fails the format check: the slug is not
      trimmed before the pattern is applied. */
  lemma PaddedSlugFailsFormat(s: string)
    requires IsSlug(s)
    ensures !Blank(Some(" " + s)) && !IsSlug(" " + s)
  {
    assert !IsSlugChar((" " + s)[0]);
    TrimSkipsLeadingSpace(' ', s);
    SlugIsTrimmed(s);
  }

  /** Slug characters are never whitespace, so trimming a slug changes nothing. */
  lemma SlugIsTrimmed(s: string)
    requires IsSlug(s)
    ensures Trim(s) == s
  {
    assert !IsSpace(s[0]) && !IsSpace(s[|s| - 1]);
    TrimOfTrimmed(s);
  }

  /** Both year bounds are inclusive; year 0 and every year outside them are rejected. */
  lemma YearBounds(currentYear: int)
    requires currentYear >= 2013
    ensures GoodYear(IntYear(2013), currentYear) && GoodYear(IntYear(currentYear + 1), currentYear)
    ensures !GoodYear(IntYear(2012), currentYear) && !GoodYear(IntYear(currentYear + 2), currentYear)
    ensures !GoodYear(IntYear(0), currentYear) && !GoodYear(NoYear, currentYear) && !GoodYear(NotInteger, currentYear)
  {
  }

  /** Title and content never affect the patch validator. */
  lemma PatchIgnoresTitleAndContent(b: ArticleBody, title: Option<string>, content: Option<ArticleContent>, currentYear: int)
    ensures AcceptablePatch(b.(title := title, content := content), currentYear) == AcceptablePatch(b, currentYear)
  {
  }

  /** Every body a new article passes with also passes as a patch. */
  lemma ArticleImpliesPatch(b: ArticleBody, currentYear: int)
    requires AcceptableArticle(b, currentYear)
    ensures AcceptablePatch(b, currentYear)
  {
  }

  /** The slug check of `validateArticle` accepts a slug exactly when it has the slug format. */
  lemma SlugCheckIsFormat(s: string)
    ensures (!Blank(Some(s)) && IsSlug(s)) <==> IsSlug(s)
  {
    if IsSlug(s) {
      SlugIsTrimmed(s);
    }
  }

  /** Any non-empty slug produced by the editor's slug input passes both validators' slug
      checks. */
  lemma SanitisedSlugAccepted(typed: string)
    requires MetadataForm.SlugInput(typed) != ""
    ensures !Blank(Some(MetadataForm.SlugInput(typed))) && IsSlug(MetadataForm.SlugInput(typed))
  {
    MetadataForm.SlugInputIdempotent(typed);
    SlugCheckIsFormat(MetadataForm.SlugInput(typed));
  }

  /** A rejected article reaches the error handler as a 400 carrying the joined messages,
      in every environment: the error is operational and has no code or JWT name. */
  lemma RejectionAnswered(b: ArticleBody, currentYear: int, env: Option<string>)
    requires !AcceptableArticle(b, currentYear)
    ensures Verdict(ArticleComplaints(b, currentYear)).Some?
    ensures Answer(Verdict(ArticleComplaints(b, currentYear)).value, env)
      == (400, Join(Messages(ArticleComplaints(b, currentYear)), ", "))
  {
    ArticleComplaintsExact(b, currentYear);
  }
}
