/** The home page's sections: the articles grouped by year, newest year first. */
module HomeGrouping {
  import opened ContentModel
  import opened Ordering

  /** The articles of year `y`, in their order in `s`. */
  function YearGroup(s: seq<Article>, y: int): (r: seq<Article>)
    ensures |r| <= |s|
    ensures forall a :: a in r ==> a in s && a.year == y
  {
    if |s| == 0 then []
    else YearGroup(s[..|s| - 1], y) + (if s[|s| - 1].year == y then [s[|s| - 1]] else [])
  }

  /** Every article is in the group of its own year, and no group holds an article of
      another year. */
  lemma {:induction false} InOwnGroup(s: seq<Article>, i: nat)
    requires i < |s|
    ensures s[i] in YearGroup(s, s[i].year)
    decreases |s|
  {
    if i < |s| - 1 {
      InOwnGroup(s[..|s| - 1], i);
    }
  }

  /** A year that occurs has a non-empty group. */
  lemma GroupNonEmpty(s: seq<Article>, i: nat)
    requires i < |s|
    ensures |YearGroup(s, s[i].year)| > 0
  {
    InOwnGroup(s, i);
  }

  /** The group of `y` is the articles of year `y` kept in input order: it is what filtering
      the articles by year gives, front to back. */
  lemma {:induction false} YearGroupFront(a: Article, s: seq<Article>, y: int)
    ensures YearGroup([a] + s, y) == (if a.year == y then [a] else []) + YearGroup(s, y)
    decreases |s|
  {
    if |s| > 0 {
      assert ([a] + s)[..|[a] + s| - 1] == [a] + s[..|s| - 1];
      YearGroupFront(a, s[..|s| - 1], y);
    } else {
      assert [a] + s == [a];
      assert [a][..0] == [];
    }
  }

  lemma NoGroupYet(s: seq<Article>, y: int)
    requires forall j :: 0 <= j < |s| ==> s[j].year != y
    ensures YearGroup(s, y) == []
  {
  }

  lemma YearGroupSnoc(s: seq<Article>, a: Article, y: int)
    ensures YearGroup(s + [a], y) == YearGroup(s, y) + (if a.year == y then [a] else [])
  {
    assert (s + [a])[..|s|] == s;
  }

  /** The `articles.reduce` that fills `articlesByYear`; `keys` lists the years in the order
      they were first met. */
  method GroupByYear(articles: seq<Article>) returns (groups: map<int, seq<Article>>, keys: seq<int>)
    ensures forall y :: y in groups <==> exists i :: 0 <= i < |articles| && articles[i].year == y
    ensures forall y :: y in groups ==> groups[y] == YearGroup(articles, y) && |groups[y]| > 0
    ensures forall y :: y in keys <==> y in groups
  {
    groups := map[];
    keys := [];
    var i := 0;
    while i < |articles|
      invariant 0 <= i <= |articles|
      invariant forall y :: y in groups <==> exists j :: 0 <= j < i && articles[j].year == y
      invariant forall y :: y in groups ==> groups[y] == YearGroup(articles[..i], y)
      invariant forall y :: y in keys <==> y in groups
    {
      var a := articles[i];
      assert articles[..i + 1] == articles[..i] + [a];
      if a.year !in groups {
        NoGroupYet(articles[..i], a.year);
        groups := groups[a.year := []];
        keys := keys + [a.year];
      }
      forall y ensures YearGroup(articles[..i] + [a], y) == YearGroup(articles[..i], y) + (if a.year == y then [a] else []) {
        YearGroupSnoc(articles[..i], a, y);
      }
      groups := groups[a.year := groups[a.year] + [a]];
      i := i + 1;
    }
    assert articles[..i] == articles;
    forall y | y in groups ensures |groups[y]| > 0 {
      var j :| 0 <= j < |articles| && articles[j].year == y;
      GroupNonEmpty(articles, j);
    }
  }

  datatype YearSection = YearSection(year: int, articles: seq<Article>, count: nat)

  /** One `YearSection` per year, in the given order, with the year's group and its length. */
  function Sections(groups: map<int, seq<Article>>, years: seq<int>): (r: seq<YearSection>)
    requires forall k :: 0 <= k < |years| ==> years[k] in groups
    ensures |r| == |years| && forall k :: 0 <= k < |years| ==>
      r[k] == YearSection(years[k], groups[years[k]], |groups[years[k]]|)
  {
    seq(|years|, k requires 0 <= k < |years| => YearSection(years[k], groups[years[k]], |groups[years[k]]|))
  }

  /** The home page's grouping, the years sorted newest first, and the sections. */
  method HomeSections(articles: seq<Article>) returns (years: seq<int>, sections: seq<YearSection>)
    ensures StrictlyDescending(years)
    ensures forall y :: y in years <==> exists i :: 0 <= i < |articles| && articles[i].year == y
    ensures |sections| == |years| && forall k :: 0 <= k < |years| ==>
      sections[k].year == years[k] && sections[k].articles == YearGroup(articles, years[k]) &&
      sections[k].count == |sections[k].articles| > 0
  {
    var groups, keys := GroupByYear(articles);
    years := DistinctDescending(keys);
    sections := Sections(groups, years);
  }
}
