/** The orderings the system produces: descending distinct numbers (year lists), ascending
    distinct strings (`Array.from(set).sort()`), and a stable sort by a comparison (SQL
    `ORDER BY`). */
module Ordering {
  import opened Strings

  predicate StrictlyDescending(s: seq<int>)
  {
    forall i, j :: 0 <= i < j < |s| ==> s[i] > s[j]
  }

  function InsertDescending(x: int, s: seq<int>): (r: seq<int>)
    requires StrictlyDescending(s)
    ensures StrictlyDescending(r)
    ensures forall y :: y in r <==> y in s || y == x
  {
    if |s| == 0 then [x]
    else if x > s[0] then [x] + s
    else if x == s[0] then s
    else
      var rest := InsertDescending(x, s[1..]);
      assert forall j :: 0 <= j < |rest| ==> s[0] > rest[j] by {
        forall j | 0 <= j < |rest| ensures s[0] > rest[j] {
          assert rest[j] in rest;
        }
      }
      [s[0]] + rest
  }

  /** The distinct values of `xs`, largest first. */
  function DistinctDescending(xs: seq<int>): (r: seq<int>)
    ensures StrictlyDescending(r)
    ensures forall y :: y in r <==> y in xs
  {
    if |xs| == 0 then [] else InsertDescending(xs[0], DistinctDescending(xs[1..]))
  }

  predicate StrictlyAscending(s: seq<string>)
  {
    forall i, j :: 0 <= i < j < |s| ==> LexLess(s[i], s[j])
  }

  function InsertAscending(x: string, s: seq<string>): (r: seq<string>)
    requires StrictlyAscending(s)
    ensures StrictlyAscending(r)
    ensures forall y :: y in r <==> y in s || y == x
  {
    if |s| == 0 then [x]
    else if x == s[0] then s
    else if LexLess(x, s[0]) then
      assert forall j :: 0 < j < |s| ==> LexLess(x, s[j]) by {
        forall j | 0 < j < |s| ensures LexLess(x, s[j]) { LexTransitive(x, s[0], s[j]); }
      }
      [x] + s
    else
      LexTotal(x, s[0]);
      var rest := InsertAscending(x, s[1..]);
      assert forall j :: 0 <= j < |rest| ==> LexLess(s[0], rest[j]) by {
        forall j | 0 <= j < |rest| ensures LexLess(s[0], rest[j]) {
          assert rest[j] in rest;
        }
      }
      [s[0]] + rest
  }

  lemma NoMembersEmpty(s: seq<string>)
    ensures (forall y :: y !in s) ==> s == []
  {
    if |s| > 0 {
      assert s[0] in s;
    }
  }

  /** A strictly ascending sequence is determined by its members. */
  lemma {:induction false} AscendingUnique(r: seq<string>, s: seq<string>)
    requires StrictlyAscending(r) && StrictlyAscending(s)
    requires forall y :: y in r <==> y in s
    ensures r == s
  {
    if |r| == 0 {
      NoMembersEmpty(s);
    } else {
      assert r[0] in r && |s| > 0;
      assert s[0] in s;
      var j :| 0 <= j < |s| && s[j] == r[0];
      var i :| 0 <= i < |r| && r[i] == s[0];
      if j > 0 {
        if i > 0 {
          LexTransitive(r[0], r[i], r[0]);
        }
        LexIrreflexive(r[0]);
      }
      assert r[0] == s[0];
      forall y ensures y in r[1..] <==> y in s[1..] {
        if y in r[1..] {
          var k :| 1 <= k < |r| && r[k] == y;
          LexIrreflexive(y);
          assert y in s && y != s[0];
        }
        if y in s[1..] {
          var k :| 1 <= k < |s| && s[k] == y;
          LexIrreflexive(y);
          assert y in r && y != r[0];
        }
      }
      AscendingUnique(r[1..], s[1..]);
      assert r == [r[0]] + r[1..] && s == [s[0]] + s[1..];
    }
  }

  /** The distinct strings of `xs` in JavaScript's default sort order. */
  function DistinctAscending(xs: seq<string>): (r: seq<string>)
    ensures StrictlyAscending(r)
    ensures forall y :: y in r <==> y in xs
  {
    if |xs| == 0 then [] else InsertAscending(xs[0], DistinctAscending(xs[1..]))
  }

  /** `le` orders every pair and is transitive (ties allowed). */
  ghost predicate TotalPreorder<T(!new)>(le: (T, T) -> bool)
  {
    (forall a, b :: le(a, b) || le(b, a)) &&
    (forall a, b, c :: le(a, b) && le(b, c) ==> le(a, c))
  }

  predicate SortedBy<T>(s: seq<T>, le: (T, T) -> bool)
  {
    forall i, j :: 0 <= i < j < |s| ==> le(s[i], s[j])
  }

  function InsertBy<T>(x: T, s: seq<T>, le: (T, T) -> bool): (r: seq<T>)
    ensures multiset(r) == multiset(s) + multiset{x}
  {
    if |s| == 0 then [x]
    else if le(x, s[0]) then [x] + s
    else
      assert s == [s[0]] + s[1..];
      [s[0]] + InsertBy(x, s[1..], le)
  }

  /** Insertion sort: a stable sort of `s` by `le`. */
  function SortBy<T>(s: seq<T>, le: (T, T) -> bool): (r: seq<T>)
    ensures multiset(r) == multiset(s)
  {
    if |s| == 0 then []
    else
      assert s == [s[0]] + s[1..];
      InsertBy(s[0], SortBy(s[1..], le), le)
  }

  lemma {:induction false} InsertBySorted<T(!new)>(x: T, s: seq<T>, le: (T, T) -> bool)
    requires TotalPreorder(le) && SortedBy(s, le)
    ensures SortedBy(InsertBy(x, s, le), le)
  {
    if |s| > 0 && !le(x, s[0]) {
      InsertBySorted(x, s[1..], le);
      var rest := InsertBy(x, s[1..], le);
      forall j | 0 <= j < |rest| ensures le(s[0], rest[j]) {
        assert rest[j] in multiset(rest);
        assert rest[j] == x || rest[j] in multiset(s[1..]);
        if rest[j] != x {
          var k :| 0 <= k < |s[1..]| && s[1..][k] == rest[j];
          assert s[1..][k] == s[k + 1];
        }
      }
    }
  }

  /** The result of `SortBy` is ordered by `le`. */
  lemma {:induction false} SortBySorted<T(!new)>(s: seq<T>, le: (T, T) -> bool)
    requires TotalPreorder(le)
    ensures SortedBy(SortBy(s, le), le)
  {
    if |s| > 0 {
      SortBySorted(s[1..], le);
      InsertBySorted(s[0], SortBy(s[1..], le), le);
    }
  }

  /** JavaScript's default string comparison as a non-strict order. */
  predicate LexLeq(a: string, b: string)
  {
    a == b || LexLess(a, b)
  }

  lemma LexLeqPreorder()
    ensures TotalPreorder(LexLeq)
  {
    forall a, b ensures LexLeq(a, b) || LexLeq(b, a) {
      if a != b { LexTotal(a, b); }
    }
    forall a, b, c | LexLeq(a, b) && LexLeq(b, c) ensures LexLeq(a, c) {
      if a != b && b != c { LexTransitive(a, b, c); }
    }
  }

  predicate NoDuplicates<T(==)>(s: seq<T>)
  {
    forall i, j :: 0 <= i < j < |s| ==> s[i] != s[j]
  }

  lemma {:induction false} NoDuplicatesCount<T>(s: seq<T>, x: T)
    requires NoDuplicates(s)
    ensures multiset(s)[x] <= 1
  {
    if |s| > 0 {
      var init := s[..|s| - 1];
      assert s == init + [s[|s| - 1]];
      assert NoDuplicates(init);
      NoDuplicatesCount(init, x);
      if x == s[|s| - 1] {
        assert x !in init;
      }
    }
  }

  lemma RepeatCount<T>(s: seq<T>, i: int, j: int)
    requires 0 <= i < j < |s| && s[i] == s[j]
    ensures multiset(s)[s[i]] >= 2
  {
    assert s == s[..j] + [s[j]] + s[j + 1..];
    assert s[i] == s[..j][i];
    assert s[i] in multiset(s[..j]);
  }

  /** Sorting a list without duplicates gives a list without duplicates. */
  lemma SortByNoDuplicates<T>(s: seq<T>, le: (T, T) -> bool)
    requires NoDuplicates(s)
    ensures NoDuplicates(SortBy(s, le))
  {
    var r := SortBy(s, le);
    forall i, j | 0 <= i < j < |r| ensures r[i] != r[j] {
      if r[i] == r[j] {
        RepeatCount(r, i, j);
        NoDuplicatesCount(s, r[i]);
        assert false;
      }
    }
  }

  /** `Array.from(set).sort()`: a duplicate-free list sorted in the default string order is
      strictly ascending and keeps its elements. */
  lemma SortDistinctStrings(s: seq<string>)
    requires NoDuplicates(s)
    ensures StrictlyAscending(SortBy(s, LexLeq))
    ensures forall x :: x in SortBy(s, LexLeq) <==> x in s
  {
    var r := SortBy(s, LexLeq);
    LexLeqPreorder();
    SortBySorted(s, LexLeq);
    SortByNoDuplicates(s, LexLeq);
    forall x ensures x in r <==> x in s {
      assert x in r <==> x in multiset(r);
    }
  }
}
